/** Offset pagination (rapina/src/pagination.rs): page and per_page, with totals. */
module OffsetPagination {
  import opened Wrappers
  import opened CursorPagination

  datatype PageQuery = PageQuery(page: Option<u64>, perPage: Option<u64>)

  datatype Paginate = Paginate(page: u64, perPage: u64)

  datatype PageError = PageZero | PerPageZero | PerPageTooLarge

  function PerPageOf(raw: PageQuery, config: Option<PaginationConfig>): u64 {
    if raw.perPage.Some? then raw.perPage.value else ConfigOr(config).defaultPerPage
  }

  function ExtractPage(raw: PageQuery, config: Option<PaginationConfig>): (r: Result<Paginate, PageError>)
    ensures r.Ok? <==> raw.page != Some(0) && 1 <= PerPageOf(raw, config) <= ConfigOr(config).maxPerPage
    ensures r.Ok? ==> r.value.page == (if raw.page.Some? then raw.page.value else 1) >= 1
    ensures r.Ok? ==> 1 <= r.value.perPage == PerPageOf(raw, config) <= ConfigOr(config).maxPerPage
  {
    var page: u64 := if raw.page.Some? then raw.page.value else 1;
    var perPage := PerPageOf(raw, config);
    if page < 1 then Err(PageZero)
    else if perPage < 1 then Err(PerPageZero)
    else if perPage > ConfigOr(config).maxPerPage then Err(PerPageTooLarge)
    else Ok(Paginate(page, perPage))
  }

  /** `u64::div_ceil`. */
  function DivCeil(a: nat, b: nat): nat
    requires b > 0
  {
    if a % b == 0 then a / b else a / b + 1
  }

  /** The offset of a page in 64-bit arithmetic. */
  function OffsetOf(p: Paginate): u64
    requires p.page >= 1
  {
    ((p.page - 1) * p.perPage) % U64
  }

  function Window(rows: seq<Row>, offset: nat, size: nat): seq<Row> {
    if offset >= |rows| then [] else First(rows[offset..], size)
  }

  datatype Paginated = Paginated(
    data: seq<Row>, page: u64, perPage: u64, total: nat, totalPages: nat, hasPrev: bool, hasNext: bool)

  /** Page and count are two queries; `rows` and `counted` are the states they see. */
  function Exec(p: Paginate, rows: seq<Row>, counted: seq<Row>): Paginated
    requires p.page >= 1
  {
    var total := |counted|;
    var totalPages := if p.perPage == 0 then 0 else DivCeil(total, p.perPage);
    Paginated(Window(rows, OffsetOf(p), p.perPage), p.page, p.perPage, total, totalPages,
              p.page > 1, p.page < totalPages)
  }

  // ---------------------------------------------------------------- one consistent result

  lemma MulMonotone(a: nat, b: nat, c: nat)
    requires a <= b
    ensures a * c <= b * c
  {
  }

  /** `k` pages are just enough. */
  lemma CeilBounds(n: nat, size: nat)
    requires size > 0
    ensures var k := DivCeil(n, size);
      n <= k * size && (n > 0 ==> k >= 1 && (k - 1) * size < n) && (n == 0 ==> k == 0)
  {
    var q, r := n / size, n % size;
    assert n == q * size + r;
    assert (q + 1) * size == q * size + size;
    if r == 0 && q > 0 {
      assert (q - 1) * size == q * size - size;
    }
  }

  /** The offset of every page up to the last lies within the result, so it never wraps. */
  lemma OffsetWithin(page: nat, size: nat, total: nat)
    requires size > 0 && 1 <= page <= DivCeil(total, size)
    ensures (page - 1) * size < total
  {
    CeilBounds(total, size);
    var k := DivCeil(total, size);
    MulMonotone(page - 1, k - 1, size);
  }

  /** A page of the result: `page - 1` full pages come before it, and it is full itself unless it
      is the last. There is a next page exactly when a later row exists. */
  lemma PageOfResult(p: Paginate, rows: seq<Row>)
    requires p.perPage >= 1 && |rows| < U64
    requires 1 <= p.page <= DivCeil(|rows|, p.perPage)
    ensures var r, at := Exec(p, rows, rows), (p.page - 1) * p.perPage;
      && at < |rows|
      && r.data == First(rows[at..], p.perPage) && r.data != []
      && (r.hasNext <==> at + |r.data| < |rows|)
      && (r.hasNext ==> |r.data| == p.perPage)
      && (r.hasPrev <==> at > 0)
  {
    var at := (p.page - 1) * p.perPage;
    PageArithmetic(p.page, p.perPage, |rows|);
    assert OffsetOf(p) == at;
    var data := Exec(p, rows, rows).data;
    assert data == First(rows[at..], p.perPage);
  }

  lemma PageArithmetic(page: nat, size: nat, total: nat)
    requires size > 0 && 1 <= page <= DivCeil(total, size)
    ensures var at := (page - 1) * size;
      && 0 <= at < total
      && (page < DivCeil(total, size) <==> at + size < total)
      && (page > 1 <==> at > 0)
  {
    var at := (page - 1) * size;
    OffsetWithin(page, size, total);
    assert page * size == at + size;
    if page < DivCeil(total, size) {
      OffsetWithin(page + 1, size, total);
    } else {
      CeilBounds(total, size);
    }
    if page > 1 {
      MulMonotone(1, page - 1, size);
    } else {
      assert 0 * size == 0;
    }
  }

  /** Pages one to `pages`, one after another. */
  function PagesUpTo(pages: nat, size: u64, rows: seq<Row>): seq<Row>
    requires pages < U64
  {
    if pages == 0 then []
    else PagesUpTo(pages - 1, size, rows) + Exec(Paginate(pages, size), rows, rows).data
  }

  lemma {:induction false} PagesJoin(pages: nat, size: u64, rows: seq<Row>)
    requires size >= 1 && |rows| < U64 && pages <= DivCeil(|rows|, size) && pages < U64
    ensures PagesUpTo(pages, size, rows) == First(rows, pages * size)
  {
    if pages > 0 {
      PagesJoin(pages - 1, size, rows);
      PageOfResult(Paginate(pages, size), rows);
      var at := (pages - 1) * size;
      assert pages * size == at + size;
      JoinFirst(rows, at, size);
    } else {
      assert 0 * size == 0;
    }
  }

  lemma JoinFirst(rows: seq<Row>, at: nat, size: nat)
    requires at <= |rows|
    ensures First(rows, at) + First(rows[at..], size) == First(rows, at + size)
  {
  }

  lemma CeilSmall(n: nat, size: nat)
    requires size > 0
    ensures DivCeil(n, size) <= n
  {
    CeilBounds(n, size);
    if n > 0 {
      var k := DivCeil(n, size);
      MulMonotone(1, size, k - 1);
      assert (k - 1) * 1 <= (k - 1) * size;
    }
  }

  /** PARTITION. Pages one to `total_pages` are the result, in order, nothing twice or missing. */
  lemma PagesPartition(size: u64, rows: seq<Row>)
    requires size >= 1 && |rows| < U64
    ensures var pages := Exec(Paginate(1, size), rows, rows).totalPages;
      pages < U64 && PagesUpTo(pages, size, rows) == rows
  {
    var pages := DivCeil(|rows|, size);
    CeilSmall(|rows|, size);
    PagesJoin(pages, size, rows);
    CeilBounds(|rows|, size);
  }

  /** Past the last page there is never a next page; the page itself is empty exactly when its
      offset, reduced to 64 bits, still lies beyond the result. */
  lemma BeyondTheEnd(p: Paginate, rows: seq<Row>)
    requires p.perPage >= 1 && |rows| < U64 && p.page > DivCeil(|rows|, p.perPage) && p.page >= 1
    ensures var r := Exec(p, rows, rows);
      !r.hasNext && (r.data == [] <==> ((p.page - 1) * p.perPage) % U64 >= |rows|)
    ensures (p.page - 1) * p.perPage < U64 ==> Exec(p, rows, rows).data == []
  {
    var at := (p.page - 1) * p.perPage;
    assert at >= |rows| by {
      var k := DivCeil(|rows|, p.perPage);
      CeilBounds(|rows|, p.perPage);
      MulMonotone(k, p.page - 1, p.perPage);
    }
    WindowEmpty(rows, at % U64, p.perPage);
  }

  /** A page past the end whose offset wraps around to nothing is the first page again. */
  lemma WrapsToFirst(p: Paginate, rows: seq<Row>)
    requires p.perPage >= 1 && p.page >= 1 && |rows| < U64 && ((p.page - 1) * p.perPage) % U64 == 0
    ensures Exec(p, rows, rows).data == Exec(Paginate(1, p.perPage), rows, rows).data == First(rows, p.perPage)
  {
    assert 0 * p.perPage == 0;
    assert rows[0..] == rows;
  }

  /** Such a page: number 2^63 + 1 with two rows a page. */
  lemma FarPageServesFirst(rows: seq<Row>)
    requires 0 < |rows| < U64
    ensures Exec(Paginate(0x8000_0000_0000_0001, 2), rows, rows).data == First(rows, 2) != []
  {
    WrapsToFirst(Paginate(0x8000_0000_0000_0001, 2), rows);
  }

  lemma WindowEmpty(rows: seq<Row>, offset: nat, size: nat)
    requires size > 0
    ensures Window(rows, offset, size) == [] <==> offset >= |rows|
  {
  }
}
