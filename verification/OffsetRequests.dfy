/** Offset pagination from the request to the answer. */
module OffsetRequests {
  import opened Wrappers
  import opened CursorPagination
  import opened OffsetPagination

  /** One request, when page and count see the same rows. */
  function ServePage(raw: PageQuery, config: Option<PaginationConfig>, rows: seq<Row>): Result<Paginated, PageError> {
    match ExtractPage(raw, config)
    case Ok(p) => Ok(Exec(p, rows, rows))
    case Err(e) => Err(e)
  }

  /** The largest page size: the configured one, or 100. */
  function Largest(config: Option<PaginationConfig>): u64 {
    match config
    case Some(c) => c.maxPerPage
    case None => 100
  }

  /** The page size of a request that gives none: the configured one, or 20. */
  function Usual(config: Option<PaginationConfig>): u64 {
    match config
    case Some(c) => c.defaultPerPage
    case None => 20
  }

  /** A request without a page asks for the first one, a request without a size for the usual size. */
  lemma Defaults(raw: PageQuery, config: Option<PaginationConfig>, rows: seq<Row>)
    ensures ServePage(raw, config, rows)
         == ServePage(PageQuery(Some(if raw.page.Some? then raw.page.value else 1),
                                Some(if raw.perPage.Some? then raw.perPage.value else Usual(config))), config, rows)
  {
  }

  /** What is wrong with a refused request: the page first, then the size. */
  lemma RefusedIff(page: u64, size: u64, config: Option<PaginationConfig>, rows: seq<Row>)
    ensures var r := ServePage(PageQuery(Some(page), Some(size)), config, rows);
      && (r == Err(PageZero) <==> page == 0)
      && (r == Err(PerPageZero) <==> page > 0 && size == 0)
      && (r == Err(PerPageTooLarge) <==> page > 0 && size > 0 && size > Largest(config))
      && (r.Ok? <==> page > 0 && 0 < size <= Largest(config))
  {
  }

  /** `pages` pages of `size` rows are just enough for `total` rows. */
  predicate JustEnough(pages: nat, size: nat, total: nat) {
    total <= pages * size && (pages > 0 ==> (pages - 1) * size < total)
  }

  lemma {:induction false} JustEnoughIs(pages: nat, size: nat, total: nat)
    requires size > 0
    ensures JustEnough(DivCeil(total, size), size, total)
    ensures JustEnough(pages, size, total) ==> pages == DivCeil(total, size)
  {
    var k := DivCeil(total, size);
    CeilBounds(total, size);
    if JustEnough(pages, size, total) {
      if pages < k {
        MulMonotone(pages, k - 1, size);
      } else if pages > k {
        MulMonotone(k, pages - 1, size);
      }
    }
  }

  /** PAGES BY REQUEST. A request for page `page` with `size` rows a page, as long as a row of that page
      exists, is answered with the rows from `(page - 1) * size` on, at most `size` of them, and with
      the numbers that belong to it. */
  lemma PageServed(page: u64, size: u64, config: Option<PaginationConfig>, rows: seq<Row>)
    requires 1 <= page && 1 <= size <= Largest(config) && |rows| < U64
    requires (page - 1) * size < |rows|
    ensures var at, end := (page - 1) * size, if page * size < |rows| then page * size else |rows|;
      0 <= at <= end &&
      exists pages ::
        && JustEnough(pages, size, |rows|)
        && ServePage(PageQuery(Some(page), Some(size)), config, rows)
           == Ok(Paginated(rows[at..end], page, size, |rows|, pages, page > 1, end < |rows|))
  {
    var at, pages := (page - 1) * size, DivCeil(|rows|, size);
    assert page * size == at + size;
    JustEnoughIs(pages, size, |rows|);
    if pages < page {
      MulMonotone(pages, page - 1, size);
    }
    PageOfResult(Paginate(page, size), rows);
    PageArithmetic(page, size, |rows|);
    if page * size < |rows| {
      assert rows[at..][..size] == rows[at..page * size];
    } else {
      assert rows[at..] == rows[at..|rows|];
    }
  }

  /** The rows of the requests one to `pages`, one after another. */
  function Served(pages: nat, size: u64, config: Option<PaginationConfig>, rows: seq<Row>): seq<Row>
    requires pages < U64
  {
    if pages == 0 then []
    else
      Served(pages - 1, size, config, rows)
      + match ServePage(PageQuery(Some(pages), Some(size)), config, rows)
        case Ok(p) => p.data
        case Err(_) => []
  }

  lemma {:induction false} ServedIs(pages: nat, size: u64, config: Option<PaginationConfig>, rows: seq<Row>)
    requires 1 <= size <= Largest(config) && pages < U64
    ensures Served(pages, size, config, rows) == PagesUpTo(pages, size, rows)
  {
    if pages > 0 {
      ServedIs(pages - 1, size, config, rows);
      RefusedIff(pages, size, config, rows);
    }
  }

  /** PARTITION BY REQUEST. The requests for page one to the number of pages the first answer gives
      return the whole result, in order, nothing twice or missing. */
  lemma RequestsPartition(size: u64, config: Option<PaginationConfig>, rows: seq<Row>)
    requires 1 <= size <= Largest(config) && |rows| < U64
    ensures var first := ServePage(PageQuery(Some(1), Some(size)), config, rows);
      first.Ok? && first.value.totalPages < U64
      && Served(first.value.totalPages, size, config, rows) == rows
  {
    PagesPartition(size, rows);
    ServedIs(DivCeil(|rows|, size), size, config, rows);
  }
}
