/** Cursor pagination (rapina/src/pagination.rs): the extractor and `exec_by`. */
module CursorPagination {
  import opened Wrappers

  type u64 = x: nat | x < U64

  /** `x + 1` where the overflow check is off. */
  function WrappingSucc(x: u64): u64 {
    if x == U64 - 1 then 0 else x + 1
  }

  const DEFAULT_PER_PAGE: u64 := 20
  const DEFAULT_MAX_PER_PAGE: u64 := 100

  // ---------------------------------------------------------------- tables

  datatype Row = Row(key: int, data: string)

  /** A table is seen through its cursor column: rows in strictly increasing key order. */
  predicate Sorted(table: seq<Row>) {
    forall i, j :: 0 <= i < j < |table| ==> table[i].key < table[j].key
  }

  function After(rows: seq<Row>, bound: Option<int>): seq<Row> {
    if rows == [] then []
    else (if bound.Some? && rows[0].key <= bound.value then [] else [rows[0]]) + After(rows[1..], bound)
  }

  function Before(rows: seq<Row>, bound: Option<int>): seq<Row> {
    if rows == [] then []
    else (if bound.Some? && rows[0].key >= bound.value then [] else [rows[0]]) + Before(rows[1..], bound)
  }

  function First(rows: seq<Row>, n: nat): seq<Row> {
    if |rows| <= n then rows else rows[..n]
  }

  function Last(rows: seq<Row>, n: nat): seq<Row> {
    if |rows| <= n then rows else rows[|rows| - n..]
  }

  // ---------------------------------------------------------------- requests

  datatype PaginationConfig = PaginationConfig(defaultPerPage: u64, maxPerPage: u64)

  function ConfigOr(config: Option<PaginationConfig>): PaginationConfig {
    if config.Some? then config.value else PaginationConfig(DEFAULT_PER_PAGE, DEFAULT_MAX_PER_PAGE)
  }

  /** The opaque tokens: an encoding of keys and its partial inverse. */
  datatype Codec = Codec(encode: int -> string, decode: string -> Option<int>)

  ghost predicate Faithful(codec: Codec) {
    forall k :: codec.decode(codec.encode(k)) == Some(k)
  }

  datatype CursorQuery = CursorQuery(after: Option<string>, before: Option<string>, limit: Option<u64>)

  datatype Direction = Forward | Backward

  datatype CursorPaginate = CursorPaginate(after: Option<int>, before: Option<int>, limit: u64, direction: Direction)

  datatype RequestError = BothCursors | LimitZero | LimitTooLarge | InvalidCursor

  function LimitOf(raw: CursorQuery, config: Option<PaginationConfig>): u64 {
    if raw.limit.Some? then raw.limit.value else ConfigOr(config).defaultPerPage
  }

  function DecodeWith(token: Option<string>, codec: Codec): Option<int> {
    if token.Some? then codec.decode(token.value) else None
  }

  /** A request is accepted exactly when it gives at most one token, that token decodes, and the
      limit is between one and the configured maximum. */
  function Extract(raw: CursorQuery, config: Option<PaginationConfig>, codec: Codec)
    : (r: Result<CursorPaginate, RequestError>)
    ensures r.Ok? <==>
      && (raw.after.None? || raw.before.None?)
      && 1 <= LimitOf(raw, config) <= ConfigOr(config).maxPerPage
      && (raw.after.Some? ==> DecodeWith(raw.after, codec).Some?)
      && (raw.before.Some? ==> DecodeWith(raw.before, codec).Some?)
    ensures r.Ok? ==> r.value.after.None? || r.value.before.None?
    ensures r.Ok? ==> (r.value.direction == Backward <==> r.value.before.Some?)
  {
    if raw.after.Some? && raw.before.Some? then Err(BothCursors)
    else if LimitOf(raw, config) == 0 then Err(LimitZero)
    else if LimitOf(raw, config) > ConfigOr(config).maxPerPage then Err(LimitTooLarge)
    else
      var after, before := DecodeWith(raw.after, codec), DecodeWith(raw.before, codec);
      if (raw.after.Some? && after.None?) || (raw.before.Some? && before.None?) then Err(InvalidCursor)
      else Ok(CursorPaginate(after, before, LimitOf(raw, config), if before.Some? then Backward else Forward))
  }

  // ---------------------------------------------------------------- one page

  datatype Page = Page(data: seq<Row>, nextCursor: Option<string>, prevCursor: Option<string>)

  /** The rows of the query, one more than the page needs. */
  function Fetch(c: CursorPaginate, table: seq<Row>): seq<Row> {
    var rows := Before(After(table, c.after), c.before);
    if c.direction == Forward then First(rows, WrappingSucc(c.limit)) else Last(rows, WrappingSucc(c.limit))
  }

  /** The page without the overflow row, which lies at the end away from the cursor. */
  function Trimmed(rows: seq<Row>, c: CursorPaginate): seq<Row> {
    if |rows| <= c.limit then rows
    else if c.direction == Forward then rows[..c.limit]
    else rows[|rows| - c.limit..]
  }

  function HeadToken(rows: seq<Row>, codec: Codec): Option<string> {
    if rows == [] then None else Some(codec.encode(rows[0].key))
  }

  function LastToken(rows: seq<Row>, codec: Codec): Option<string> {
    if rows == [] then None else Some(codec.encode(rows[|rows| - 1].key))
  }

  function PageOf(c: CursorPaginate, table: seq<Row>, codec: Codec): Page {
    var rows := Fetch(c, table);
    var data, more := Trimmed(rows, c), |rows| > c.limit;
    if c.direction == Forward then
      Page(data,
           if more then LastToken(data, codec) else None,
           if c.after.Some? then HeadToken(data, codec) else None)
    else
      Page(data,
           if c.before.Some? then LastToken(data, codec) else None,
           if more then HeadToken(data, codec) else None)
  }

  method RunQuery(c: CursorPaginate, table: seq<Row>) returns (rows: seq<Row>)
    ensures rows == Fetch(c, table)
  {
    var cursor := table;
    NoBound(table);
    if c.after.Some? {
      cursor := After(cursor, c.after);
    }
    NoBound(cursor);
    if c.before.Some? {
      cursor := Before(cursor, c.before);
    }
    var take := WrappingSucc(c.limit);
    match c.direction {
      case Forward => rows := First(cursor, take);
      case Backward => rows := Last(cursor, take);
    }
  }

  method ExecBy(c: CursorPaginate, table: seq<Row>, codec: Codec) returns (page: Page)
    ensures page == PageOf(c, table, codec)
  {
    var data := RunQuery(c, table);
    var hasMore := |data| > c.limit;
    if hasMore {
      match c.direction {
        case Forward => data := data[..c.limit];
        case Backward => data := data[|data| - c.limit..];
      }
    }
    var next, prev := None, None;
    match c.direction {
      case Forward =>
        if hasMore { next := LastToken(data, codec); }
        if c.after.Some? { prev := HeadToken(data, codec); }
      case Backward =>
        if c.before.Some? { next := LastToken(data, codec); }
        if hasMore { prev := HeadToken(data, codec); }
    }
    page := Page(data, next, prev);
  }

  lemma {:induction false} NoBound(rows: seq<Row>)
    ensures After(rows, None) == rows && Before(rows, None) == rows
  {
    if rows != [] {
      NoBound(rows[1..]);
      assert rows == [rows[0]] + rows[1..];
    }
  }

  /** One request against one state of the table. */
  function Serve(raw: CursorQuery, config: Option<PaginationConfig>, codec: Codec, table: seq<Row>)
    : Result<Page, RequestError>
  {
    match Extract(raw, config, codec)
    case Ok(c) => Ok(PageOf(c, table, codec))
    case Err(e) => Err(e)
  }

  /** A request without a limit asks for the configured default, or for 20 rows. */
  lemma DefaultLimit(raw: CursorQuery, config: Option<PaginationConfig>, codec: Codec, table: seq<Row>)
    requires raw.limit.None?
    ensures var usual := match config { case Some(c) => c.defaultPerPage case None => 20 };
      Serve(raw, config, codec, table) == Serve(raw.(limit := Some(usual)), config, codec, table)
  {
  }

  /** What is wrong with a refused request: both cursors, then the limit, then the cursor. */
  lemma RefusedIff(raw: CursorQuery, limit: u64, config: Option<PaginationConfig>, codec: Codec, table: seq<Row>)
    requires raw.limit == Some(limit)
    ensures var r, both := Serve(raw, config, codec, table), raw.after.Some? && raw.before.Some?;
      var largest := match config { case Some(c) => c.maxPerPage case None => 100 };
      && (r == Err(BothCursors) <==> both)
      && (r == Err(LimitZero) <==> !both && limit == 0)
      && (r == Err(LimitTooLarge) <==> !both && limit > 0 && limit > largest)
      && (r == Err(InvalidCursor) <==>
            !both && 0 < limit <= largest
            && ((raw.after.Some? && codec.decode(raw.after.value) == None)
                || (raw.before.Some? && codec.decode(raw.before.value) == None)))
  {
  }
}
