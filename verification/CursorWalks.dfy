/** Whole walks over cursor pages: on a fixed table, and on a table that changes meanwhile. */
module CursorWalks {
  import opened Wrappers
  import opened CursorPagination

  // ---------------------------------------------------------------- bounds on sorted tables

  lemma SortedTail(table: seq<Row>)
    requires Sorted(table) && table != []
    ensures Sorted(table[1..])
    ensures |table| > 1 ==> table[0].key < table[1..][0].key
  {
  }

  lemma {:induction false} AfterAbove(rows: seq<Row>, key: int)
    requires Sorted(rows) && (rows != [] ==> key < rows[0].key)
    ensures After(rows, Some(key)) == rows
  {
    if rows != [] {
      SortedTail(rows);
      AfterAbove(rows[1..], key);
      assert rows == [rows[0]] + rows[1..];
    }
  }

  lemma {:induction false} BeforeAbove(rows: seq<Row>, key: int)
    requires Sorted(rows) && (rows != [] ==> key <= rows[0].key)
    ensures Before(rows, Some(key)) == []
  {
    if rows != [] {
      SortedTail(rows);
      BeforeAbove(rows[1..], key);
    }
  }

  /** On a sorted table the rows after a key that splits it at `n` are the rows from `n` on. */
  lemma {:induction false} AfterSplit(table: seq<Row>, key: int, n: nat)
    requires Sorted(table) && n <= |table|
    requires n > 0 ==> table[n - 1].key <= key
    requires n < |table| ==> key < table[n].key
    ensures After(table, Some(key)) == table[n..]
  {
    if n == 0 {
      AfterAbove(table, key);
      assert table[0..] == table;
    } else {
      InOrder(table, 0, n - 1);
      SortedTail(table);
      assert table[1..][n - 1..] == table[n..];
      assert n < |table| ==> table[1..][n - 1] == table[n];
      AfterSplit(table[1..], key, n - 1);
      assert After(table, Some(key)) == After(table[1..], Some(key));
    }
  }

  lemma {:induction false} BeforeSplit(table: seq<Row>, key: int, n: nat)
    requires Sorted(table) && n <= |table|
    requires n > 0 ==> table[n - 1].key < key
    requires n < |table| ==> key <= table[n].key
    ensures Before(table, Some(key)) == table[..n]
  {
    if n == 0 {
      BeforeAbove(table, key);
    } else {
      InOrder(table, 0, n - 1);
      SortedTail(table);
      BeforeSplit(table[1..], key, n - 1);
      assert table[..n] == [table[0]] + table[1..][..n - 1];
    }
  }

  lemma {:induction false} SplitPoint(table: seq<Row>, key: int) returns (n: nat)
    requires Sorted(table)
    ensures n <= |table|
    ensures n > 0 ==> table[n - 1].key <= key
    ensures n < |table| ==> key < table[n].key
  {
    if table == [] || key < table[|table| - 1].key {
      if table == [] {
        n := 0;
      } else {
        n := SplitPoint(table[..|table| - 1], key);
      }
    } else {
      n := |table|;
    }
  }

  // ---------------------------------------------------------------- a fixed table

  /** The page of the grid that starts at row `at`. */
  function GridPage(table: seq<Row>, limit: nat, at: nat, codec: Codec): Page
    requires at <= |table|
  {
    var data := First(table[at..], limit);
    Page(data,
         if at + limit < |table| then LastToken(data, codec) else None,
         if at > 0 then HeadToken(data, codec) else None)
  }

  ghost predicate Usable(limit: u64, config: Option<PaginationConfig>, codec: Codec) {
    1 <= limit <= ConfigOr(config).maxPerPage && limit < U64 - 1 && Faithful(codec)
  }

  function TokenOf(key: Option<int>, codec: Codec): Option<string> {
    if key.Some? then Some(codec.encode(key.value)) else None
  }

  function AskAfter(token: Option<string>, limit: u64): CursorQuery {
    CursorQuery(token, None, Some(limit))
  }

  function AskBefore(token: Option<string>, limit: u64): CursorQuery {
    CursorQuery(None, token, Some(limit))
  }

  lemma ServeAfter(table: seq<Row>, after: Option<int>, limit: u64, config: Option<PaginationConfig>, codec: Codec)
    requires Usable(limit, config, codec)
    ensures Serve(AskAfter(TokenOf(after, codec), limit), config, codec, table)
         == Ok(PageOf(CursorPaginate(after, None, limit, Forward), table, codec))
  {
    if after.Some? {
      var key := after.value;
      assert codec.decode(codec.encode(key)) == Some(key);
    }
  }

  lemma ServeBefore(table: seq<Row>, before: int, limit: u64, config: Option<PaginationConfig>, codec: Codec)
    requires Usable(limit, config, codec)
    ensures Serve(AskBefore(TokenOf(Some(before), codec), limit), config, codec, table)
         == Ok(PageOf(CursorPaginate(None, Some(before), limit, Backward), table, codec))
  {
    assert codec.decode(codec.encode(before)) == Some(before);
  }

  /** A forward query that leaves the rows from `at` on gives the data and the next token of the
      grid page at `at`. */
  lemma ForwardData(table: seq<Row>, after: Option<int>, limit: u64, at: nat, codec: Codec)
    requires 1 <= limit < U64 - 1 && at <= |table| && After(table, after) == table[at..]
    ensures var page := PageOf(CursorPaginate(after, None, limit, Forward), table, codec);
      var grid := GridPage(table, limit, at, codec);
      && page.data == grid.data && page.nextCursor == grid.nextCursor
      && page.prevCursor == if after.Some? then HeadToken(grid.data, codec) else None
  {
    var rows := table[at..];
    NoBound(rows);
    if |rows| > limit {
      assert rows[..limit + 1][..limit] == rows[..limit];
    }
  }

  lemma GridTokens(table: seq<Row>, limit: nat, at: nat, codec: Codec)
    requires limit > 0 && at <= |table|
    ensures at + limit < |table| ==>
              GridPage(table, limit, at, codec).nextCursor == TokenOf(Some(table[at + limit - 1].key), codec)
    ensures 0 < at < |table| ==> GridPage(table, limit, at, codec).prevCursor == TokenOf(Some(table[at].key), codec)
  {
    var data := First(table[at..], limit);
    if at + limit < |table| {
      assert data[|data| - 1] == table[at + limit - 1];
    }
    if at < |table| {
      assert data[0] == table[at];
    }
  }

  lemma FirstPage(table: seq<Row>, limit: u64, config: Option<PaginationConfig>, codec: Codec)
    requires Usable(limit, config, codec)
    ensures Serve(AskAfter(None, limit), config, codec, table) == Ok(GridPage(table, limit, 0, codec))
  {
    ServeAfter(table, None, limit, config, codec);
    NoBound(table);
    assert table[0..] == table;
    ForwardData(table, None, limit, 0, codec);
  }

  /** Following the next token of the page at `at` gives the page one limit further. */
  lemma NextPage(table: seq<Row>, limit: u64, at: nat, config: Option<PaginationConfig>, codec: Codec)
    requires Usable(limit, config, codec) && Sorted(table) && at + limit < |table|
    ensures var token := GridPage(table, limit, at, codec).nextCursor;
      && token.Some?
      && Serve(AskAfter(token, limit), config, codec, table) == Ok(GridPage(table, limit, at + limit, codec))
  {
    var key := table[at + limit - 1].key;
    assert PageOf(CursorPaginate(Some(key), None, limit, Forward), table, codec)
        == GridPage(table, limit, at + limit, codec) by {
      AfterSplit(table, key, at + limit);
      ForwardData(table, Some(key), limit, at + limit, codec);
    }
    assert GridPage(table, limit, at, codec).nextCursor == TokenOf(Some(key), codec) by {
      GridTokens(table, limit, at, codec);
    }
    ServeAfter(table, Some(key), limit, config, codec);
  }

  /** A backward query that leaves the rows up to `at` gives the grid page before `at`. */
  lemma BackwardPage(table: seq<Row>, before: int, limit: u64, at: nat, codec: Codec)
    requires 1 <= limit < U64 - 1 && limit <= at < |table| && Before(table, Some(before)) == table[..at]
    ensures PageOf(CursorPaginate(None, Some(before), limit, Backward), table, codec)
         == GridPage(table, limit, at - limit, codec)
  {
    var c := CursorPaginate(None, Some(before), limit, Backward);
    assert Fetch(c, table) == Last(table[..at], limit + 1) by {
      NoBound(table);
    }
    LastRows(table, limit, at);
    BackwardShape(c, table, codec, First(table[at - limit..], limit), at > limit);
  }

  lemma BackwardShape(c: CursorPaginate, table: seq<Row>, codec: Codec, data: seq<Row>, more: bool)
    requires c.direction == Backward && c.before.Some?
    requires Trimmed(Fetch(c, table), c) == data && (|Fetch(c, table)| > c.limit <==> more)
    ensures PageOf(c, table, codec)
         == Page(data, LastToken(data, codec), if more then HeadToken(data, codec) else None)
  {
  }

  lemma FirstOfTail(table: seq<Row>, from: nat, n: nat)
    requires from + n <= |table|
    ensures First(table[from..], n) == table[from..from + n]
  {
  }

  lemma LastOfHead(table: seq<Row>, at: nat, n: nat)
    requires n <= at <= |table|
    ensures Last(table[..at], n) == table[at - n..at]
    ensures |table[..at]| == n ==> table[..at] == table[at - n..at]
  {
  }

  lemma LastRows(table: seq<Row>, limit: nat, at: nat)
    requires 1 <= limit <= at < |table|
    ensures var rows := Last(table[..at], limit + 1);
      && (|rows| > limit <==> at > limit)
      && (if |rows| <= limit then rows else rows[|rows| - limit..]) == First(table[at - limit..], limit)
  {
    var rows, want := Last(table[..at], limit + 1), table[at - limit..at];
    FirstOfTail(table, at - limit, limit);
    LastOfHead(table, at, limit);
    if at > limit {
      LastOfHead(table, at, limit + 1);
      assert table[at - limit - 1..at][1..] == want;
    }
  }

  /** Following the previous token of a page gives the forward page before it, tokens included. */
  lemma PrevPage(table: seq<Row>, limit: u64, at: nat, config: Option<PaginationConfig>, codec: Codec)
    requires Usable(limit, config, codec) && Sorted(table) && limit <= at < |table|
    ensures var token := GridPage(table, limit, at, codec).prevCursor;
      && token.Some?
      && Serve(AskBefore(token, limit), config, codec, table) == Ok(GridPage(table, limit, at - limit, codec))
  {
    var key := table[at].key;
    assert PageOf(CursorPaginate(None, Some(key), limit, Backward), table, codec)
        == GridPage(table, limit, at - limit, codec) by {
      BeforeSplit(table, key, at);
      BackwardPage(table, key, limit, at, codec);
    }
    assert GridPage(table, limit, at, codec).prevCursor == TokenOf(Some(key), codec) by {
      GridTokens(table, limit, at, codec);
    }
    ServeBefore(table, key, limit, config, codec);
  }

  datatype Move = Next | Prev

  function Accepted(r: Result<Page, RequestError>): Option<Page> {
    if r.Ok? then Some(r.value) else None
  }

  /** Follow one token; a move whose token is absent cannot be made. */
  function Step(page: Page, move: Move, limit: u64, config: Option<PaginationConfig>, codec: Codec,
                table: seq<Row>): Option<Page>
  {
    match move
    case Next =>
      if page.nextCursor.None? then None
      else Accepted(Serve(AskAfter(page.nextCursor, limit), config, codec, table))
    case Prev =>
      if page.prevCursor.None? then None
      else Accepted(Serve(AskBefore(page.prevCursor, limit), config, codec, table))
  }

  function Follow(page: Page, moves: seq<Move>, limit: u64, config: Option<PaginationConfig>, codec: Codec,
                  table: seq<Row>): Option<Page>
    decreases |moves|
  {
    if moves == [] then Some(page)
    else match Step(page, moves[0], limit, config, codec, table)
      case None => None
      case Some(p) => Follow(p, moves[1..], limit, config, codec, table)
  }

  /** The first rows of pages: the multiples of the limit. */
  predicate OnGrid(at: nat, limit: nat) {
    at == 0 || (0 < limit <= at && OnGrid(at - limit, limit))
  }

  /** Where one move leads on the grid. */
  function Neighbour(at: nat, move: Move, limit: nat, total: nat): Option<nat> {
    if move == Next then
      if at + limit < total then Some(at + limit) else None
    else
      if 0 < at && limit <= at then Some(at - limit) else None
  }

  /** The position the moves lead to, if they stay on the table. */
  function Position(at: nat, moves: seq<Move>, limit: nat, total: nat): Option<nat>
    decreases |moves|
  {
    if moves == [] then Some(at)
    else
      var to := Neighbour(at, moves[0], limit, total);
      if to.None? then None else Position(to.value, moves[1..], limit, total)
  }

  function PageAt(table: seq<Row>, limit: nat, at: Option<nat>, codec: Codec): Option<Page> {
    if at.Some? && at.value <= |table| then Some(GridPage(table, limit, at.value, codec)) else None
  }

  predicate IsPageStart(at: nat, limit: nat, total: nat) {
    OnGrid(at, limit) && (at == 0 || at < total)
  }

  lemma NeighbourStarts(at: nat, move: Move, limit: nat, total: nat)
    requires limit > 0 && IsPageStart(at, limit, total)
    ensures var to := Neighbour(at, move, limit, total);
      to.Some? ==> IsPageStart(to.value, limit, total)
  {
  }

  lemma StepNext(page: Page, limit: u64, config: Option<PaginationConfig>, codec: Codec, table: seq<Row>, p: Page)
    requires page.nextCursor.Some? && Serve(AskAfter(page.nextCursor, limit), config, codec, table) == Ok(p)
    ensures Step(page, Next, limit, config, codec, table) == Some(p)
  {
  }

  lemma StepPrev(page: Page, limit: u64, config: Option<PaginationConfig>, codec: Codec, table: seq<Row>, p: Page)
    requires page.prevCursor.Some? && Serve(AskBefore(page.prevCursor, limit), config, codec, table) == Ok(p)
    ensures Step(page, Prev, limit, config, codec, table) == Some(p)
  {
  }

  lemma NextMove(table: seq<Row>, limit: u64, at: nat, config: Option<PaginationConfig>, codec: Codec)
    requires Usable(limit, config, codec) && Sorted(table) && at + limit < |table|
    ensures Step(GridPage(table, limit, at, codec), Next, limit, config, codec, table)
         == Some(GridPage(table, limit, at + limit, codec)) == PageAt(table, limit, Some(at + limit), codec)
  {
    var from, to := GridPage(table, limit, at, codec), GridPage(table, limit, at + limit, codec);
    NextPage(table, limit, at, config, codec);
    StepNext(from, limit, config, codec, table, to);
    PageAtIs(table, limit, at + limit, codec);
  }

  lemma PageAtIs(table: seq<Row>, limit: nat, at: nat, codec: Codec)
    requires at <= |table|
    ensures PageAt(table, limit, Some(at), codec) == Some(GridPage(table, limit, at, codec))
  {
  }

  lemma PrevMove(table: seq<Row>, limit: u64, at: nat, config: Option<PaginationConfig>, codec: Codec)
    requires Usable(limit, config, codec) && Sorted(table) && limit <= at < |table|
    ensures Step(GridPage(table, limit, at, codec), Prev, limit, config, codec, table)
         == Some(GridPage(table, limit, at - limit, codec)) == PageAt(table, limit, Some(at - limit), codec)
  {
    var from, to := GridPage(table, limit, at, codec), GridPage(table, limit, at - limit, codec);
    PrevPage(table, limit, at, config, codec);
    StepPrev(from, limit, config, codec, table, to);
    PageAtIs(table, limit, at - limit, codec);
  }

  lemma NoMove(table: seq<Row>, limit: u64, at: nat, move: Move, config: Option<PaginationConfig>, codec: Codec)
    requires at <= |table| && if move == Next then at + limit >= |table| else at == 0
    ensures Step(GridPage(table, limit, at, codec), move, limit, config, codec, table)
         == None == PageAt(table, limit, None, codec)
  {
  }

  lemma NeighbourIs(at: nat, move: Move, limit: nat, total: nat)
    requires limit > 0 && IsPageStart(at, limit, total)
    ensures at <= total && (move == Prev && at > 0 ==> limit <= at < total)
    ensures Neighbour(at, move, limit, total)
         == if move == Next && at + limit < total then Some(at + limit)
            else if move == Prev && at > 0 then Some(at - limit)
            else None
  {
  }

  /** From a page of the grid, one move leads to the neighbouring page of the grid, or nowhere. */
  lemma StepOnGrid(table: seq<Row>, limit: u64, at: nat, move: Move, config: Option<PaginationConfig>, codec: Codec)
    requires Usable(limit, config, codec) && Sorted(table) && IsPageStart(at, limit, |table|)
    ensures Step(GridPage(table, limit, at, codec), move, limit, config, codec, table)
         == PageAt(table, limit, Neighbour(at, move, limit, |table|), codec)
  {
    NeighbourIs(at, move, limit, |table|);
    if move == Next && at + limit < |table| {
      NextMove(table, limit, at, config, codec);
    } else if move == Prev && at > 0 {
      PrevMove(table, limit, at, config, codec);
    } else {
      NoMove(table, limit, at, move, config, codec);
    }
  }

  /** WALKS ON A FIXED TABLE. Any mix of next and previous moves stays on the forward grid: it can
      be made exactly when it stays within the table, and the page reached is the forward page of
      that position in data and in both tokens. */
  lemma {:induction false} MovesStayOnGrid(table: seq<Row>, limit: u64, at: nat, moves: seq<Move>,
                                           config: Option<PaginationConfig>, codec: Codec)
    requires Usable(limit, config, codec) && Sorted(table) && IsPageStart(at, limit, |table|)
    ensures Follow(GridPage(table, limit, at, codec), moves, limit, config, codec, table)
         == PageAt(table, limit, Position(at, moves, limit, |table|), codec)
    decreases |moves|
  {
    if moves != [] {
      StepOnGrid(table, limit, at, moves[0], config, codec);
      var to := Neighbour(at, moves[0], limit, |table|);
      NeighbourStarts(at, moves[0], limit, |table|);
      if to.Some? {
        MovesStayOnGrid(table, limit, to.value, moves[1..], config, codec);
      }
    }
  }

  /** All pages of the forward walk that starts at row `at`. */
  function ForwardPages(table: seq<Row>, limit: nat, at: nat, codec: Codec): seq<Page>
    requires at <= |table| && limit > 0
    decreases |table| - at
  {
    var page := GridPage(table, limit, at, codec);
    if at + limit < |table| then [page] + ForwardPages(table, limit, at + limit, codec) else [page]
  }

  function Rows(pages: seq<Page>): seq<Row> {
    if pages == [] then [] else pages[0].data + Rows(pages[1..])
  }

  function PageCount(total: nat, limit: nat): nat
    requires limit > 0
  {
    if total <= limit then 1 else 1 + PageCount(total - limit, limit)
  }

  /** The page count is `max(1, ceil(total / limit))`. */
  lemma {:induction false} PageCountIs(total: nat, limit: nat)
    requires limit > 0
    ensures var k := PageCount(total, limit);
      && total <= k * limit
      && (total > 0 ==> (k - 1) * limit < total)
      && (total == 0 ==> k == 1)
  {
    if total > limit {
      PageCountIs(total - limit, limit);
      var k := PageCount(total - limit, limit);
      assert (k + 1) * limit == k * limit + limit;
      assert k * limit == (k - 1) * limit + limit;
    }
  }

  lemma GridData(table: seq<Row>, limit: nat, at: nat, codec: Codec)
    requires at <= |table|
    ensures GridPage(table, limit, at, codec).data
         == if at + limit < |table| then table[at..at + limit] else table[at..]
  {
  }

  function Chunks(table: seq<Row>, limit: nat, at: nat): seq<Row>
    requires limit > 0 && at <= |table|
    decreases |table| - at
  {
    if at + limit < |table| then table[at..at + limit] + Chunks(table, limit, at + limit) else table[at..]
  }

  lemma {:induction false} ChunksJoin(table: seq<Row>, limit: nat, at: nat)
    requires limit > 0 && at <= |table|
    ensures Chunks(table, limit, at) == table[at..]
    decreases |table| - at
  {
    if at + limit < |table| {
      ChunksJoin(table, limit, at + limit);
      JoinSlices(table, at, at + limit);
    }
  }

  lemma {:induction false} PagesAreChunks(table: seq<Row>, limit: nat, at: nat, codec: Codec)
    requires limit > 0 && at <= |table|
    ensures Rows(ForwardPages(table, limit, at, codec)) == Chunks(table, limit, at)
    decreases |table| - at
  {
    ForwardRows(table, limit, at, codec);
    if at + limit < |table| {
      PagesAreChunks(table, limit, at + limit, codec);
    }
  }

  lemma ForwardRows(table: seq<Row>, limit: nat, at: nat, codec: Codec)
    requires limit > 0 && at <= |table|
    ensures Rows(ForwardPages(table, limit, at, codec))
         == if at + limit < |table| then table[at..at + limit] + Rows(ForwardPages(table, limit, at + limit, codec))
            else table[at..]
  {
    var page := GridPage(table, limit, at, codec);
    GridData(table, limit, at, codec);
    RowsOne(page);
    if at + limit < |table| {
      RowsCons(page, ForwardPages(table, limit, at + limit, codec));
    }
  }

  lemma ForwardPagesRows(table: seq<Row>, limit: nat, at: nat, codec: Codec)
    requires limit > 0 && at <= |table|
    ensures Rows(ForwardPages(table, limit, at, codec)) == table[at..]
  {
    PagesAreChunks(table, limit, at, codec);
    ChunksJoin(table, limit, at);
  }

  lemma {:induction false} ForwardPagesCount(table: seq<Row>, limit: nat, at: nat, codec: Codec)
    requires limit > 0 && at <= |table|
    ensures |ForwardPages(table, limit, at, codec)| == PageCount(|table| - at, limit)
    decreases |table| - at
  {
    if at + limit < |table| {
      var left := |table| - (at + limit);
      ForwardPagesCount(table, limit, at + limit, codec);
      assert PageCount(left + limit, limit) == 1 + PageCount(left, limit);
    }
  }

  /** The pages a client gets from a page by making the same move until it cannot be made. */
  predicate Follows(next: Page -> Option<Page>, page: Page, pages: seq<Page>)
    decreases |pages|
  {
    pages != [] && pages[0] == page &&
    match next(page)
    case None => |pages| == 1
    case Some(p) => Follows(next, p, pages[1..])
  }

  /** Asking the server for the page behind the next token. */
  function NextFrom(limit: u64, config: Option<PaginationConfig>, codec: Codec, table: seq<Row>): Page -> Option<Page> {
    page => Step(page, Next, limit, config, codec, table)
  }

  /** The pages of a client that asks for the first page and follows next tokens to the end. */
  predicate ServedWalk(pages: seq<Page>, limit: u64, config: Option<PaginationConfig>, codec: Codec, table: seq<Row>) {
    match Serve(AskAfter(None, limit), config, codec, table)
    case Err(_) => false
    case Ok(first) => Follows(NextFrom(limit, config, codec, table), first, pages)
  }

  lemma NextOnGrid(table: seq<Row>, limit: u64, at: nat, config: Option<PaginationConfig>, codec: Codec)
    requires Usable(limit, config, codec) && Sorted(table) && IsPageStart(at, limit, |table|)
    ensures Step(GridPage(table, limit, at, codec), Next, limit, config, codec, table)
         == if at + limit < |table| then Some(GridPage(table, limit, at + limit, codec)) else None
    ensures at + limit < |table| ==> IsPageStart(at + limit, limit, |table|)
  {
    NeighbourStarts(at, Next, limit, |table|);
    if at + limit < |table| {
      NextMove(table, limit, at, config, codec);
    } else {
      NoMove(table, limit, at, Next, config, codec);
    }
  }

  lemma ConsIs(page: Page, pages: seq<Page>, rest: seq<Page>)
    requires pages != []
    ensures pages == [page] + rest <==> pages[0] == page && pages[1..] == rest
  {
    assert pages == [pages[0]] + pages[1..];
    assert ([page] + rest)[1..] == rest;
  }

  lemma ForwardPagesIs(table: seq<Row>, limit: nat, at: nat, codec: Codec)
    requires at <= |table| && limit > 0
    ensures ForwardPages(table, limit, at, codec)
         == if at + limit < |table|
            then [GridPage(table, limit, at, codec)] + ForwardPages(table, limit, at + limit, codec)
            else [GridPage(table, limit, at, codec)]
  {
  }

  /** The grid page behind the one at `at`, if there is one. */
  function GridNext(table: seq<Row>, limit: nat, at: nat, codec: Codec): Option<Page>
    requires at <= |table|
  {
    if at + limit < |table| then Some(GridPage(table, limit, at + limit, codec)) else None
  }

  /** Every page of the grid leads to the next one, and the last to none. */
  ghost predicate WalksGrid(next: Page -> Option<Page>, table: seq<Row>, limit: nat, codec: Codec) {
    forall at: nat :: IsPageStart(at, limit, |table|) ==>
      next(GridPage(table, limit, at, codec)) == GridNext(table, limit, at, codec)
  }

  lemma ServerWalksGrid(table: seq<Row>, limit: u64, config: Option<PaginationConfig>, codec: Codec)
    requires Usable(limit, config, codec) && Sorted(table)
    ensures WalksGrid(NextFrom(limit, config, codec, table), table, limit, codec)
  {
    forall at: nat | IsPageStart(at, limit, |table|)
      ensures NextFrom(limit, config, codec, table)(GridPage(table, limit, at, codec))
           == GridNext(table, limit, at, codec)
    {
      NextOnGrid(table, limit, at, config, codec);
    }
  }

  lemma {:induction false} FollowsIff(next: Page -> Option<Page>, table: seq<Row>, limit: nat, at: nat,
                                      pages: seq<Page>, codec: Codec)
    requires limit > 0 && IsPageStart(at, limit, |table|) && WalksGrid(next, table, limit, codec)
    ensures Follows(next, GridPage(table, limit, at, codec), pages) <==> pages == ForwardPages(table, limit, at, codec)
    decreases |pages|
  {
    var page := GridPage(table, limit, at, codec);
    ForwardPagesIs(table, limit, at, codec);
    assert next(page) == GridNext(table, limit, at, codec);
    if pages != [] {
      if at + limit < |table| {
        NeighbourStarts(at, Next, limit, |table|);
        FollowsIff(next, table, limit, at + limit, pages[1..], codec);
        ConsIs(page, pages, ForwardPages(table, limit, at + limit, codec));
      } else {
        assert |pages| == 1 ==> pages == [pages[0]];
      }
    }
  }

  /** THE FORWARD WALK. Asking for the first page and following next tokens to the end visits exactly
      the pages of the forward grid. */
  lemma ServedWalkIs(table: seq<Row>, limit: u64, pages: seq<Page>, config: Option<PaginationConfig>, codec: Codec)
    requires Usable(limit, config, codec) && Sorted(table)
    ensures ServedWalk(pages, limit, config, codec, table) <==> pages == ForwardPages(table, limit, 0, codec)
  {
    FirstPage(table, limit, config, codec);
    ServerWalksGrid(table, limit, config, codec);
    FollowsIff(NextFrom(limit, config, codec, table), table, limit, 0, pages, codec);
  }

  /** The served pages concatenate to the whole table, in order. */
  lemma ForwardWalkRows(table: seq<Row>, limit: u64, pages: seq<Page>, config: Option<PaginationConfig>, codec: Codec)
    requires Usable(limit, config, codec) && Sorted(table) && ServedWalk(pages, limit, config, codec, table)
    ensures Rows(pages) == table
  {
    ServedWalkIs(table, limit, pages, config, codec);
    ForwardPagesRows(table, limit, 0, codec);
    assert table[0..] == table;
  }

  /** There are `max(1, ceil(n / limit))` of them. */
  lemma ForwardWalkPages(table: seq<Row>, limit: u64, pages: seq<Page>, config: Option<PaginationConfig>, codec: Codec)
    requires Usable(limit, config, codec) && Sorted(table) && ServedWalk(pages, limit, config, codec, table)
    ensures |pages| == PageCount(|table|, limit)
  {
    ServedWalkIs(table, limit, pages, config, codec);
    ForwardPagesCount(table, limit, 0, codec);
  }

  lemma RowsCons(page: Page, rest: seq<Page>)
    ensures Rows([page] + rest) == page.data + Rows(rest)
  {
    assert ([page] + rest)[1..] == rest;
  }

  lemma RowsOne(page: Page)
    ensures Rows([page]) == page.data
  {
    assert [page][1..] == [];
    assert Rows([page]) == page.data + Rows([]);
  }

  lemma JoinSlices(table: seq<Row>, i: nat, j: nat)
    requires i <= j <= |table|
    ensures table[i..j] + table[j..] == table[i..]
  {
  }

  lemma LargestLimitFetchesNothing(table: seq<Row>, codec: Codec)
    ensures PageOf(CursorPaginate(None, None, U64 - 1, Forward), table, codec) == Page([], None, None)
  {
    assert Fetch(CursorPaginate(None, None, U64 - 1, Forward), table) == [];
  }

  /** In a build where `limit + 1` wraps, an accepted limit serves the first page exactly when it is not
      the largest limit of all; that one fetches no row of any table. */
  lemma FirstPageIff(table: seq<Row>, limit: u64, config: Option<PaginationConfig>, codec: Codec)
    requires 1 <= limit <= ConfigOr(config).maxPerPage && Faithful(codec)
    ensures Serve(AskAfter(None, limit), config, codec, table) == Ok(GridPage(table, limit, 0, codec))
       <==> limit < U64 - 1 || table == []
  {
    if limit < U64 - 1 {
      FirstPage(table, limit, config, codec);
    } else {
      LargestLimitFetchesNothing(table, codec);
      GridData(table, limit, 0, codec);
      assert Serve(AskAfter(None, limit), config, codec, table)
        == Ok(PageOf(CursorPaginate(None, None, limit, Forward), table, codec));
    }
  }

  // ---------------------------------------------------------------- a changing table

  predicate Above(key: int, bound: Option<int>) {
    bound.Some? ==> bound.value < key
  }

  predicate UpTo(key: int, bound: Option<int>) {
    bound.Some? ==> key <= bound.value
  }

  ghost predicate HasKey(rows: seq<Row>, key: int) {
    exists i :: 0 <= i < |rows| && rows[i].key == key
  }

  /** A forward page holds exactly the rows of its interval: above the token it was asked with, up
      to the token it gives out. */
  ghost predicate IsInterval(table: seq<Row>, part: seq<Row>, lo: Option<int>, hi: Option<int>) {
    && Sorted(part)
    && (forall i :: 0 <= i < |part| ==> part[i] in table)
    && (forall k :: HasKey(part, k) <==> HasKey(table, k) && Above(k, lo) && UpTo(k, hi))
  }

  lemma ForwardInterval(table: seq<Row>, after: Option<int>, limit: u64, codec: Codec) returns (next: Option<int>)
    requires Sorted(table) && 1 <= limit < U64 - 1
    ensures var page := PageOf(CursorPaginate(after, None, limit, Forward), table, codec);
      && |page.data| <= limit
      && page.nextCursor == TokenOf(next, codec)
      && (next.Some? ==> Above(next.value, after))
      && IsInterval(table, page.data, after, next)
  {
    var n := AfterSlice(table, after);
    ForwardData(table, after, limit, n, codec);
    next := GridInterval(table, after, limit, n, codec);
  }

  lemma GridInterval(table: seq<Row>, after: Option<int>, limit: u64, n: nat, codec: Codec) returns (next: Option<int>)
    requires Sorted(table) && limit >= 1 && n <= |table|
    requires forall i :: 0 <= i < |table| ==> (n <= i <==> Above(table[i].key, after))
    ensures var grid := GridPage(table, limit, n, codec);
      && |grid.data| <= limit
      && grid.nextCursor == TokenOf(next, codec)
      && (next.Some? ==> Above(next.value, after))
      && IsInterval(table, grid.data, after, next)
  {
    var end := if n + limit < |table| then n + limit else |table|;
    next := if end < |table| then Some(table[end - 1].key) else None;
    assert table[n..|table|] == table[n..];
    assert GridPage(table, limit, n, codec).nextCursor == TokenOf(next, codec) by {
      GridTokens(table, limit, n, codec);
    }
    assert GridPage(table, limit, n, codec).data == table[n..end] by {
      GridData(table, limit, n, codec);
    }
    Interval(table, n, end, after, next);
  }

  lemma AfterSlice(table: seq<Row>, after: Option<int>) returns (n: nat)
    requires Sorted(table)
    ensures n <= |table| && After(table, after) == table[n..]
    ensures forall i :: 0 <= i < |table| ==> (n <= i <==> Above(table[i].key, after))
  {
    if after.Some? {
      n := SplitPoint(table, after.value);
      AfterSplit(table, after.value, n);
      forall i | 0 <= i < |table| ensures n <= i <==> Above(table[i].key, after) {
        if i < n {
          InOrder(table, i, n - 1);
        } else {
          InOrder(table, n, i);
        }
      }
    } else {
      n := 0;
      NoBound(table);
      assert table[0..] == table;
    }
  }

  lemma InOrder(table: seq<Row>, i: nat, j: nat)
    requires Sorted(table) && i <= j < |table|
    ensures table[i].key <= table[j].key
  {
  }

  lemma Interval(table: seq<Row>, n: nat, end: nat, lo: Option<int>, hi: Option<int>)
    requires Sorted(table) && n <= end <= |table|
    requires forall i :: 0 <= i < |table| ==> (n <= i <==> Above(table[i].key, lo))
    requires if hi.Some? then n < end && table[end - 1].key == hi.value else end == |table|
    ensures IsInterval(table, table[n..end], lo, hi)
  {
    var part := table[n..end];
    forall i | 0 <= i < |table| ensures i < end <==> UpTo(table[i].key, hi) {
      if hi.Some? {
        if i < end {
          InOrder(table, i, end - 1);
        } else {
          assert table[end - 1].key < table[i].key;
        }
      }
    }
    forall k ensures HasKey(part, k) <==> HasKey(table, k) && Above(k, lo) && UpTo(k, hi) {
      if HasKey(part, k) {
        var i :| 0 <= i < |part| && part[i].key == k;
        assert table[n + i].key == k;
      }
      if HasKey(table, k) && Above(k, lo) && UpTo(k, hi) {
        var i :| 0 <= i < |table| && table[i].key == k;
        assert part[i - n].key == k;
      }
    }
  }

  /** The rows a client collects by following next tokens, one request per state of the table. */
  function Collect(after: Option<string>, states: seq<seq<Row>>, limit: u64, config: Option<PaginationConfig>,
                   codec: Codec): seq<Row>
    decreases |states|
  {
    if states == [] then []
    else match Serve(AskAfter(after, limit), config, codec, states[0])
      case Err(_) => []
      case Ok(page) =>
        page.data + if page.nextCursor.None? then [] else Collect(page.nextCursor, states[1..], limit, config, codec)
  }

  /** The walk reaches a page without a next token. */
  predicate Finishes(after: Option<string>, states: seq<seq<Row>>, limit: u64, config: Option<PaginationConfig>,
                     codec: Codec)
    decreases |states|
  {
    states != [] &&
    match Serve(AskAfter(after, limit), config, codec, states[0])
    case Err(_) => false
    case Ok(page) => page.nextCursor.None? || Finishes(page.nextCursor, states[1..], limit, config, codec)
  }

  ghost predicate AllSorted(states: seq<seq<Row>>) {
    forall i :: 0 <= i < |states| ==> Sorted(states[i])
  }

  lemma SortedConcat(a: seq<Row>, b: seq<Row>, bound: int)
    requires Sorted(a) && Sorted(b)
    requires forall i :: 0 <= i < |a| ==> a[i].key <= bound
    requires forall i :: 0 <= i < |b| ==> bound < b[i].key
    ensures Sorted(a + b)
  {
  }

  lemma IntervalBounds(table: seq<Row>, part: seq<Row>, lo: Option<int>, hi: Option<int>)
    requires IsInterval(table, part, lo, hi)
    ensures forall i :: 0 <= i < |part| ==> Above(part[i].key, lo) && UpTo(part[i].key, hi)
  {
    forall i | 0 <= i < |part| ensures Above(part[i].key, lo) && UpTo(part[i].key, hi) {
      assert HasKey(part, part[i].key);
    }
  }

  /** One request of a walk: the interval it collects, and how the walk goes on. */
  lemma CollectStep(after: Option<int>, states: seq<seq<Row>>, limit: u64, config: Option<PaginationConfig>,
                    codec: Codec)
    returns (data: seq<Row>, next: Option<int>)
    requires Usable(limit, config, codec) && states != [] && Sorted(states[0])
    ensures IsInterval(states[0], data, after, next) && (next.Some? ==> Above(next.value, after))
    ensures Collect(TokenOf(after, codec), states, limit, config, codec)
         == data + if next.None? then [] else Collect(TokenOf(next, codec), states[1..], limit, config, codec)
    ensures Finishes(TokenOf(after, codec), states, limit, config, codec)
       <==> next.None? || Finishes(TokenOf(next, codec), states[1..], limit, config, codec)
  {
    ServeAfter(states[0], after, limit, config, codec);
    next := ForwardInterval(states[0], after, limit, codec);
    data := PageOf(CursorPaginate(after, None, limit, Forward), states[0], codec).data;
  }

  /** NO ROW TWICE. Whatever is inserted and deleted between requests, the collected keys strictly
      increase. */
  lemma {:induction false} CollectedIncrease(after: Option<int>, states: seq<seq<Row>>, limit: u64,
                                             config: Option<PaginationConfig>, codec: Codec)
    requires Usable(limit, config, codec) && AllSorted(states)
    ensures var rows := Collect(TokenOf(after, codec), states, limit, config, codec);
      Sorted(rows) && AllAbove(rows, after)
    decreases |states|
  {
    if states != [] {
      assert Sorted(states[0]) && AllSorted(states[1..]);
      var data, next := CollectStep(after, states, limit, config, codec);
      IntervalBounds(states[0], data, after, next);
      if next.Some? {
        CollectedIncrease(next, states[1..], limit, config, codec);
        IncreaseStep(data, Collect(TokenOf(next, codec), states[1..], limit, config, codec), after, next.value);
      } else {
        assert data + [] == data;
      }
    }
  }

  predicate AllAbove(rows: seq<Row>, bound: Option<int>) {
    forall i :: 0 <= i < |rows| ==> Above(rows[i].key, bound)
  }

  lemma IncreaseStep(data: seq<Row>, rest: seq<Row>, after: Option<int>, next: int)
    requires Sorted(data) && AllAbove(data, after) && forall i :: 0 <= i < |data| ==> UpTo(data[i].key, Some(next))
    requires Sorted(rest) && AllAbove(rest, Some(next)) && Above(next, after)
    ensures Sorted(data + rest) && AllAbove(data + rest, after)
  {
    SortedConcat(data, rest, next);
    forall i | 0 <= i < |rest| ensures Above(rest[i].key, after) {
      assert Above(rest[i].key, Some(next));
    }
  }

  lemma KeyOfConcat(a: seq<Row>, b: seq<Row>, key: int)
    ensures HasKey(a + b, key) <==> HasKey(a, key) || HasKey(b, key)
  {
    if HasKey(a, key) {
      var i :| 0 <= i < |a| && a[i].key == key;
      assert (a + b)[i].key == key;
    }
    if HasKey(b, key) {
      var i :| 0 <= i < |b| && b[i].key == key;
      assert (a + b)[|a| + i].key == key;
    }
  }

  /** NO ROW MISSED. A walk that finishes returns every key that every state holds. */
  lemma {:induction false} CollectedComplete(after: Option<int>, states: seq<seq<Row>>, limit: u64,
                                             config: Option<PaginationConfig>, codec: Codec, key: int)
    requires Usable(limit, config, codec) && AllSorted(states)
    requires Finishes(TokenOf(after, codec), states, limit, config, codec)
    requires Above(key, after) && forall i :: 0 <= i < |states| ==> HasKey(states[i], key)
    ensures HasKey(Collect(TokenOf(after, codec), states, limit, config, codec), key)
    decreases |states|
  {
    assert Sorted(states[0]) && AllSorted(states[1..]) && HasKey(states[0], key);
    var data, next := CollectStep(after, states, limit, config, codec);
    var rest := if next.None? then [] else Collect(TokenOf(next, codec), states[1..], limit, config, codec);
    KeyOfConcat(data, rest, key);
    if UpTo(key, next) {
      assert HasKey(data, key);
    } else {
      CollectedComplete(next, states[1..], limit, config, codec, key);
    }
  }
}
