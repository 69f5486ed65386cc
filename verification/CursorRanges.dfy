/** What a cursor query serves between any two bounds, from either end: a handler can change the bounds
    of an accepted request, so both may be set. */
module CursorRanges {
  import opened Wrappers
  import opened CursorPagination
  import opened CursorWalks

  predicate Below(key: int, bound: Option<int>) {
    bound.Some? ==> key < bound.value
  }

  lemma BeforeSlice(table: seq<Row>, before: Option<int>) returns (n: nat)
    requires Sorted(table)
    ensures n <= |table| && Before(table, before) == table[..n]
    ensures forall i :: 0 <= i < |table| ==> (i < n <==> Below(table[i].key, before))
  {
    if before.Some? {
      n := SplitPoint(table, before.value - 1);
      BeforeSplit(table, before.value, n);
      forall i | 0 <= i < |table| ensures i < n <==> Below(table[i].key, before) {
        if i < n {
          InOrder(table, i, n - 1);
        } else {
          InOrder(table, n, i);
        }
      }
    } else {
      n := |table|;
      NoBound(table);
      assert table[..n] == table;
    }
  }

  /** The rows between two bounds lie side by side. */
  lemma BetweenSlice(table: seq<Row>, after: Option<int>, before: Option<int>) returns (lo: nat, hi: nat)
    requires Sorted(table)
    ensures lo <= hi <= |table| && Before(After(table, after), before) == table[lo..hi]
    ensures forall i :: 0 <= i < |table| ==>
              (lo <= i < hi <==> Above(table[i].key, after) && Below(table[i].key, before))
  {
    lo := AfterSlice(table, after);
    var rows := table[lo..];
    assert Sorted(rows);
    var n := BeforeSlice(rows, before);
    hi := lo + n;
    assert rows[..n] == table[lo..hi];
    forall i | 0 <= i < |table|
      ensures lo <= i < hi <==> Above(table[i].key, after) && Below(table[i].key, before)
    {
      if lo <= i {
        assert rows[i - lo] == table[i];
      }
    }
  }

  /** The part of the rows `lo` to `hi` that a page holds: the first ones, or backward the last ones. */
  function Part(c: CursorPaginate, lo: nat, hi: nat): (nat, nat)
    requires lo <= hi
  {
    if hi - lo <= c.limit then (lo, hi)
    else match c.direction
      case Forward => (lo, lo + c.limit)
      case Backward => (hi - c.limit, hi)
  }

  /** The first rows of a range, or backward the last ones. */
  function Kept(c: CursorPaginate, rows: seq<Row>): seq<Row> {
    if |rows| <= c.limit then rows
    else if c.direction == Forward then rows[..c.limit] else rows[|rows| - c.limit..]
  }

  /** One row more than asked for, cut off again. */
  lemma CutBack(c: CursorPaginate, table: seq<Row>, rows: seq<Row>)
    requires Before(After(table, c.after), c.before) == rows && 1 <= c.limit < U64 - 1
    ensures Trimmed(Fetch(c, table), c) == Kept(c, rows) && (|Fetch(c, table)| > c.limit <==> |rows| > c.limit)
  {
    var n := c.limit + 1;
    if |rows| > n {
      assert rows[..n][..c.limit] == rows[..c.limit];
      assert rows[|rows| - n..][1..] == rows[|rows| - c.limit..];
    }
  }

  lemma PartIs(c: CursorPaginate, table: seq<Row>, rows: seq<Row>, lo: nat, hi: nat)
    requires lo <= hi <= |table| && rows == table[lo..hi]
    ensures var (from, to) := Part(c, lo, hi);
      && lo <= from <= to <= hi
      && (to - from < hi - lo <==> |rows| > c.limit)
      && table[from..to] == Kept(c, rows)
  {
    if hi - lo > c.limit {
      assert rows[..c.limit] == table[lo..lo + c.limit];
      assert rows[|rows| - c.limit..] == table[hi - c.limit..hi];
    }
  }

  /** That part, with a token at the far end when rows remain there, and at the near end when it is bounded. */
  function RangePage(c: CursorPaginate, table: seq<Row>, codec: Codec, lo: nat, hi: nat): Page
    requires lo <= hi <= |table| && 1 <= c.limit
  {
    var (from, to) := Part(c, lo, hi);
    if from == to then Page([], None, None)
    else
      var toNext := if c.direction == Forward then to < hi else c.before.Some?;
      var toPrev := if c.direction == Forward then c.after.Some? else lo < from;
      Page(table[from..to],
           if toNext then Some(codec.encode(table[to - 1].key)) else None,
           if toPrev then Some(codec.encode(table[from].key)) else None)
  }

  lemma PageShape(c: CursorPaginate, table: seq<Row>, codec: Codec, data: seq<Row>, more: bool)
    requires Trimmed(Fetch(c, table), c) == data && (|Fetch(c, table)| > c.limit <==> more)
    ensures PageOf(c, table, codec)
         == Page(data,
                 if (if c.direction == Forward then more else c.before.Some?) then LastToken(data, codec) else None,
                 if (if c.direction == Forward then c.after.Some? else more) then HeadToken(data, codec) else None)
  {
  }

  lemma RangeTokens(c: CursorPaginate, table: seq<Row>, codec: Codec, lo: nat, hi: nat, data: seq<Row>, more: bool)
    requires lo <= hi <= |table| && 1 <= c.limit
    requires var (from, to) := Part(c, lo, hi); data == table[from..to] && (more <==> to - from < hi - lo)
    ensures RangePage(c, table, codec, lo, hi)
         == Page(data,
                 if (if c.direction == Forward then more else c.before.Some?) then LastToken(data, codec) else None,
                 if (if c.direction == Forward then c.after.Some? else more) then HeadToken(data, codec) else None)
  {
  }

  lemma RangeIs(c: CursorPaginate, table: seq<Row>, rows: seq<Row>, codec: Codec, lo: nat, hi: nat)
    requires lo <= hi <= |table| && rows == table[lo..hi] && 1 <= c.limit < U64 - 1
    requires Before(After(table, c.after), c.before) == rows
    ensures PageOf(c, table, codec) == RangePage(c, table, codec, lo, hi)
  {
    var data, more := Kept(c, rows), |rows| > c.limit;
    assert Trimmed(Fetch(c, table), c) == data && (|Fetch(c, table)| > c.limit <==> more) by {
      CutBack(c, table, rows);
    }
    PageShape(c, table, codec, data, more);
    assert var (from, to) := Part(c, lo, hi); data == table[from..to] && (more <==> to - from < hi - lo) by {
      PartIs(c, table, rows, lo, hi);
    }
    RangeTokens(c, table, codec, lo, hi, data, more);
  }

  /** ANY RANGE. A page holds the first rows strictly between its bounds, or backward the last ones, at
      most `limit`, with their tokens; an empty page has none. */
  lemma RangeServed(c: CursorPaginate, table: seq<Row>, codec: Codec) returns (lo: nat, hi: nat)
    requires Sorted(table) && 1 <= c.limit < U64 - 1
    ensures lo <= hi <= |table|
    ensures forall i :: 0 <= i < |table| ==>
              (lo <= i < hi <==> Above(table[i].key, c.after) && Below(table[i].key, c.before))
    ensures PageOf(c, table, codec) == RangePage(c, table, codec, lo, hi)
  {
    lo, hi := BetweenSlice(table, c.after, c.before);
    RangeIs(c, table, table[lo..hi], codec, lo, hi);
  }
}
