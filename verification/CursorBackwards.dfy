/** Walks by previous tokens over a table that changes meanwhile: the mirror image of the walks by
    next tokens over the mirrored table. */
module CursorBackwards {
  import opened Wrappers
  import opened Text
  import opened CursorPagination
  import opened CursorWalks

  // ---------------------------------------------------------------- the mirror

  function Flip(r: Row): Row {
    Row(-r.key, r.data)
  }

  /** The rows in the opposite order, with opposite keys. */
  function Mirror(rows: seq<Row>): (m: seq<Row>)
    ensures |m| == |rows|
    ensures forall i :: 0 <= i < |m| ==> m[i] == Flip(rows[|rows| - 1 - i])
  {
    seq(|rows|, i requires 0 <= i < |rows| => Flip(rows[|rows| - 1 - i]))
  }

  function MirrorCodec(codec: Codec): Codec {
    Codec(k => codec.encode(-k),
          t => match codec.decode(t) case Some(k) => Some(-k) case None => None)
  }

  lemma MirrorFaithful(codec: Codec)
    requires Faithful(codec)
    ensures Faithful(MirrorCodec(codec))
  {
    var m := MirrorCodec(codec);
    forall k ensures m.decode(m.encode(k)) == Some(k) {
      var t := codec.encode(-k);
      assert codec.decode(t) == Some(-k);
      assert m.encode(k) == t && m.decode(t) == Some(-(-k));
    }
  }

  lemma MirrorTwice(rows: seq<Row>)
    ensures Mirror(Mirror(rows)) == rows
  {
  }

  lemma MirrorConcat(a: seq<Row>, b: seq<Row>)
    ensures Mirror(a + b) == Mirror(b) + Mirror(a)
  {
  }

  lemma SortedMirror(table: seq<Row>)
    requires Sorted(table)
    ensures Sorted(Mirror(table))
  {
  }

  lemma MirroredBack(rows: seq<Row>, bound: int)
    requires Sorted(Mirror(rows)) && AllAbove(Mirror(rows), Some(-bound))
    ensures Sorted(rows) && AllBelow(rows, bound)
  {
    SortedMirror(Mirror(rows));
    MirrorTwice(rows);
    forall i | 0 <= i < |rows| ensures rows[i].key < bound {
      assert Above(Mirror(rows)[|rows| - 1 - i].key, Some(-bound));
    }
  }

  predicate AllBelow(rows: seq<Row>, bound: int) {
    forall i :: 0 <= i < |rows| ==> rows[i].key < bound
  }

  lemma MirrorHas(rows: seq<Row>, key: int)
    ensures HasKey(Mirror(rows), -key) <==> HasKey(rows, key)
  {
    if HasKey(rows, key) {
      var i :| 0 <= i < |rows| && rows[i].key == key;
      assert Mirror(rows)[|rows| - 1 - i].key == -key;
    }
    if HasKey(Mirror(rows), -key) {
      var i :| 0 <= i < |rows| && Mirror(rows)[i].key == -key;
      assert rows[|rows| - 1 - i].key == key;
    }
  }

  lemma {:induction false} AfterSnoc(rows: seq<Row>, r: Row, bound: int)
    ensures After(rows + [r], Some(bound)) == After(rows, Some(bound)) + if r.key <= bound then [] else [r]
  {
    if rows == [] {
      assert [] + [r] == [r] && [r][1..] == [];
      assert After([r], Some(bound)) == (if r.key <= bound then [] else [r]) + After([], Some(bound));
    } else {
      assert (rows + [r])[1..] == rows[1..] + [r];
      AfterSnoc(rows[1..], r, bound);
      Assoc(if rows[0].key <= bound then [] else [rows[0]], After(rows[1..], Some(bound)),
            if r.key <= bound then [] else [r]);
    }
  }

  lemma {:induction false} BeforeIsAfter(rows: seq<Row>, bound: int)
    ensures After(Mirror(rows), Some(-bound)) == Mirror(Before(rows, Some(bound)))
  {
    if rows != [] {
      BeforeIsAfter(rows[1..], bound);
      var kept := if rows[0].key >= bound then [] else [rows[0]];
      assert Mirror(rows) == Mirror(rows[1..]) + [Flip(rows[0])];
      AfterSnoc(Mirror(rows[1..]), Flip(rows[0]), -bound);
      MirrorConcat(kept, Before(rows[1..], Some(bound)));
      assert Mirror(kept) == if rows[0].key >= bound then [] else [Flip(rows[0])];
    }
  }

  lemma LastIsFirst(rows: seq<Row>, n: nat)
    ensures First(Mirror(rows), n) == Mirror(Last(rows, n))
  {
  }

  // ---------------------------------------------------------------- one page

  /** A backward page is the mirrored forward page of the mirrored table; its previous token is the
      next token there. */
  lemma PageMirrored(table: seq<Row>, before: int, limit: u64, codec: Codec)
    requires 1 <= limit < U64 - 1
    ensures var back := PageOf(CursorPaginate(None, Some(before), limit, Backward), table, codec);
      var fore := PageOf(CursorPaginate(Some(-before), None, limit, Forward), Mirror(table), MirrorCodec(codec));
      fore.data == Mirror(back.data) && fore.nextCursor == back.prevCursor
  {
    var rows := Before(table, Some(before));
    NoBound(table);
    NoBound(After(Mirror(table), Some(-before)));
    BeforeIsAfter(table, before);
    LastIsFirst(rows, limit + 1);
    var b := CursorPaginate(None, Some(before), limit, Backward);
    var f := CursorPaginate(Some(-before), None, limit, Forward);
    assert Fetch(f, Mirror(table)) == Mirror(Fetch(b, table));
    TrimMirrored(Fetch(b, table), b, f);
    TokenMirrored(Trimmed(Fetch(b, table), b), codec);
  }

  lemma TrimMirrored(rows: seq<Row>, b: CursorPaginate, f: CursorPaginate)
    requires b.direction == Backward && f.direction == Forward && b.limit == f.limit
    ensures Trimmed(Mirror(rows), f) == Mirror(Trimmed(rows, b))
  {
  }

  lemma TokenMirrored(data: seq<Row>, codec: Codec)
    ensures LastToken(Mirror(data), MirrorCodec(codec)) == HeadToken(data, codec)
  {
    if data != [] {
      assert Mirror(data)[|data| - 1] == Flip(data[0]);
      assert -(-data[0].key) == data[0].key;
    }
  }

  // ---------------------------------------------------------------- walks

  /** The rows a client collects by following previous tokens from a key on, one request per state of
      the table, in the order of the table. */
  function CollectBack(before: Option<string>, states: seq<seq<Row>>, limit: u64, config: Option<PaginationConfig>,
                       codec: Codec): seq<Row>
    decreases |states|
  {
    if states == [] then []
    else match Serve(AskBefore(before, limit), config, codec, states[0])
      case Err(_) => []
      case Ok(page) =>
        (if page.prevCursor.None? then [] else CollectBack(page.prevCursor, states[1..], limit, config, codec))
        + page.data
  }

  /** The walk reaches a page without a previous token. */
  predicate FinishesBack(before: Option<string>, states: seq<seq<Row>>, limit: u64, config: Option<PaginationConfig>,
                         codec: Codec)
    decreases |states|
  {
    states != [] &&
    match Serve(AskBefore(before, limit), config, codec, states[0])
    case Err(_) => false
    case Ok(page) => page.prevCursor.None? || FinishesBack(page.prevCursor, states[1..], limit, config, codec)
  }

  function MirrorAll(states: seq<seq<Row>>): seq<seq<Row>>
  {
    if states == [] then [] else [Mirror(states[0])] + MirrorAll(states[1..])
  }

  lemma {:induction false} MirrorAllIs(states: seq<seq<Row>>)
    ensures |MirrorAll(states)| == |states|
    ensures forall i :: 0 <= i < |states| ==> MirrorAll(states)[i] == Mirror(states[i])
  {
    if states != [] {
      MirrorAllIs(states[1..]);
      assert forall i :: 0 < i < |states| ==> states[i] == states[1..][i - 1];
    }
  }

  lemma TokenOfMirror(key: int, codec: Codec)
    ensures TokenOf(Some(-key), MirrorCodec(codec)) == TokenOf(Some(key), codec)
  {
    assert -(-key) == key;
  }

  /** One request of a walk back, and of the walk forward on the mirrored states. */
  lemma BackStep(before: int, states: seq<seq<Row>>, limit: u64, config: Option<PaginationConfig>, codec: Codec)
    returns (data: seq<Row>, prev: Option<int>)
    requires Usable(limit, config, codec) && states != []
    ensures var token, mirrored, more := TokenOf(Some(before), codec), MirrorAll(states), TokenOf(prev, codec);
      && CollectBack(token, states, limit, config, codec)
         == (if prev.None? then [] else CollectBack(more, states[1..], limit, config, codec)) + data
      && Collect(token, mirrored, limit, config, MirrorCodec(codec))
         == Mirror(data)
            + (if prev.None? then [] else Collect(more, MirrorAll(states[1..]), limit, config, MirrorCodec(codec)))
      && (Finishes(token, mirrored, limit, config, MirrorCodec(codec))
          <==> prev.None? || Finishes(more, MirrorAll(states[1..]), limit, config, MirrorCodec(codec)))
      && (FinishesBack(token, states, limit, config, codec)
          <==> prev.None? || FinishesBack(more, states[1..], limit, config, codec))
  {
    MirrorFaithful(codec);
    TokenOfMirror(before, codec);
    ServeBefore(states[0], before, limit, config, codec);
    ServeAfter(Mirror(states[0]), Some(-before), limit, config, MirrorCodec(codec));
    PageMirrored(states[0], before, limit, codec);
    assert MirrorAll(states)[0] == Mirror(states[0]) && MirrorAll(states)[1..] == MirrorAll(states[1..]);
    var page := PageOf(CursorPaginate(None, Some(before), limit, Backward), states[0], codec);
    data := page.data;
    prev := if page.prevCursor.Some? then Some(data[0].key) else None;
    assert page.prevCursor == TokenOf(prev, codec);
  }

  /** A walk back is the mirror image of the walk forward on the mirrored states. */
  lemma {:induction false} WalkMirrored(before: int, states: seq<seq<Row>>, limit: u64,
                                        config: Option<PaginationConfig>, codec: Codec)
    requires Usable(limit, config, codec)
    ensures var token, mirrored := TokenOf(Some(before), codec), MirrorAll(states);
      && Collect(token, mirrored, limit, config, MirrorCodec(codec))
         == Mirror(CollectBack(token, states, limit, config, codec))
      && (Finishes(token, mirrored, limit, config, MirrorCodec(codec))
          <==> FinishesBack(token, states, limit, config, codec))
    decreases |states|
  {
    if states != [] {
      var data, prev := BackStep(before, states, limit, config, codec);
      if prev.Some? {
        WalkMirrored(prev.value, states[1..], limit, config, codec);
        MirrorConcat(CollectBack(TokenOf(prev, codec), states[1..], limit, config, codec), data);
      } else {
        MirrorConcat([], data);
      }
    }
  }

  lemma MirroredSorted(states: seq<seq<Row>>)
    requires AllSorted(states)
    ensures AllSorted(MirrorAll(states))
  {
    MirrorAllIs(states);
    forall i | 0 <= i < |states| ensures Sorted(MirrorAll(states)[i]) {
      SortedMirror(states[i]);
    }
  }

  /** NO ROW TWICE, going back: the collected keys strictly increase, all below the first token. */
  lemma CollectedBackIncrease(before: int, states: seq<seq<Row>>, limit: u64, config: Option<PaginationConfig>,
                              codec: Codec)
    requires Usable(limit, config, codec) && AllSorted(states)
    ensures var rows := CollectBack(TokenOf(Some(before), codec), states, limit, config, codec);
      Sorted(rows) && AllBelow(rows, before)
  {
    var rows := CollectBack(TokenOf(Some(before), codec), states, limit, config, codec);
    MirrorFaithful(codec);
    MirroredSorted(states);
    WalkMirrored(before, states, limit, config, codec);
    TokenOfMirror(before, codec);
    CollectedIncrease(Some(-before), MirrorAll(states), limit, config, MirrorCodec(codec));
    MirroredBack(rows, before);
  }

  /** NO ROW MISSED, going back: a walk that finishes returns every key below its first token that
      every state holds. */
  lemma CollectedBackComplete(before: int, states: seq<seq<Row>>, limit: u64, config: Option<PaginationConfig>,
                              codec: Codec, key: int)
    requires Usable(limit, config, codec) && AllSorted(states)
    requires FinishesBack(TokenOf(Some(before), codec), states, limit, config, codec)
    requires key < before && forall i :: 0 <= i < |states| ==> HasKey(states[i], key)
    ensures HasKey(CollectBack(TokenOf(Some(before), codec), states, limit, config, codec), key)
  {
    MirrorFaithful(codec);
    MirroredSorted(states);
    MirrorAllIs(states);
    WalkMirrored(before, states, limit, config, codec);
    TokenOfMirror(before, codec);
    forall i | 0 <= i < |states| ensures HasKey(MirrorAll(states)[i], -key) {
      MirrorHas(states[i], key);
    }
    CollectedComplete(Some(-before), MirrorAll(states), limit, config, MirrorCodec(codec), -key);
    MirrorHas(CollectBack(TokenOf(Some(before), codec), states, limit, config, codec), key);
  }
}
