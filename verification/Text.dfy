/** The string operations of Rust's standard library that the modelled code calls,
    over sequences of characters: searching, splitting, trimming and line reading. */
module Text {
  import opened Wrappers

  lemma Assoc<T>(a: seq<T>, b: seq<T>, c: seq<T>)
    ensures a + (b + c) == a + b + c
  {
  }

  lemma SameAfter<T>(front: seq<T>, a: seq<T>, b: seq<T>)
    ensures front + a == front + b <==> a == b
  {
    assert (front + a)[|front|..] == a && (front + b)[|front|..] == b;
  }

  // ---------------------------------------------------------------- searching

  /** `p` occurs in `s` at position `i`. */
  predicate HasAt(s: string, p: string, i: int) {
    0 <= i && i + |p| <= |s| && s[i..i + |p|] == p
  }

  /** The first `n` characters of `p` stand in `s` from `i` on. */
  predicate Agree(s: string, p: string, i: nat, n: nat)
    requires n <= |p| && i + |p| <= |s|
  {
    n == 0 || (Agree(s, p, i, n - 1) && s[i + n - 1] == p[n - 1])
  }

  lemma {:induction false} AgreeIff(s: string, p: string, i: nat, n: nat)
    requires n <= |p| && i + |p| <= |s|
    ensures Agree(s, p, i, n) <==> forall k :: 0 <= k < n ==> s[i + k] == p[k]
  {
    if n > 0 {
      AgreeIff(s, p, i, n - 1);
    }
  }

  lemma HasAtIff(s: string, p: string, i: nat)
    requires i + |p| <= |s|
    ensures Agree(s, p, i, |p|) <==> HasAt(s, p, i)
  {
    AgreeIff(s, p, i, |p|);
    var slice := s[i..i + |p|];
    assert forall k :: 0 <= k < |p| ==> slice[k] == s[i + k];
    assert slice == p <==> forall k :: 0 <= k < |p| ==> slice[k] == p[k];
  }

  /** The search, character by character. */
  function FindFrom(s: string, p: string, from: nat): (r: Option<nat>)
    requires from <= |s|
    ensures r.Some? ==> from <= r.value && HasAt(s, p, r.value)
    ensures forall j :: from <= j && (r.Some? ==> j < r.value) ==> !HasAt(s, p, j)
    decreases |s| - from
  {
    if |s| < from + |p| then None
    else
      HasAtIff(s, p, from);
      if Agree(s, p, from, |p|) then Some(from) else FindFrom(s, p, from + 1)
  }

  /** `str::find`: the first occurrence. */
  function Find(s: string, p: string): (r: Option<nat>)
    ensures r.Some? ==> HasAt(s, p, r.value)
    ensures forall j :: 0 <= j && (r.Some? ==> j < r.value) ==> !HasAt(s, p, j)
  {
    FindFrom(s, p, 0)
  }

  predicate Contains(s: string, p: string) {
    Find(s, p).Some?
  }

  predicate StartsWith(s: string, p: string) {
    HasAt(s, p, 0)
  }

  predicate EndsWith(s: string, p: string) {
    HasAt(s, p, |s| - |p|)
  }

  lemma ContainsIff(s: string, p: string)
    ensures Contains(s, p) <==> exists i :: HasAt(s, p, i)
  {
    if i :| HasAt(s, p, i) {
      assert Contains(s, p);
    }
  }

  lemma EndsWithBoth(a: string, b: string, c: char)
    ensures EndsWith(a + [c], b + [c]) <==> EndsWith(a, b)
  {
    var k := |a| - |b|;
    if 0 <= k {
      assert (a + [c])[k..k + |b| + 1] == a[k..k + |b|] + [c];
      assert (a[k..k + |b|] + [c])[..|b|] == a[k..k + |b|];
      assert (b + [c])[..|b|] == b;
    }
  }

  /** An occurrence that lies within the middle part of a text is one of that part. */
  lemma HasAtWithin(pre: string, mid: string, post: string, p: string, i: int)
    requires |pre| <= i && i + |p| <= |pre| + |mid|
    ensures HasAt(pre + mid + post, p, i) <==> HasAt(mid, p, i - |pre|)
  {
    assert (pre + mid + post)[i..i + |p|] == mid[i - |pre|..i - |pre| + |p|];
  }

  lemma FindIs(s: string, p: string, i: nat)
    requires HasAt(s, p, i)
    requires forall j :: 0 <= j < i ==> !HasAt(s, p, j)
    ensures Find(s, p) == Some(i)
  {
  }

  /** `str::rfind` of a single character. */
  function RFindChar(s: string, c: char): (r: Option<nat>)
    ensures r.Some? ==> r.value < |s| && s[r.value] == c && c !in s[r.value + 1..]
    ensures r.None? ==> c !in s
  {
    if s == [] then None
    else if s[|s| - 1] == c then Some(|s| - 1)
    else
      var r := RFindChar(s[..|s| - 1], c);
      assert s == s[..|s| - 1] + [s[|s| - 1]];
      assert r.Some? ==> s[r.value + 1..] == s[..|s| - 1][r.value + 1..] + [s[|s| - 1]];
      r
  }

  lemma {:induction false} RFindAt(a: string, b: string, c: char)
    requires c !in b
    ensures RFindChar(a + [c] + b, c) == Some(|a|)
  {
    var s := a + [c] + b;
    if b != [] {
      var b' := b[..|b| - 1];
      assert s[..|s| - 1] == a + [c] + b';
      assert s[|s| - 1] == b[|b| - 1];
      RFindAt(a, b', c);
    }
  }

  /** The position of the first `c`, or `|s|`. */
  function CharPos(s: string, c: char): (n: nat)
    ensures n <= |s|
    ensures c !in s[..n]
    ensures n < |s| ==> s[n] == c
  {
    if s == [] || s[0] == c then 0
    else
      var n := CharPos(s[1..], c);
      assert s[..n + 1] == [s[0]] + s[1..][..n];
      n + 1
  }

  lemma {:induction false} CharPosConcat(a: string, b: string, c: char)
    requires c !in a
    ensures CharPos(a + [c] + b, c) == |a|
  {
    if a != [] {
      assert (a + [c] + b)[1..] == a[1..] + [c] + b;
      CharPosConcat(a[1..], b, c);
    }
  }

  // ---------------------------------------------------------------- order

  /** The order of Rust string slices. */
  predicate StrLe(a: string, b: string) {
    a == [] || (b != [] && (a[0] < b[0] || (a[0] == b[0] && StrLe(a[1..], b[1..]))))
  }

  lemma {:induction false} StrLeTotal(a: string, b: string)
    ensures StrLe(a, b) || StrLe(b, a)
    ensures StrLe(a, b) && StrLe(b, a) ==> a == b
  {
    if a != [] && b != [] && a[0] == b[0] {
      StrLeTotal(a[1..], b[1..]);
      assert a == [a[0]] + a[1..] && b == [b[0]] + b[1..];
    }
  }

  lemma {:induction false} StrLeTransitive(a: string, b: string, c: string)
    requires StrLe(a, b) && StrLe(b, c)
    ensures StrLe(a, c)
  {
    if a != [] && a[0] == b[0] == c[0] {
      StrLeTransitive(a[1..], b[1..], c[1..]);
    }
  }

  // ---------------------------------------------------------------- trimming

  /** Unicode White_Space, the class `str::trim` removes. */
  predicate IsSpace(c: char) {
    || '\t' <= c <= '\r'
    || c == ' ' || c == '\U{85}' || c == '\U{A0}' || c == '\U{1680}'
    || '\U{2000}' <= c <= '\U{200A}'
    || c == '\U{2028}' || c == '\U{2029}' || c == '\U{202F}' || c == '\U{205F}' || c == '\U{3000}'
  }

  predicate AllSpace(s: string) {
    forall i :: 0 <= i < |s| ==> IsSpace(s[i])
  }

  function TrimStart(s: string): string {
    if s != [] && IsSpace(s[0]) then TrimStart(s[1..]) else s
  }

  function TrimEnd(s: string): string {
    if s != [] && IsSpace(s[|s| - 1]) then TrimEnd(s[..|s| - 1]) else s
  }

  function Trim(s: string): string {
    TrimEnd(TrimStart(s))
  }

  /** No white space at either end. */
  predicate Tight(s: string) {
    s != [] ==> !IsSpace(s[0]) && !IsSpace(s[|s| - 1])
  }

  lemma TrimStartPad(w: string, s: string)
    requires AllSpace(w)
    ensures TrimStart(w + s) == TrimStart(s)
  {
    if w == [] {
      assert w + s == s;
    } else {
      assert (w + s)[1..] == w[1..] + s;
      TrimStartPad(w[1..], s);
    }
  }

  lemma TrimEndPad(s: string, w: string)
    requires AllSpace(w)
    ensures TrimEnd(s + w) == TrimEnd(s)
  {
    if w == [] {
      assert s + w == s;
    } else {
      assert (s + w)[..|s + w| - 1] == s + w[..|w| - 1];
      TrimEndPad(s, w[..|w| - 1]);
    }
  }

  lemma TrimAllSpace(w: string)
    requires AllSpace(w)
    ensures TrimStart(w) == [] && TrimEnd(w) == [] && Trim(w) == []
  {
    TrimStartPad(w, []);
    TrimEndPad([], w);
    assert w + [] == w && [] + w == w;
  }

  /** Every text is its trimmed core between two runs of white space. */
  lemma TrimShape(s: string) returns (before: string, after: string)
    ensures AllSpace(before) && AllSpace(after)
    ensures s == before + Trim(s) + after
    ensures Tight(Trim(s))
  {
    var t;
    before, t := TrimStartShape(s);
    after := TrimEndShape(t);
    assert s == before + (Trim(s) + after);
    if Trim(s) != [] {
      assert t[0] == Trim(s)[0];
    }
  }

  lemma TrimStartShape(s: string) returns (before: string, rest: string)
    ensures AllSpace(before) && rest == TrimStart(s) && s == before + rest
    ensures rest != [] ==> !IsSpace(rest[0])
  {
    if s != [] && IsSpace(s[0]) {
      before, rest := TrimStartShape(s[1..]);
      before := [s[0]] + before;
    } else {
      before, rest := [], s;
    }
  }

  lemma TrimEndShape(s: string) returns (after: string)
    ensures AllSpace(after) && s == TrimEnd(s) + after
    ensures TrimEnd(s) != [] ==> !IsSpace(TrimEnd(s)[|TrimEnd(s)| - 1])
  {
    if s != [] && IsSpace(s[|s| - 1]) {
      after := TrimEndShape(s[..|s| - 1]);
      after := after + [s[|s| - 1]];
    } else {
      after := [];
    }
  }

  lemma TrimIs(before: string, s: string, after: string)
    requires AllSpace(before) && AllSpace(after) && Tight(s)
    ensures Trim(before + s + after) == s
  {
    if s == [] {
      assert AllSpace(before + s + after);
      TrimAllSpace(before + s + after);
    } else {
      assert before + s + after == before + (s + after);
      TrimStartPad(before, s + after);
      assert TrimStart(s + after) == s + after;
      TrimEndPad(s, after);
    }
  }

  lemma TrimTight(s: string)
    requires Tight(s)
    ensures Trim(s) == s
  {
    assert [] + s + [] == s;
    TrimIs([], s, []);
  }

  lemma TrimTwice(s: string)
    ensures Trim(Trim(s)) == Trim(s)
  {
    var b, a := TrimShape(s);
    TrimTight(Trim(s));
  }

  function TrimStartMatches(s: string, p: string): string
    requires p != []
  {
    if |s| < |p| then s
    else if StartsWith(s, p) then TrimStartMatches(s[|p|..], p)
    else s
  }

  function TrimAll(parts: seq<string>): (r: seq<string>)
    ensures |r| == |parts|
  {
    if parts == [] then [] else [Trim(parts[0])] + TrimAll(parts[1..])
  }

  lemma TrimAllCons(p: string, parts: seq<string>)
    ensures TrimAll([p] + parts) == [Trim(p)] + TrimAll(parts)
  {
    assert ([p] + parts)[1..] == parts;
  }

  // ---------------------------------------------------------------- split and join

  /** `str::split` on one character: always at least one piece. */
  function Split(s: string, c: char): (parts: seq<string>)
    ensures |parts| >= 1
    decreases |s|
  {
    var n := CharPos(s, c);
    if n == |s| then [s] else [s[..n]] + Split(s[n + 1..], c)
  }

  /** `[T]::join`. */
  function Join(parts: seq<string>, sep: string): string {
    if parts == [] then []
    else if |parts| == 1 then parts[0]
    else parts[0] + sep + Join(parts[1..], sep)
  }

  ghost predicate AllFree(parts: seq<string>, c: char) {
    forall i :: 0 <= i < |parts| ==> c !in parts[i]
  }

  lemma {:induction false} SplitFree(s: string, c: char)
    ensures AllFree(Split(s, c), c)
    decreases |s|
  {
    var n := CharPos(s, c);
    if n < |s| {
      SplitFree(s[n + 1..], c);
    } else {
      assert s[..n] == s;
    }
  }

  lemma JoinCons(p: string, rest: seq<string>, sep: string)
    requires rest != []
    ensures Join([p] + rest, sep) == p + sep + Join(rest, sep)
  {
    assert ([p] + rest)[1..] == rest;
  }

  lemma {:induction false} JoinSplit(s: string, c: char)
    ensures Join(Split(s, c), [c]) == s
    decreases |s|
  {
    var n := CharPos(s, c);
    if n < |s| {
      CutAt(s, n);
      JoinSplit(s[n + 1..], c);
      JoinCons(s[..n], Split(s[n + 1..], c), [c]);
    }
  }

  lemma CutAt(s: string, n: nat)
    requires n < |s|
    ensures s == s[..n] + [s[n]] + s[n + 1..]
  {
  }

  lemma SplitStep(a: string, b: string, c: char)
    requires c !in a
    ensures Split(a + [c] + b, c) == [a] + Split(b, c)
  {
    CharPosConcat(a, b, c);
    assert (a + [c] + b)[..|a|] == a;
    assert (a + [c] + b)[|a| + 1..] == b;
  }

  lemma SplitNone(a: string, c: char)
    requires c !in a
    ensures Split(a, c) == [a]
  {
  }

  lemma {:induction false} SplitJoin(parts: seq<string>, c: char)
    requires parts != [] && AllFree(parts, c)
    ensures Split(Join(parts, [c]), c) == parts
  {
    if |parts| == 1 {
      SplitNone(parts[0], c);
    } else {
      SplitStep(parts[0], Join(parts[1..], [c]), c);
      SplitJoin(parts[1..], c);
    }
  }

  // ---------------------------------------------------------------- lines

  function StripCR(l: string): string {
    if l != [] && l[|l| - 1] == '\r' then l[..|l| - 1] else l
  }

  /** `str::lines`: pieces ended by a newline, with one carriage return before it dropped;
      a last piece without a newline is kept as it is. */
  function Lines(s: string): seq<string>
    decreases |s|
  {
    if s == [] then []
    else
      var n := CharPos(s, '\n');
      if n == |s| then [s] else [StripCR(s[..n])] + Lines(s[n + 1..])
  }

  lemma LinesStep(a: string, b: string)
    requires '\n' !in a
    ensures Lines(a + "\n" + b) == [StripCR(a)] + Lines(b)
  {
    CharPosConcat(a, b, '\n');
    assert (a + "\n" + b)[..|a|] == a;
    assert (a + "\n" + b)[|a| + 1..] == b;
  }

  lemma LinesLast(a: string)
    requires '\n' !in a
    ensures Lines(a) == if a == [] then [] else [a]
  {
  }

  ghost predicate NoNewline(ls: seq<string>) {
    forall i :: 0 <= i < |ls| ==> '\n' !in ls[i]
  }

  /** A text is one line, or a first line, a newline and the rest. */
  lemma CutLine(s: string) returns (head: string, tail: string)
    requires '\n' in s
    ensures '\n' !in head && s == head + "\n" + tail
    ensures |tail| < |s|
  {
    var n := CharPos(s, '\n');
    assert s[..|s|] == s;
    head, tail := s[..n], s[n + 1..];
  }

  lemma StripCRFree(l: string, c: char)
    requires c !in l
    ensures c !in StripCR(l)
  {
  }

  lemma {:induction false} LinesNoNewline(s: string)
    ensures NoNewline(Lines(s))
    decreases |s|
  {
    if '\n' in s {
      var head, tail := CutLine(s);
      LinesStep(head, tail);
      StripCRFree(head, '\n');
      LinesNoNewline(tail);
    } else {
      LinesLast(s);
    }
  }

  /** Every line followed by a newline. */
  function Unlines(ls: seq<string>): string {
    if ls == [] then [] else ls[0] + "\n" + Unlines(ls[1..])
  }

  lemma UnlinesConcat(a: seq<string>, b: seq<string>)
    ensures Unlines(a + b) == Unlines(a) + Unlines(b)
  {
    if a == [] {
      assert a + b == b;
    } else {
      assert (a + b)[1..] == a[1..] + b;
      UnlinesConcat(a[1..], b);
    }
  }

  lemma UnlinesJoin(ls: seq<string>)
    requires ls != []
    ensures Unlines(ls) == Join(ls, "\n") + "\n"
  {
    if |ls| > 1 {
      UnlinesJoin(ls[1..]);
    } else {
      assert Unlines(ls[1..]) == [];
    }
  }
}
