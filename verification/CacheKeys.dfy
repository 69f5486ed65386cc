/** Cache keys and invalidation prefixes (rapina/src/cache.rs). */
module CacheKeys {
  import opened Wrappers
  import opened Text
  import opened ResponseCache

  // ---------------------------------------------------------------- sorting of parameters

  function InsertString(x: string, s: seq<string>): seq<string> {
    if s == [] || StrLe(x, s[0]) then [x] + s else [s[0]] + InsertString(x, s[1..])
  }

  function SortStrings(s: seq<string>): seq<string> {
    if s == [] then [] else InsertString(s[0], SortStrings(s[1..]))
  }

  predicate Sorted(s: seq<string>) {
    forall i, j :: 0 <= i < j < |s| ==> StrLe(s[i], s[j])
  }

  lemma {:induction false} InsertSorts(x: string, s: seq<string>)
    requires Sorted(s)
    ensures Sorted(InsertString(x, s)) && multiset(InsertString(x, s)) == multiset{x} + multiset(s)
  {
    if s == [] {
    } else if StrLe(x, s[0]) {
      forall j | 0 <= j < |s| ensures StrLe(x, s[j]) {
        if j > 0 {
          StrLeTransitive(x, s[0], s[j]);
        }
      }
    } else {
      InsertSorts(x, s[1..]);
      StrLeTotal(x, s[0]);
      var r := InsertString(x, s[1..]);
      assert s == [s[0]] + s[1..];
      forall j | 0 <= j < |r| ensures StrLe(s[0], r[j]) {
        assert r[j] in multiset(r);
        assert r[j] == x || r[j] in s[1..];
      }
    }
  }

  lemma {:induction false} SortSorts(s: seq<string>)
    ensures Sorted(SortStrings(s)) && multiset(SortStrings(s)) == multiset(s)
  {
    if s != [] {
      SortSorts(s[1..]);
      InsertSorts(s[0], SortStrings(s[1..]));
      assert s == [s[0]] + s[1..];
    }
  }

  lemma FirstIsLeast(a: seq<string>, x: string)
    requires Sorted(a) && x in a
    ensures StrLe(a[0], x)
  {
    StrLeTotal(x, x);
  }

  lemma RestOf(a: seq<string>)
    requires a != []
    ensures multiset(a[1..]) == multiset(a) - multiset{a[0]}
  {
    assert a == [a[0]] + a[1..];
  }

  /** A sorted list is determined by what it holds. */
  lemma {:induction false} SortedUnique(a: seq<string>, b: seq<string>)
    requires Sorted(a) && Sorted(b) && multiset(a) == multiset(b)
    ensures a == b
  {
    assert |a| == |multiset(a)| == |multiset(b)| == |b|;
    if a != [] {
      assert a[0] in multiset(b) && b[0] in multiset(a);
      FirstIsLeast(a, b[0]);
      FirstIsLeast(b, a[0]);
      StrLeTotal(a[0], b[0]);
      RestOf(a);
      RestOf(b);
      SortedUnique(a[1..], b[1..]);
      assert a == [a[0]] + a[1..] && b == [b[0]] + b[1..];
    }
  }

  lemma SortEqual(a: seq<string>, b: seq<string>)
    ensures SortStrings(a) == SortStrings(b) <==> multiset(a) == multiset(b)
  {
    SortSorts(a);
    SortSorts(b);
    if multiset(a) == multiset(b) {
      SortedUnique(SortStrings(a), SortStrings(b));
    }
  }

  // ---------------------------------------------------------------- cache keys

  function QueryTail(query: string): string {
    if query == "" then "" else "?" + Join(SortStrings(Split(query, '&')), "&")
  }

  function CacheKey(path: string, query: string): string {
    "GET:" + (path + QueryTail(query))
  }

  method BuildCacheKey(path: string, query: string) returns (key: string)
    ensures key == CacheKey(path, query)
  {
    if query == "" {
      key := "GET:" + path;
      assert path + "" == path;
    } else {
      var params := Split(query, '&');
      params := SortStrings(params);
      key := "GET:" + (path + ("?" + Join(params, "&")));
    }
  }

  function Params(query: string): multiset<string> {
    multiset(Split(query, '&'))
  }

  lemma SortedFree(query: string)
    ensures AllFree(SortStrings(Split(query, '&')), '&') && SortStrings(Split(query, '&')) != []
  {
    var parts := Split(query, '&');
    var sorted := SortStrings(parts);
    SplitFree(query, '&');
    SortSorts(parts);
    assert |sorted| == |multiset(sorted)| == |multiset(parts)| == |parts|;
    forall i | 0 <= i < |sorted| ensures '&' !in sorted[i] {
      assert sorted[i] in multiset(parts);
    }
  }

  /** The joined parameters tell the parameters. */
  lemma TailEqual(q1: string, q2: string)
    ensures QueryTail(q1) == QueryTail(q2) <==> Params(q1) == Params(q2)
  {
    var s1, s2 := SortStrings(Split(q1, '&')), SortStrings(Split(q2, '&'));
    SortEqual(Split(q1, '&'), Split(q2, '&'));
    EmptyQuery(q1, q2);
    EmptyQuery(q2, q1);
    if q1 != "" && q2 != "" && QueryTail(q1) == QueryTail(q2) {
      assert QueryTail(q1)[1..] == Join(s1, "&") && QueryTail(q2)[1..] == Join(s2, "&");
      SortedFree(q1);
      SortedFree(q2);
      SplitJoin(s1, '&');
      SplitJoin(s2, '&');
    }
  }

  lemma EmptyQuery(q1: string, q2: string)
    ensures q1 == "" && Params(q1) == Params(q2) ==> q2 == ""
  {
    SplitNone("", '&');
    var parts := Split(q2, '&');
    JoinSplit(q2, '&');
    if q1 == "" && Params(q1) == Params(q2) {
      assert |parts| == |multiset(parts)| == |multiset([""])| == 1;
      assert parts[0] in multiset(parts);
    }
  }

  lemma {:induction false} QuestionMark(p: string, t: string)
    requires '?' !in p && (t == "" || t[0] == '?')
    ensures CharPos(p + t, '?') == |p|
  {
    if p == [] {
      assert p + t == t;
    } else {
      assert (p + t)[1..] == p[1..] + t;
      QuestionMark(p[1..], t);
    }
  }

  lemma PathTail(p1: string, t1: string, p2: string, t2: string)
    requires '?' !in p1 && '?' !in p2
    requires t1 == "" || t1[0] == '?'
    requires t2 == "" || t2[0] == '?'
    requires p1 + t1 == p2 + t2
    ensures p1 == p2 && t1 == t2
  {
    QuestionMark(p1, t1);
    QuestionMark(p2, t2);
    assert (p1 + t1)[..|p1|] == p1 && (p2 + t2)[..|p2|] == p2;
    assert (p1 + t1)[|p1|..] == t1 && (p2 + t2)[|p2|..] == t2;
  }

  /** KEYS. Two requests share a key exactly when they have the same path and the same query
      parameters, counted with repetition and in any order. */
  lemma KeysEqual(p1: string, q1: string, p2: string, q2: string)
    requires '?' !in p1 && '?' !in p2
    ensures CacheKey(p1, q1) == CacheKey(p2, q2) <==> p1 == p2 && Params(q1) == Params(q2)
  {
    TailEqual(q1, q2);
    var t1, t2 := QueryTail(q1), QueryTail(q2);
    SameAfter("GET:", p1 + t1, p2 + t2);
    if p1 + t1 == p2 + t2 {
      PathTail(p1, t1, p2, t2);
    }
  }

  // ---------------------------------------------------------------- invalidation prefixes

  function NonEmpty(parts: seq<string>): seq<string> {
    if parts == [] then []
    else (if parts[0] == "" then [] else [parts[0]]) + NonEmpty(parts[1..])
  }

  /** `path.split('/')` without the empty pieces. */
  function Segments(path: string): seq<string> {
    NonEmpty(Split(path, '/'))
  }

  predicate Static(segment: string) {
    !StartsWith(segment, ":")
  }

  function EveryPrefix(segs: seq<string>, current: string): seq<string> {
    if segs == [] then []
    else ["GET:" + (current + "/" + segs[0])] + EveryPrefix(segs[1..], current + "/" + segs[0])
  }

  function StaticPrefixes(pats: seq<string>, segs: seq<string>, current: string): seq<string> {
    if pats == [] || segs == [] then []
    else
      var next := current + "/" + segs[0];
      (if Static(pats[0]) then ["GET:" + next] else []) + StaticPrefixes(pats[1..], segs[1..], next)
  }

  function InvalidationPrefixes(path: string, pattern: Option<string>): seq<string> {
    match pattern
    case Some(p) => StaticPrefixes(Segments(p), Segments(path), "")
    case None => EveryPrefix(Segments(path), "")
  }

  lemma StaticPrefixesStep(pats: seq<string>, segs: seq<string>, i: nat, current: string)
    requires i < |pats| && i < |segs|
    ensures var next := current + "/" + segs[i];
      StaticPrefixes(pats[i..], segs[i..], current)
      == (if Static(pats[i]) then ["GET:" + next] else []) + StaticPrefixes(pats[i + 1..], segs[i + 1..], next)
  {
    assert pats[i..][1..] == pats[i + 1..] && segs[i..][1..] == segs[i + 1..];
  }

  method PrefixesFromPattern(path: string, pattern: string) returns (prefixes: seq<string>)
    ensures prefixes == InvalidationPrefixes(path, Some(pattern))
  {
    var pathSegs, patSegs := Segments(path), Segments(pattern);
    prefixes := [];
    var current := "";
    var i := 0;
    ghost var want := StaticPrefixes(patSegs, pathSegs, "");
    while i < |patSegs| && i < |pathSegs|
      invariant 0 <= i <= |patSegs| && i <= |pathSegs|
      invariant prefixes + StaticPrefixes(patSegs[i..], pathSegs[i..], current) == want
    {
      StaticPrefixesStep(patSegs, pathSegs, i, current);
      current := current + "/" + pathSegs[i];
      ghost var rest := StaticPrefixes(patSegs[i + 1..], pathSegs[i + 1..], current);
      if Static(patSegs[i]) {
        Assoc(prefixes, ["GET:" + current], rest);
        prefixes := prefixes + ["GET:" + current];
      } else {
        assert [] + rest == rest;
      }
      i := i + 1;
    }
  }

  method BuildInvalidationPrefixes(path: string, pattern: Option<string>) returns (prefixes: seq<string>)
    ensures prefixes == InvalidationPrefixes(path, pattern)
  {
    if pattern.Some? {
      prefixes := PrefixesFromPattern(path, pattern.value);
      return;
    }
    prefixes := [];
    var current := "";
    var segs := Segments(path);
    for i := 0 to |segs|
      invariant prefixes + EveryPrefix(segs[i..], current) == EveryPrefix(segs, "")
    {
      assert segs[i..][1..] == segs[i + 1..];
      current := current + "/" + segs[i];
      Assoc(prefixes, ["GET:" + current], EveryPrefix(segs[i + 1..], current));
      prefixes := prefixes + ["GET:" + current];
    }
  }

  /** Each prefix is a prefix of the next, so all extend the first. */
  ghost predicate Chain(prefixes: seq<string>) {
    forall i, j :: 0 <= i <= j < |prefixes| ==> StartsWith(prefixes[j], prefixes[i])
  }

  ghost predicate AllExtend(prefixes: seq<string>, base: string) {
    forall i :: 0 <= i < |prefixes| ==> StartsWith(prefixes[i], base)
  }

  lemma StartsTransitive(a: string, b: string, c: string)
    requires StartsWith(b, a) && StartsWith(c, b)
    ensures StartsWith(c, a)
  {
    assert c[0..|b|][0..|a|] == c[0..|a|];
  }

  lemma StartsConcat(a: string, b: string)
    ensures StartsWith(a + b, a)
  {
    assert (a + b)[0..|a|] == a;
  }

  lemma {:induction false} EveryChain(segs: seq<string>, current: string)
    ensures AllExtend(EveryPrefix(segs, current), "GET:" + current) && Chain(EveryPrefix(segs, current))
  {
    if segs != [] {
      var next := current + "/" + segs[0];
      EveryChain(segs[1..], next);
      ChainCons("GET:" + current, "GET:" + next, EveryPrefix(segs[1..], next));
    }
  }

  lemma ExtendMore(base: string, first: string, rest: seq<string>)
    requires |base| <= |first| && first[..|base|] == base
    requires AllExtend(rest, first)
    ensures AllExtend(rest, base)
  {
    assert StartsWith(first, base);
    forall i | 0 <= i < |rest| ensures StartsWith(rest[i], base) {
      StartsTransitive(base, first, rest[i]);
    }
  }

  lemma ChainCons(base: string, first: string, rest: seq<string>)
    requires |base| <= |first| && first[..|base|] == base
    requires AllExtend(rest, first) && Chain(rest)
    ensures AllExtend([first] + rest, base) && Chain([first] + rest)
  {
    var all := [first] + rest;
    assert StartsWith(first, base) && StartsWith(first, first);
    ExtendMore(base, first, rest);
    assert forall i :: 0 < i < |all| ==> all[i] == rest[i - 1];
    forall i, j | 0 <= i <= j < |all| ensures StartsWith(all[j], all[i]) {
      if i > 0 {
        assert all[i] == rest[i - 1] && all[j] == rest[j - 1];
      }
    }
  }

  lemma {:induction false} StaticChain(pats: seq<string>, segs: seq<string>, current: string)
    ensures var ps := StaticPrefixes(pats, segs, current);
      AllExtend(ps, "GET:" + current) && Chain(ps)
    decreases |segs|
  {
    if pats != [] && segs != [] {
      var next := current + "/" + segs[0];
      var rest := StaticPrefixes(pats[1..], segs[1..], next);
      StaticChain(pats[1..], segs[1..], next);
      if Static(pats[0]) {
        ChainCons("GET:" + current, "GET:" + next, rest);
      } else {
        ExtendMore("GET:" + current, "GET:" + next, rest);
        assert StaticPrefixes(pats, segs, current) == rest;
      }
    }
  }

  lemma PrefixesChain(path: string, pattern: Option<string>)
    ensures Chain(InvalidationPrefixes(path, pattern))
  {
    if pattern.Some? {
      StaticChain(Segments(pattern.value), Segments(path), "");
    } else {
      EveryChain(Segments(path), "");
    }
  }

  /** Prefixes are cleared one after another, in whatever order. */
  function ClearAll(entries: Entries, prefixes: seq<string>): Entries {
    if prefixes == [] then entries else ClearAll(WithoutPrefix(entries, prefixes[0]), prefixes[1..])
  }

  lemma {:induction false} ClearAllHas(entries: Entries, prefixes: seq<string>)
    ensures forall k :: k in ClearAll(entries, prefixes) <==>
              k in entries && forall i :: 0 <= i < |prefixes| ==> !StartsWith(k, prefixes[i])
    ensures forall k :: k in ClearAll(entries, prefixes) ==> ClearAll(entries, prefixes)[k] == entries[k]
  {
    if prefixes != [] {
      ClearAllHas(WithoutPrefix(entries, prefixes[0]), prefixes[1..]);
      assert forall k :: (forall i :: 0 <= i < |prefixes| ==> !StartsWith(k, prefixes[i])) <==>
          !StartsWith(k, prefixes[0]) && forall i :: 0 <= i < |prefixes[1..]| ==> !StartsWith(k, prefixes[1..][i]) by {
        assert prefixes == [prefixes[0]] + prefixes[1..];
      }
    }
  }

  /** ONE PREFIX DECIDES. Clearing the prefixes of a chain, in any order, removes exactly the
      keys under the first, which is the shortest. */
  lemma ChainClears(entries: Entries, prefixes: seq<string>, order: seq<string>)
    requires Chain(prefixes) && prefixes != [] && multiset(order) == multiset(prefixes)
    ensures ClearAll(entries, order) == WithoutPrefix(entries, prefixes[0])
  {
    ClearAllHas(entries, order);
    assert prefixes[0] in multiset(order);
    var at :| 0 <= at < |order| && order[at] == prefixes[0];
    forall k | k in entries
      ensures k in ClearAll(entries, order) <==> !StartsWith(k, prefixes[0])
    {
      if i :| 0 <= i < |order| && StartsWith(k, order[i]) {
        assert order[i] in multiset(prefixes);
        var j :| 0 <= j < |prefixes| && prefixes[j] == order[i];
        StartsTransitive(prefixes[0], prefixes[j], k);
      }
    }
  }

  // ---------------------------------------------------------------- the first segment

  /** The text between the leading slash and the next one. */
  function FirstSegment(path: string): string {
    if path != [] && path[0] == '/' then path[1..][..CharPos(path[1..], '/')] else ""
  }

  lemma FirstSegmentIs(seg: string, rest: string)
    requires '/' !in seg && (rest == "" || rest[0] == '/')
    ensures FirstSegment("/" + seg + rest) == seg
  {
    var path := "/" + seg + rest;
    assert path[1..] == seg + rest;
    CharPosIs(seg, rest);
  }

  lemma {:induction false} CharPosIs(seg: string, rest: string)
    requires '/' !in seg && (rest == "" || rest[0] == '/')
    ensures CharPos(seg + rest, '/') == |seg|
  {
    if seg != "" {
      assert (seg + rest)[1..] == seg[1..] + rest;
      CharPosIs(seg[1..], rest);
    }
  }

  lemma FirstOfSegments(path: string)
    requires FirstSegment(path) != ""
    ensures Segments(path) != [] && Segments(path)[0] == FirstSegment(path)
  {
    var rest := path[1..];
    assert CharPos(path, '/') == 0;
    assert Split(path, '/') == [path[..0]] + Split(rest, '/');
    assert Split(path, '/')[1..] == Split(rest, '/');
    assert Segments(path) == NonEmpty(Split(rest, '/'));
    var n := CharPos(rest, '/');
    if n == |rest| {
      assert rest[..n] == rest;
    }
    assert Split(rest, '/')[0] == rest[..n];
  }

  /** The prefix of the first path segment comes first: always in the fallback, and in the
      pattern-aware builder when the pattern's first segment is static. */
  lemma FirstPrefix(path: string, pattern: Option<string>)
    requires FirstSegment(path) != ""
    requires pattern.Some? ==> FirstSegment(pattern.value) != "" && Static(FirstSegment(pattern.value))
    ensures InvalidationPrefixes(path, pattern) != []
    ensures InvalidationPrefixes(path, pattern)[0] == "GET:/" + FirstSegment(path)
  {
    FirstOfSegments(path);
    if pattern.Some? {
      FirstOfSegments(pattern.value);
    }
    assert "GET:" + ("" + "/" + FirstSegment(path)) == "GET:/" + FirstSegment(path);
  }

  /** With a static first segment, both builders clear the same entries. */
  lemma SameClearing(entries: Entries, path: string, pattern: string)
    requires FirstSegment(path) != "" && FirstSegment(pattern) != "" && Static(FirstSegment(pattern))
    ensures ClearAll(entries, InvalidationPrefixes(path, Some(pattern)))
         == ClearAll(entries, InvalidationPrefixes(path, None))
  {
    FirstPrefix(path, Some(pattern));
    FirstPrefix(path, None);
    PrefixesChain(path, Some(pattern));
    PrefixesChain(path, None);
    var a, b := InvalidationPrefixes(path, Some(pattern)), InvalidationPrefixes(path, None);
    ChainClears(entries, a, a);
    ChainClears(entries, b, b);
  }

  lemma KeyStarts(p: string, rest: string, query: string)
    ensures StartsWith(CacheKey(p + rest, query), "GET:" + p)
  {
    var tail := QueryTail(query);
    assert "GET:" + (p + rest + tail) == ("GET:" + p) + (rest + tail);
    StartsConcat("GET:" + p, rest + tail);
  }

  /** Every key of a path lies under the prefix of the path's first segment. */
  lemma KeyUnderSegment(path: string, query: string)
    requires FirstSegment(path) != ""
    ensures StartsWith(CacheKey(path, query), "GET:/" + FirstSegment(path))
  {
    var p := "/" + FirstSegment(path);
    var rest := path[|p|..];
    assert path == p + rest;
    KeyStarts(p, rest, query);
    assert "GET:" + p == "GET:/" + FirstSegment(path);
  }

  // ---------------------------------------------------------------- the mutated path

  /** A path that starts with a slash and has no empty segment inside. */
  predicate Clean(path: string) {
    path != [] && path[0] == '/' && !Contains(path, "//")
  }

  lemma NoDoubleTail(path: string, n: nat)
    requires !Contains(path, "//") && n <= |path|
    ensures !Contains(path[n..], "//")
  {
    forall i ensures !HasAt(path[n..], "//", i) {
      if 0 <= i && i + 2 <= |path[n..]| {
        assert path[n..][i..i + 2] == path[n + i..n + i + 2];
        assert !HasAt(path, "//", n + i);
      }
    }
    ContainsIff(path[n..], "//");
  }

  lemma SlashSplit(tail: string)
    ensures Segments("/" + tail) == NonEmpty(Split(tail, '/'))
  {
    var path := "/" + tail;
    assert path[1..] == tail && CharPos(path, '/') == 0;
    assert Split(path, '/') == [path[..0]] + Split(tail, '/');
    assert Split(path, '/')[1..] == Split(tail, '/');
  }

  lemma NoSegments()
    ensures Segments("") == []
  {
    assert Split("", '/') == [""];
    assert NonEmpty([""][1..]) == [];
  }

  lemma OneSegment(seg: string)
    requires '/' !in seg && seg != ""
    ensures Segments("/" + seg) == [seg]
  {
    SlashSplit(seg);
    SplitNone(seg, '/');
    assert NonEmpty([seg][1..]) == [];
  }

  lemma FirstAndRest(seg: string, rest: string)
    requires '/' !in seg && seg != ""
    ensures Segments("/" + (seg + ("/" + rest))) == [seg] + Segments("/" + rest)
  {
    SlashSplit(seg + ("/" + rest));
    SlashSplit(rest);
    assert seg + ("/" + rest) == seg + ['/'] + rest;
    SplitStep(seg, rest, '/');
    assert ([seg] + Split(rest, '/'))[1..] == Split(rest, '/');
  }

  /** The first segment of a clean path, and the rest, which is clean again or exhausted. */
  lemma CleanStep(path: string) returns (rest: string)
    requires Clean(path) && path != "/"
    ensures Segments(path) != []
    ensures path == "/" + (Segments(path)[0] + rest)
    ensures rest == "" || Clean(rest)
    ensures Segments(rest) == Segments(path)[1..]
    ensures |rest| < |path|
  {
    var tail := path[1..];
    var n := CharPos(tail, '/');
    var seg := tail[..n];
    rest := tail[n..];
    assert path == "/" + tail && tail == seg + rest;
    assert n > 0 by {
      assert !HasAt(path, "//", 0);
      assert path[0..2] == [path[0]] + [tail[0]];
    }
    NoDoubleTail(path, 1 + n);
    assert rest == path[1 + n..];
    if n == |tail| {
      OneSegment(seg);
      NoSegments();
      assert seg == tail;
    } else {
      FirstAndRest(seg, rest[1..]);
      assert rest == "/" + rest[1..];
    }
  }

  predicate AllPrefixesOf(prefixes: seq<string>, key: string) {
    forall i :: 0 <= i < |prefixes| ==> StartsWith(key, prefixes[i])
  }

  lemma {:induction false} PrefixesOfPath(pats: seq<string>, current: string, rest: string)
    requires rest == "" || Clean(rest)
    ensures AllPrefixesOf(StaticPrefixes(pats, Segments(rest), current), "GET:" + (current + rest))
    decreases |rest|
  {
    if rest == "" {
      NoSegments();
    } else if rest == "/" {
      SlashSplit("");
      SplitNone("", '/');
      assert NonEmpty([""][1..]) == [];
      assert "/" + "" == "/";
    } else if pats != [] {
      var after := CleanStep(rest);
      var seg := Segments(rest)[0];
      var next := current + "/" + seg;
      var ps := StaticPrefixes(pats[1..], Segments(after), next);
      assert next + after == current + ("/" + (seg + after));
      PrefixesOfPath(pats[1..], next, after);
      var key := "GET:" + (next + after);
      assert rest == "/" + (seg + after) && current + rest == next + after;
      assert key == ("GET:" + next) + after;
      StartsConcat("GET:" + next, after);
      assert AllPrefixesOf(ps, key) && AllPrefixesOf(["GET:" + next] + ps, key);
    }
  }

  predicate SomeStatic(pats: seq<string>, segs: seq<string>) {
    exists i :: 0 <= i < |pats| && i < |segs| && Static(pats[i])
  }

  lemma SomeStaticRest(pats: seq<string>, segs: seq<string>)
    requires SomeStatic(pats, segs) && !Static(pats[0])
    ensures SomeStatic(pats[1..], segs[1..])
  {
    var i :| 0 <= i < |pats| && i < |segs| && Static(pats[i]);
    assert Static(pats[1..][i - 1]);
  }

  /** The path segments up to that of the first static pattern segment, each behind one slash. */
  function StaticBase(pats: seq<string>, segs: seq<string>): string
    requires SomeStatic(pats, segs)
  {
    if Static(pats[0]) then "/" + segs[0]
    else
      SomeStaticRest(pats, segs);
      "/" + segs[0] + StaticBase(pats[1..], segs[1..])
  }

  lemma {:induction false} FirstEmitted(pats: seq<string>, segs: seq<string>, current: string)
    requires SomeStatic(pats, segs)
    ensures var ps := StaticPrefixes(pats, segs, current);
      ps != [] && ps[0] == "GET:" + (current + StaticBase(pats, segs))
  {
    var next := current + "/" + segs[0];
    if Static(pats[0]) {
      assert current + ("/" + segs[0]) == next;
    } else {
      SomeStaticRest(pats, segs);
      FirstEmitted(pats[1..], segs[1..], next);
      assert next + StaticBase(pats[1..], segs[1..]) == current + ("/" + segs[0] + StaticBase(pats[1..], segs[1..]));
    }
  }

  /** Whatever is stored, no key of the mutated path or of a path below it stays, with any query. */
  ghost predicate ClearsBelow(path: string, pattern: string) {
    forall entries: Entries, below, query :: StartsWith(below, path) ==>
      CacheKey(below, query) !in ClearAll(entries, InvalidationPrefixes(path, Some(pattern)))
  }

  lemma SameStart(front: string, a: string, b: string)
    ensures StartsWith(front + a, front + b) <==> StartsWith(a, b)
  {
    if |b| <= |a| {
      assert (front + a)[0..|front + b|] == front + a[0..|b|];
      assert (front + b)[|front|..] == b && (front + a[0..|b|])[|front|..] == a[0..|b|];
    }
  }

  /** What such a mutation clears, one key at a time. */
  lemma MutatedPathCleared(entries: Entries, path: string, pattern: string, below: string, query: string)
    requires SomeStatic(Segments(pattern), Segments(path)) && StartsWith(below, path)
    requires StartsWith(path, StaticBase(Segments(pattern), Segments(path)))
    ensures CacheKey(below, query) !in ClearAll(entries, InvalidationPrefixes(path, Some(pattern)))
  {
    var ps, base := InvalidationPrefixes(path, Some(pattern)), StaticBase(Segments(pattern), Segments(path));
    FirstEmitted(Segments(pattern), Segments(path), "");
    assert "" + base == base;
    assert below == below[0..|path|] + below[|path|..];
    KeyStarts(path, below[|path|..], query);
    SameStart("GET:", path, base);
    StartsTransitive(ps[0], "GET:" + path, CacheKey(below, query));
    ClearAllHas(entries, ps);
  }

  /** A mutation whose route has a static segment clears the mutated path and everything below it
      exactly when the path writes its segments, up to that of the first static one, with single
      slashes: an empty segment there keeps the emitted prefix from matching the path itself. */
  lemma MutatedPathClearedIff(path: string, pattern: string)
    requires SomeStatic(Segments(pattern), Segments(path))
    ensures ClearsBelow(path, pattern) <==> StartsWith(path, StaticBase(Segments(pattern), Segments(path)))
  {
    var base := StaticBase(Segments(pattern), Segments(path));
    if StartsWith(path, base) {
      forall entries: Entries, below, query | StartsWith(below, path)
        ensures CacheKey(below, query) !in ClearAll(entries, InvalidationPrefixes(path, Some(pattern)))
      {
        MutatedPathCleared(entries, path, pattern, below, query);
      }
    } else {
      NotUnderBase(path, pattern);
    }
  }

  lemma NotUnderBase(path: string, pattern: string)
    requires SomeStatic(Segments(pattern), Segments(path))
    requires !StartsWith(path, StaticBase(Segments(pattern), Segments(path)))
    ensures !ClearsBelow(path, pattern)
  {
    var ps, base := InvalidationPrefixes(path, Some(pattern)), StaticBase(Segments(pattern), Segments(path));
    var key := CacheKey(path, "");
    FirstEmitted(Segments(pattern), Segments(path), "");
    assert "" + base == base && path + "" == path;
    SameStart("GET:", path, base);
    PrefixesChain(path, Some(pattern));
    var entries: Entries := map[key := CacheEntry(CachedResponse(200, [], []), 0, 0)];
    ChainClears(entries, ps, ps);
    assert key in ClearAll(entries, ps);
    assert path[0..|path|] == path;
    assert StartsWith(path, path);
  }

  /** Such are all paths that start with a slash and have no empty segment. */
  lemma CleanPathsQualify(path: string, pattern: string)
    requires Clean(path) && SomeStatic(Segments(pattern), Segments(path))
    ensures StartsWith(path, StaticBase(Segments(pattern), Segments(path)))
  {
    var base := StaticBase(Segments(pattern), Segments(path));
    FirstEmitted(Segments(pattern), Segments(path), "");
    PrefixesOfPath(Segments(pattern), "", path);
    assert "" + path == path && "" + base == base;
    SameStart("GET:", path, base);
  }

  /** A route made only of parameters clears nothing. */
  lemma {:induction false} NothingCleared(entries: Entries, path: string, pattern: string)
    requires !SomeStatic(Segments(pattern), Segments(path))
    ensures ClearAll(entries, InvalidationPrefixes(path, Some(pattern))) == entries
  {
    NothingEmitted(Segments(pattern), Segments(path), "");
  }

  lemma {:induction false} NothingEmitted(pats: seq<string>, segs: seq<string>, current: string)
    requires !SomeStatic(pats, segs)
    ensures StaticPrefixes(pats, segs, current) == []
  {
    if pats != [] && segs != [] {
      assert !Static(pats[0]);
      forall i | 0 <= i < |pats[1..]| && i < |segs[1..]| ensures !Static(pats[1..][i]) {
        assert pats[1..][i] == pats[i + 1];
      }
      NothingEmitted(pats[1..], segs[1..], current + "/" + segs[0]);
    }
  }

  // ---------------------------------------------------------------- the prefixes, text by text

  /** A segment of a path or a route. */
  predicate SegmentText(s: string) {
    s != "" && '/' !in s
  }

  predicate SegmentTexts(segs: seq<string>) {
    forall i :: 0 <= i < |segs| ==> SegmentText(segs[i])
  }

  /** The segments, each behind a slash. */
  function PathOf(segs: seq<string>): string {
    if segs == [] then "" else "/" + segs[0] + PathOf(segs[1..])
  }

  lemma SplitFront(s: string, t: string)
    requires '/' !in s && (t == "" || t[0] == '/')
    ensures Split(s + t, '/') == [s] + Split(t, '/')[1..]
  {
    if t == "" {
      assert s + t == s;
      SplitNone(s, '/');
      SplitNone(t, '/');
    } else {
      var tail := t[1..];
      assert t == [] + ['/'] + tail && s + t == s + ['/'] + tail;
      SplitStep([], tail, '/');
      SplitStep(s, tail, '/');
    }
  }

  lemma {:induction false} SplitPath(segs: seq<string>)
    requires SegmentTexts(segs)
    ensures Split(PathOf(segs), '/') == [""] + segs
  {
    if segs == [] {
      SplitNone("", '/');
    } else {
      assert SegmentText(segs[0]) && SegmentTexts(segs[1..]);
      SplitPath(segs[1..]);
      SplitFirst(segs[0], PathOf(segs[1..]), segs[1..]);
      assert [segs[0]] + segs[1..] == segs;
    }
  }

  lemma SlashFirst(s: string)
    ensures Split("/" + s, '/') == [""] + Split(s, '/')
  {
    assert "/" + s == [] + ['/'] + s;
    SplitStep([], s, '/');
  }

  lemma SplitFirst(seg: string, rest: string, segs: seq<string>)
    requires SegmentText(seg) && (rest == "" || rest[0] == '/') && Split(rest, '/') == [""] + segs
    ensures Split("/" + seg + rest, '/') == [""] + ([seg] + segs)
  {
    SplitFront(seg, rest);
    assert ([""] + segs)[1..] == segs;
    SlashFirst(seg + rest);
    assert "/" + (seg + rest) == "/" + seg + rest;
  }

  lemma {:induction false} AllNonEmpty(segs: seq<string>)
    requires SegmentTexts(segs)
    ensures NonEmpty(segs) == segs
  {
    if segs != [] {
      assert SegmentText(segs[0]);
      AllNonEmpty(segs[1..]);
      assert [segs[0]] + segs[1..] == segs;
    }
  }

  lemma PathSegments(segs: seq<string>)
    requires SegmentTexts(segs)
    ensures Segments(PathOf(segs)) == segs
  {
    SplitPath(segs);
    assert ([""] + segs)[1..] == segs;
    AllNonEmpty(segs);
    assert [] + segs == segs;
  }

  lemma PathOfCons(segs: seq<string>, k: nat)
    requires k < |segs|
    ensures PathOf(segs[..k + 1]) == "/" + segs[0] + PathOf(segs[1..][..k])
  {
    assert segs[..k + 1][0] == segs[0] && segs[..k + 1][1..] == segs[1..][..k];
  }

  /** The prefix `p` is that of the first `k + 1` segments, behind `front`. */
  predicate PrefixAt(p: string, segs: seq<string>, k: nat, front: string) {
    k < |segs| && p == "GET:" + (front + PathOf(segs[..k + 1]))
  }

  lemma {:induction false} StaticPrefixesAre(pats: seq<string>, segs: seq<string>, front: string, p: string)
    requires SegmentTexts(pats)
    ensures p in StaticPrefixes(pats, segs, front)
       <==> exists k: nat :: k < |pats| && pats[k][0] != ':' && PrefixAt(p, segs, k, front)
  {
    if pats != [] && segs != [] {
      var next := front + "/" + segs[0];
      assert SegmentText(pats[0]) && SegmentTexts(pats[1..]);
      StaticPrefixesAre(pats[1..], segs[1..], next, p);
      PathOfCons(segs, 0);
      assert segs[1..][..0] == [] && front + ("/" + segs[0] + "") == next;
      assert |pats[0]| >= 1 && pats[0][0..1] == [pats[0][0]];
      forall k: nat | 0 < k < |segs| ensures PrefixAt(p, segs, k, front) <==> PrefixAt(p, segs[1..], k - 1, next) {
        PathOfCons(segs, k);
        assert segs[1..][..k] == segs[1..][..k - 1 + 1];
        assert front + ("/" + segs[0] + PathOf(segs[1..][..k])) == next + PathOf(segs[1..][..k]);
      }
      if k: nat :| k < |pats| && pats[k][0] != ':' && PrefixAt(p, segs, k, front) {
        if k > 0 {
          assert pats[1..][k - 1] == pats[k] && PrefixAt(p, segs[1..], k - 1, next);
        }
      }
      if k: nat :| k < |pats[1..]| && pats[1..][k][0] != ':' && PrefixAt(p, segs[1..], k, next) {
        assert pats[k + 1] == pats[1..][k] && PrefixAt(p, segs, k + 1, front);
      }
      assert p == "GET:" + next <==> PrefixAt(p, segs, 0, front);
    }
  }

  lemma {:induction false} EveryPrefixIs(segs: seq<string>, front: string, p: string)
    ensures p in EveryPrefix(segs, front) <==> exists k: nat :: PrefixAt(p, segs, k, front)
  {
    if segs != [] {
      var next := front + "/" + segs[0];
      EveryPrefixIs(segs[1..], next, p);
      PathOfCons(segs, 0);
      assert segs[1..][..0] == [] && front + ("/" + segs[0] + "") == next;
      forall k: nat | 0 < k < |segs| ensures PrefixAt(p, segs, k, front) <==> PrefixAt(p, segs[1..], k - 1, next) {
        PathOfCons(segs, k);
        assert segs[1..][..k] == segs[1..][..k - 1 + 1];
        assert front + ("/" + segs[0] + PathOf(segs[1..][..k])) == next + PathOf(segs[1..][..k]);
      }
      if k: nat :| PrefixAt(p, segs, k, front) {
        if k > 0 {
          assert PrefixAt(p, segs[1..], k - 1, next);
        }
      }
      if k: nat :| PrefixAt(p, segs[1..], k, next) {
        assert PrefixAt(p, segs, k + 1, front);
      }
      assert p == "GET:" + next <==> PrefixAt(p, segs, 0, front);
    }
  }

  /** The prefix of the first `k + 1` segments. */
  predicate UpToSegment(p: string, segs: seq<string>, k: nat) {
    k < |segs| && p == "GET:" + PathOf(segs[..k + 1])
  }

  /** PREFIXES. For a path and a route of given segments the prefixes are those of the path up to each
      segment whose place in the route is not a parameter; without a route, up to each segment. */
  lemma PrefixesAre(pats: seq<string>, segs: seq<string>, p: string)
    requires SegmentTexts(pats) && SegmentTexts(segs)
    ensures p in InvalidationPrefixes(PathOf(segs), Some(PathOf(pats)))
       <==> exists k: nat :: k < |pats| && pats[k][0] != ':' && UpToSegment(p, segs, k)
    ensures p in InvalidationPrefixes(PathOf(segs), None) <==> exists k: nat :: UpToSegment(p, segs, k)
  {
    PathSegments(pats);
    PathSegments(segs);
    StaticPrefixesAre(pats, segs, "", p);
    EveryPrefixIs(segs, "", p);
    forall k: nat ensures PrefixAt(p, segs, k, "") <==> UpToSegment(p, segs, k) {
      if k < |segs| {
        assert "" + PathOf(segs[..k + 1]) == PathOf(segs[..k + 1]);
      }
    }
  }
}
