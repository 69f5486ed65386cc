/** Over every sequential run, the server behind the cache middleware answers like the server
    without it. */
module CacheSimulation {
  import opened Wrappers
  import opened Text
  import opened ResponseCache
  import opened CacheKeys
  import opened CacheServer

  // ---------------------------------------------------------------- what the application owes

  function At<D>(w: map<string, D>, seg: string): Option<D> {
    if seg in w then Some(w[seg]) else None
  }

  /** A GET depends on its path, its query parameters as a multiset, and the state of its first
      path segment. */
  ghost predicate ReadsOwn<D(!new)>(app: App<D>) {
    forall p, q, q', w, w' ::
      Params(q) == Params(q') && At(w, FirstSegment(p)) == At(w', FirstSegment(p)) ==>
        app.get(p, q, w) == app.get(p, q', w')
  }

  /** Only successful mutations change the world, and only under their own first segment. */
  ghost predicate WritesOwn<D(!new)>(app: App<D>) {
    forall req: Request, w :: !req.verb.GET? ==>
      var (r, w') := app.mutate(req, w);
      if IsMutation(req.verb) && IsSuccess(r)
      then forall seg :: seg != FirstSegment(req.path) ==> At(w', seg) == At(w, seg)
      else w' == w
  }

  /** A response marked for caching has a body that can be collected. */
  ghost predicate Collects<D(!new)>(app: App<D>) {
    forall p, q, w :: TtlOf(app.get(p, q, w)).Some? ==> !app.get(p, q, w).body.Broken?
  }

  /** The path of a URI has no question mark, and a mutation is routed by a static first segment. */
  predicate Routed(req: Request) {
    && '?' !in req.path
    && (IsMutation(req.verb) ==>
          && FirstSegment(req.path) != ""
          && (req.pattern.Some? ==> FirstSegment(req.pattern.value) != "" && Static(FirstSegment(req.pattern.value))))
  }

  // ---------------------------------------------------------------- headers

  predicate Internal(name: string) {
    name == TTL_HEADER || name == STATUS_HEADER
  }

  lemma {:induction false} ValuesConcat(a: seq<(string, string)>, b: seq<(string, string)>, name: string)
    ensures Values(a + b, name) == Values(a, name) + Values(b, name)
  {
    if a == [] {
      assert a + b == b;
    } else {
      assert (a + b)[1..] == a[1..] + b;
      ValuesConcat(a[1..], b, name);
      Assoc(if a[0].0 == name then [a[0].1] else [], Values(a[1..], name), Values(b, name));
    }
  }

  lemma {:induction false} ValuesRemove(h: seq<(string, string)>, gone: string, name: string)
    ensures Values(Remove(h, gone), name) == if name == gone then [] else Values(h, name)
  {
    if h != [] {
      ValuesRemove(h[1..], gone, name);
      var head := if h[0].0 == gone then [] else [h[0]];
      ValuesConcat(head, Remove(h[1..], gone), name);
      assert [h[0]][1..] == [];
      assert Values([h[0]], name) == if h[0].0 == name then [h[0].1] else [];
    }
  }

  lemma ValuesInsert(h: seq<(string, string)>, added: string, value: string, name: string)
    ensures Values(Insert(h, added, value), name) == if name == added then [value] else Values(h, name)
  {
    ValuesRemove(h, added, name);
    ValuesConcat(Remove(h, added), [(added, value)], name);
    assert [(added, value)][1..] == [];
  }

  lemma {:induction false} ValuesText(h: seq<(string, string)>, name: string)
    ensures Values(TextHeaders(h), name) == TextsOf(Values(h, name))
  {
    if h != [] {
      ValuesText(h[1..], name);
      assert TextHeaders(h)[1..] == TextHeaders(h[1..]);
      if h[0].0 == name {
        assert Values(h, name)[1..] == Values(h[1..], name);
      } else {
        assert Values(h, name) == Values(h[1..], name);
      }
    }
  }

  lemma {:induction false} TextsVisible(values: seq<string>)
    requires forall i :: 0 <= i < |values| ==> Visible(values[i])
    ensures TextsOf(values) == values
  {
    if values != [] {
      TextsVisible(values[1..]);
    }
  }

  /** The cached server's answer to what the plain server answers: same status, same body, and for
      every other header name the same values, or on a hit those values as plain text. */
  ghost predicate Agrees(plain: Response, cached: Response) {
    && cached.status == plain.status
    && cached.body == plain.body
    && ((forall name :: !Internal(name) ==> Values(cached.headers, name) == Values(plain.headers, name))
        || (forall name :: !Internal(name) ==> Values(cached.headers, name) == TextsOf(Values(plain.headers, name))))
  }

  /** All header values are plain text, except the middleware's own. */
  predicate Textual(r: Response) {
    forall i :: 0 <= i < |r.headers| && !Internal(r.headers[i].0) ==> Visible(r.headers[i].1)
  }

  /** The same answer, but for the middleware's own headers. */
  ghost predicate SameAnswer(plain: Response, cached: Response) {
    && cached.status == plain.status
    && cached.body == plain.body
    && forall name :: !Internal(name) ==> Values(cached.headers, name) == Values(plain.headers, name)
  }

  lemma {:induction false} ValuesVisible(h: seq<(string, string)>, name: string)
    requires forall i :: 0 <= i < |h| && !Internal(h[i].0) ==> Visible(h[i].1)
    requires !Internal(name)
    ensures forall i :: 0 <= i < |Values(h, name)| ==> Visible(Values(h, name)[i])
  {
    if h != [] {
      ValuesVisible(h[1..], name);
    }
  }

  lemma TextAgrees(plain: Response, cached: Response)
    requires Agrees(plain, cached) && Textual(plain)
    ensures SameAnswer(plain, cached)
  {
    forall name | !Internal(name) ensures Values(cached.headers, name) == Values(plain.headers, name) {
      ValuesVisible(plain.headers, name);
      TextsVisible(Values(plain.headers, name));
    }
  }

  lemma HitAgrees(r: Response)
    requires r.body.Bytes?
    ensures Agrees(r, FromCache(ToCached(r)))
  {
    var kept := Remove(r.headers, TTL_HEADER);
    var hit := FromCache(ToCached(r));
    forall name | !Internal(name)
      ensures Values(hit.headers, name) == TextsOf(Values(r.headers, name))
    {
      ValuesRemove(r.headers, TTL_HEADER, name);
      ValuesText(kept, name);
      ValuesInsert(TextHeaders(kept), STATUS_HEADER, "HIT", name);
    }
  }

  lemma MissAgrees(r: Response)
    ensures Agrees(r, Missed(r))
  {
    forall name | !Internal(name)
      ensures Values(Missed(r).headers, name) == Values(r.headers, name)
    {
      ValuesRemove(r.headers, TTL_HEADER, name);
      ValuesInsert(Remove(r.headers, TTL_HEADER), STATUS_HEADER, "MISS", name);
    }
  }

  /** After a miss the two servers agree exactly when the handler's response is not cached or its
      body can be collected: a body that fails while it is collected becomes a server error. */
  lemma FetchAgreesIff(max: nat, key: string, r: Response, s: Store, ticks: Ticks, resp: Response, s': Store)
    requires Fetched(max, key, r, s, ticks, resp, s')
    ensures Agrees(r, resp) <==> TtlOf(r).None? || !r.body.Broken?
  {
    if TtlOf(r).Some? && r.body.Bytes? {
      MissAgrees(r);
    }
  }

  // ---------------------------------------------------------------- coherence

  /** What is stored for a key is what the handler would answer now to any request of that key. */
  ghost predicate Coherent<D(!new)>(app: App<D>, w: map<string, D>, entries: Entries) {
    forall p, q :: '?' !in p && CacheKey(p, q) in entries ==>
      var r := app.get(p, q, w);
      r.body.Bytes? && entries[CacheKey(p, q)].response == ToCached(r)
  }

  ghost predicate Within(a: Entries, b: Entries) {
    forall k :: k in a ==> k in b && a[k] == b[k]
  }

  lemma CoherentWithin<D(!new)>(app: App<D>, w: map<string, D>, a: Entries, b: Entries)
    requires Coherent(app, w, b) && Within(a, b)
    ensures Coherent(app, w, a)
  {
    forall p, q | '?' !in p && CacheKey(p, q) in a
      ensures var r := app.get(p, q, w); r.body.Bytes? && a[CacheKey(p, q)].response == ToCached(r)
    {
      assert CacheKey(p, q) in b;
    }
  }

  /** A read only removes entries; a set adds or replaces one. */
  lemma GetShrinks(max: nat, s: Store, key: string, hit: Option<CachedResponse>, t0: nat, t1: nat, t2: nat, s': Store)
    requires Step(max, s, Got(key, hit, t0, t1, t2), s')
    ensures Within(s'.entries, s.entries)
    ensures hit.Some? ==> key in s.entries && s.entries[key].response == hit.value
  {
  }

  lemma RoomShrinks(max: nat, before: Entries, now: nat, room: Entries)
    requires MadeRoom(max, before, now, room)
    ensures Within(room, before)
  {
  }

  lemma SetAddsOne(max: nat, s: Store, key: string, c: CachedResponse, ttl: nat, t0: nat, t1: nat, t2: nat, s': Store)
    requires Step(max, s, Put(key, c, ttl, t0, t1, t2), s')
    ensures key in s'.entries && s'.entries[key].response == c
    ensures forall k :: k in s'.entries && k != key ==> k in s.entries && s'.entries[k] == s.entries[k]
  {
    var before := Counted(s, t0).entries;
    var room :| MadeRoom(max, before, t1, room)
      && s' == Counted(s, t0).(entries := room[key := CacheEntry(c, t2 + ttl, t2)]);
    RoomShrinks(max, before, t1, room);
  }

  lemma FetchStep<D(!new)>(app: App<D>, max: nat, w: map<string, D>, req: Request, s1: Store, ticks: Ticks,
                           resp: Response, s': Store)
    requires ReadsOwn(app) && Collects(app) && '?' !in req.path && Coherent(app, w, s1.entries)
    requires Fetched(max, CacheKey(req.path, req.query), app.get(req.path, req.query, w), s1, ticks, resp, s')
    ensures Agrees(app.get(req.path, req.query, w), resp) && Coherent(app, w, s'.entries)
  {
    var r := app.get(req.path, req.query, w);
    var key := CacheKey(req.path, req.query);
    MissAgrees(r);
    if TtlOf(r).Some? && r.body.Bytes? {
      SetAddsOne(max, s1, key, ToCached(r), TtlOf(r).value * TICKS_PER_SECOND, ticks.s0, ticks.s1, ticks.s2, s');
      forall p, q | '?' !in p && CacheKey(p, q) in s'.entries
        ensures var r' := app.get(p, q, w);
          r'.body.Bytes? && s'.entries[CacheKey(p, q)].response == ToCached(r')
      {
        if CacheKey(p, q) == key {
          KeysEqual(p, q, req.path, req.query);
        }
      }
    }
  }

  lemma ReadStep<D(!new)>(app: App<D>, max: nat, w: map<string, D>, s: Store, req: Request, ticks: Ticks,
                          resp: Response, w': map<string, D>, s': Store)
    requires ReadsOwn(app) && Collects(app) && Routed(req) && req.verb.GET? && Coherent(app, w, s.entries)
    requires Handled(app, max, w, s, req, ticks, resp, w', s')
    ensures Agrees(app.get(req.path, req.query, w), resp) && Coherent(app, w', s'.entries)
  {
    var key := CacheKey(req.path, req.query);
    var hit, s1 :| LookedUp(max, s, key, app.get(req.path, req.query, w), ticks, hit, s1, resp, s');
    GetShrinks(max, s, key, hit, ticks.g0, ticks.g1, ticks.g2, s1);
    CoherentWithin(app, w, s1.entries, s.entries);
    if hit.Some? {
      HitAgrees(app.get(req.path, req.query, w));
    } else {
      FetchStep(app, max, w, req, s1, ticks, resp, s');
    }
  }

  /** A successful mutation clears every key whose handler could see the change. */
  lemma InvalidationCoherent<D(!new)>(app: App<D>, w: map<string, D>, w': map<string, D>, entries: Entries,
                                      req: Request, order: seq<string>)
    requires ReadsOwn(app) && Routed(req) && IsMutation(req.verb) && Coherent(app, w, entries)
    requires forall seg :: seg != FirstSegment(req.path) ==> At(w', seg) == At(w, seg)
    requires multiset(order) == multiset(InvalidationPrefixes(req.path, req.pattern))
    ensures Coherent(app, w', ClearAll(entries, order))
  {
    var prefixes := InvalidationPrefixes(req.path, req.pattern);
    var seg := FirstSegment(req.path);
    FirstPrefix(req.path, req.pattern);
    PrefixesChain(req.path, req.pattern);
    ChainClears(entries, prefixes, order);
    var left := ClearAll(entries, order);
    forall p, q | '?' !in p && CacheKey(p, q) in left
      ensures var r := app.get(p, q, w'); r.body.Bytes? && left[CacheKey(p, q)].response == ToCached(r)
    {
      if FirstSegment(p) == seg {
        KeyUnderSegment(p, q);
      }
      assert FirstSegment(p) != seg;
      assert app.get(p, q, w') == app.get(p, q, w);
    }
  }

  lemma WriteStep<D(!new)>(app: App<D>, max: nat, w: map<string, D>, s: Store, req: Request, ticks: Ticks,
                           resp: Response, w': map<string, D>, s': Store)
    requires ReadsOwn(app) && WritesOwn(app) && Routed(req) && !req.verb.GET? && Coherent(app, w, s.entries)
    requires Handled(app, max, w, s, req, ticks, resp, w', s')
    ensures Coherent(app, w', s'.entries)
  {
    var (r, w2) := app.mutate(req, w);
    if IsMutation(req.verb) && IsSuccess(r) {
      var order :|
        && multiset(order) == multiset(InvalidationPrefixes(req.path, req.pattern))
        && s' == s.(entries := ClearAll(s.entries, order));
      InvalidationCoherent(app, w, w', s.entries, req, order);
    }
  }

  // ---------------------------------------------------------------- runs

  /** The server without the middleware. */
  function PlainStep<D(!new)>(app: App<D>, w: map<string, D>, req: Request): (Response, map<string, D>) {
    if req.verb.GET? then (app.get(req.path, req.query, w), w) else app.mutate(req, w)
  }

  function PlainRun<D(!new)>(app: App<D>, w: map<string, D>, reqs: seq<Request>): (r: seq<Response>)
    ensures |r| == |reqs|
    decreases |reqs|
  {
    if reqs == [] then []
    else
      var (resp, w') := PlainStep(app, w, reqs[0]);
      [resp] + PlainRun(app, w', reqs[1..])
  }

  /** The answers the server behind the middleware can give, one request after another, whatever
      the clock reads and whichever entries it evicts. */
  ghost predicate CachedRun<D(!new)>(app: App<D>, max: nat, w: map<string, D>, s: Store, reqs: seq<Request>,
                                     resps: seq<Response>)
    decreases |reqs|
  {
    if reqs == [] then resps == []
    else
      resps != [] && exists ticks, w', s' ::
        Handled(app, max, w, s, reqs[0], ticks, resps[0], w', s')
        && CachedRun(app, max, w', s', reqs[1..], resps[1..])
  }

  predicate AllRouted(reqs: seq<Request>) {
    forall i :: 0 <= i < |reqs| ==> Routed(reqs[i])
  }

  ghost predicate AllAgree(plain: seq<Response>, cached: seq<Response>) {
    |plain| == |cached| && forall i :: 0 <= i < |plain| ==> Agrees(plain[i], cached[i])
  }

  lemma OneRequest<D(!new)>(app: App<D>, max: nat, w: map<string, D>, s: Store, req: Request, ticks: Ticks,
                            resp: Response, w': map<string, D>, s': Store)
    requires ReadsOwn(app) && WritesOwn(app) && Collects(app) && Routed(req) && Coherent(app, w, s.entries)
    requires Handled(app, max, w, s, req, ticks, resp, w', s')
    ensures var (r, w2) := PlainStep(app, w, req);
      Agrees(r, resp) && w2 == w'
    ensures Coherent(app, w', s'.entries)
  {
    if req.verb.GET? {
      ReadStep(app, max, w, s, req, ticks, resp, w', s');
    } else {
      WriteStep(app, max, w, s, req, ticks, resp, w', s');
    }
  }

  lemma AgreeCons(plain: seq<Response>, r: Response, resps: seq<Response>)
    requires resps != [] && Agrees(r, resps[0]) && AllAgree(plain, resps[1..])
    ensures AllAgree([r] + plain, resps)
  {
    forall i | 0 <= i < |resps| ensures Agrees(([r] + plain)[i], resps[i]) {
      if i > 0 {
        assert Agrees(plain[i - 1], resps[1..][i - 1]);
      }
    }
  }

  /** SIMULATION. Every answer of the cached server agrees with the plain server's answer. */
  lemma {:induction false} CacheIsTransparent<D(!new)>(
      app: App<D>, max: nat, w: map<string, D>, s: Store, reqs: seq<Request>, resps: seq<Response>)
    requires ReadsOwn(app) && WritesOwn(app) && Collects(app) && AllRouted(reqs)
    requires Coherent(app, w, s.entries) && CachedRun(app, max, w, s, reqs, resps)
    ensures AllAgree(PlainRun(app, w, reqs), resps)
    decreases |reqs|
  {
    if reqs != [] {
      var ticks, w', s' :|
        Handled(app, max, w, s, reqs[0], ticks, resps[0], w', s')
        && CachedRun(app, max, w', s', reqs[1..], resps[1..]);
      assert Routed(reqs[0]) && AllRouted(reqs[1..]);
      OneRequest(app, max, w, s, reqs[0], ticks, resps[0], w', s');
      CacheIsTransparent(app, max, w', s', reqs[1..], resps[1..]);
      AgreeCons(PlainRun(app, w', reqs[1..]), PlainStep(app, w, reqs[0]).0, resps);
    }
  }

  /** Wherever the plain server's header values are plain text, the answers are the same, hits included. */
  lemma TextAnswersAreSame<D(!new)>(
      app: App<D>, max: nat, w: map<string, D>, s: Store, reqs: seq<Request>, resps: seq<Response>, i: nat)
    requires ReadsOwn(app) && WritesOwn(app) && Collects(app) && AllRouted(reqs)
    requires Coherent(app, w, s.entries) && CachedRun(app, max, w, s, reqs, resps)
    requires i < |reqs| && Textual(PlainRun(app, w, reqs)[i])
    ensures |resps| == |reqs| && SameAnswer(PlainRun(app, w, reqs)[i], resps[i])
  {
    CacheIsTransparent(app, max, w, s, reqs, resps);
    TextAgrees(PlainRun(app, w, reqs)[i], resps[i]);
  }

  /** A cache that starts empty is coherent with any world. */
  lemma FreshCacheIsTransparent<D(!new)>(
      app: App<D>, max: nat, w: map<string, D>, reqs: seq<Request>, resps: seq<Response>)
    requires ReadsOwn(app) && WritesOwn(app) && Collects(app) && AllRouted(reqs)
    requires CachedRun(app, max, w, Store(map[], 0), reqs, resps)
    ensures AllAgree(PlainRun(app, w, reqs), resps)
  {
    CacheIsTransparent(app, max, w, Store(map[], 0), reqs, resps);
  }
}
