/** Runs of requests behind the middleware: how long an answer that was stored is given out again. */
module CacheHits {
  import opened Wrappers
  import opened Text
  import opened ResponseCache
  import opened CacheLimits
  import opened CacheKeys
  import opened CacheServer
  import opened CacheSimulation
  import opened CacheAnswers

  // ---------------------------------------------------------------- timed runs

  /** A run with everything that happens in it: worlds and stores before and after each request, the
      requests, their clock readings and their answers. */
  datatype Trace<!D> = Trace(
    worlds: seq<map<string, D>>,
    stores: seq<Store>,
    reqs: seq<Request>,
    ticks: seq<Ticks>,
    resps: seq<Response>)

  predicate OnTime(t: Ticks, now: nat) {
    now <= t.g0 <= t.g1 <= t.g2 <= t.s0 <= t.s1 <= t.s2
  }

  predicate Shaped<D>(tr: Trace<D>) {
    var n := |tr.reqs|;
    |tr.worlds| == n + 1 && |tr.stores| == n + 1 && |tr.ticks| == n && |tr.resps| == n
  }

  /** The clock after the first `m` requests. */
  function ClockAt<D>(tr: Trace<D>, m: nat): nat
    requires Shaped(tr) && m <= |tr.reqs|
  {
    if m == 0 then 0 else tr.ticks[m - 1].s2
  }

  ghost predicate Happens<D(!new)>(app: App<D>, max: nat, tr: Trace<D>) {
    && Shaped(tr)
    && (forall m :: 0 <= m < |tr.reqs| ==> OneHappens(app, max, tr, m))
  }

  /** Each request takes its readings after those of the request before, and the clock has moved on. */
  ghost predicate OneHappens<D(!new)>(app: App<D>, max: nat, tr: Trace<D>, m: nat)
    requires Shaped(tr) && m < |tr.reqs|
  {
    && Handled(app, max, tr.worlds[m], tr.stores[m], tr.reqs[m], tr.ticks[m],
               tr.resps[m], tr.worlds[m + 1], tr.stores[m + 1])
    && OnTime(tr.ticks[m], ClockAt(tr, m))
    && (m > 0 ==> ClockAt(tr, m) < tr.ticks[m].s2)
  }

  /** Such a run is one of the runs that the middleware can make. */
  lemma {:induction false} HappensIsRun<D(!new)>(app: App<D>, max: nat, tr: Trace<D>, m: nat)
    requires Happens(app, max, tr) && m <= |tr.reqs|
    ensures CachedRun(app, max, tr.worlds[m], tr.stores[m], tr.reqs[m..], tr.resps[m..])
    decreases |tr.reqs| - m
  {
    if m < |tr.reqs| {
      HappensIsRun(app, max, tr, m + 1);
      assert OneHappens(app, max, tr, m);
      assert tr.reqs[m..][0] == tr.reqs[m] && tr.reqs[m..][1..] == tr.reqs[m + 1..];
      assert tr.resps[m..][0] == tr.resps[m] && tr.resps[m..][1..] == tr.resps[m + 1..];
    }
  }

  // ---------------------------------------------------------------- what one request keeps

  /** Of the live entries one has the key, no other is as old, and at most `n` are newer. */
  predicate Keeps(s: Store, now: nat, key: string, e: CacheEntry, n: nat) {
    var r := Live(s.entries, now);
    key in r && r[key] == e && Sole(r, key) && |Newer(r, e.createdAt)| <= n
  }

  lemma LiveLiveLater(entries: Entries, now: nat, later: nat)
    requires now <= later
    ensures Live(Live(entries, now), later) == Live(entries, later)
  {
    LiveLater(entries, now, later);
  }

  lemma KeepsLater(s: Store, now: nat, later: nat, key: string, e: CacheEntry, n: nat)
    requires Keeps(s, now, key, e, n) && now <= later < e.expiresAt
    ensures Keeps(s, later, key, e, n)
  {
    LiveLiveLater(s.entries, now, later);
    LiveSole(Live(s.entries, now), key, later);
  }

  lemma StepKeeps(max: nat, s: Store, now: nat, ev: Event, s': Store, key: string, e: CacheEntry, n: nat)
    requires Timed(ev, now) && Step(max, s, ev, s') && Keeps(s, now, key, e, n) && LeavesAlone(ev, key)
    requires ev.Put? ==> ev.t2 > e.createdAt && n + 1 < max
    requires Clock(ev, now) < e.expiresAt
    ensures Keeps(s', Clock(ev, now), key, e, if ev.Put? then n + 1 else n)
  {
    var r, r' := Live(s.entries, now), Live(s'.entries, Clock(ev, now));
    StepForward(max, s, now, ev, s');
    match ev {
      case Got(_, _, _, _, t2) => LiveSole(r, key, t2);
      case Put(_, _, _, _, _, _) => PutKeeps(max, r, ev, r', key);
      case Invalidated(prefix) => InvalidateKeeps(r, prefix, key);
    }
  }

  /** The key is answered while it is kept. */
  lemma KeptIsFound(max: nat, s: Store, now: nat, ticks: Ticks, key: string, e: CacheEntry, n: nat,
                    hit: Option<CachedResponse>, s1: Store)
    requires Keeps(s, now, key, e, n) && OnTime(ticks, now) && ticks.g1 < e.expiresAt
    requires Step(max, s, Got(key, hit, ticks.g0, ticks.g1, ticks.g2), s1)
    ensures hit == Some(e.response)
  {
    assert key in s.entries && s.entries[key] == e;
  }

  /** The request is a successful mutation one of whose prefixes matches the key. */
  predicate ClearsKey(req: Request, resp: Response, key: string) {
    Mutates(req.verb) && 200 <= resp.status <= 299
    && exists p :: p in InvalidationPrefixes(req.path, req.pattern) && StartsWith(key, p)
  }

  /** The answer says that it was stored. */
  predicate SaysMiss(r: Response) {
    exists i :: 0 <= i < |r.headers| && r.headers[i] == ("x-cache", "MISS")
  }

  lemma MissSays(r: Response)
    ensures SaysMiss(Missed(r))
  {
    MissedMarks(r);
  }

  lemma GetKeeps<D(!new)>(app: App<D>, max: nat, w: map<string, D>, s: Store, req: Request, ticks: Ticks,
                          resp: Response, w': map<string, D>, s': Store, now: nat, key: string, e: CacheEntry, n: nat)
    requires Handled(app, max, w, s, req, ticks, resp, w', s') && req.verb == GET && OnTime(ticks, now)
    requires Keeps(s, now, key, e, n) && e.createdAt < ticks.s2 < e.expiresAt
    requires SaysMiss(resp) ==> n + 1 < max
    ensures Keeps(s', ticks.s2, key, e, if SaysMiss(resp) then n + 1 else n)
  {
    var r, own := app.get(req.path, req.query, w), CacheKey(req.path, req.query);
    var hit, s1 :| LookedUp(max, s, own, r, ticks, hit, s1, resp, s');
    StepKeeps(max, s, now, Got(own, hit, ticks.g0, ticks.g1, ticks.g2), s1, key, e, n);
    if own == key {
      KeptIsFound(max, s, now, ticks, key, e, n, hit, s1);
    }
    if hit.None? && TtlOf(r).Some? && r.body.Bytes? {
      var put := Put(own, ToCached(r), TtlOf(r).value * TICKS_PER_SECOND, ticks.s0, ticks.s1, ticks.s2);
      MissSays(r);
      StepKeeps(max, s1, ticks.g2, put, s', key, e, n);
    } else {
      KeepsLater(s1, ticks.g2, ticks.s2, key, e, n);
    }
  }

  lemma MutationKeeps<D(!new)>(app: App<D>, max: nat, w: map<string, D>, s: Store, req: Request, ticks: Ticks,
                               resp: Response, w': map<string, D>, s': Store, now: nat, key: string,
                               e: CacheEntry, n: nat)
    requires Handled(app, max, w, s, req, ticks, resp, w', s') && req.verb != GET && OnTime(ticks, now)
    requires Keeps(s, now, key, e, n) && ticks.s2 < e.expiresAt && !ClearsKey(req, resp, key)
    ensures Keeps(s', ticks.s2, key, e, n)
  {
    KeepsLater(s, now, ticks.s2, key, e, n);
    var r, r' := Live(s.entries, ticks.s2), Live(s'.entries, ticks.s2);
    MutationClears(app, max, w, s, req, ticks, resp, w', s', key);
    assert key in r' && r'[key] == e;
    FewerNewer(r', r, key, e);
  }

  lemma FewerNewer(r': Entries, r: Entries, key: string, e: CacheEntry)
    requires key in r' && r'[key] == e && Sole(r, key) && key in r && r[key] == e
    requires forall k :: k in r' ==> k in r && r'[k] == r[k]
    ensures Sole(r', key) && |Newer(r', e.createdAt)| <= |Newer(r, e.createdAt)|
  {
    SubsetSize(Newer(r', e.createdAt), Newer(r, e.createdAt));
  }

  // ---------------------------------------------------------------- ages

  lemma RequestOlder<D(!new)>(app: App<D>, max: nat, w: map<string, D>, s: Store, req: Request, ticks: Ticks,
                              resp: Response, w': map<string, D>, s': Store, t: nat)
    requires Handled(app, max, w, s, req, ticks, resp, w', s') && OlderThan(s.entries, t) && ticks.s2 < t
    ensures OlderThan(s'.entries, t)
  {
    if req.verb.GET? {
      var r, key := app.get(req.path, req.query, w), CacheKey(req.path, req.query);
      var hit, s1 :| LookedUp(max, s, key, r, ticks, hit, s1, resp, s');
      StepOlder(max, s, Got(key, hit, ticks.g0, ticks.g1, ticks.g2), s1, t);
      if hit.None? && TtlOf(r).Some? && r.body.Bytes? {
        var put := Put(key, ToCached(r), TtlOf(r).value * TICKS_PER_SECOND, ticks.s0, ticks.s1, ticks.s2);
        StepOlder(max, s1, put, s', t);
      }
    } else {
      forall k | k in s'.entries ensures s'.entries[k].createdAt < t {
        MutationClears(app, max, w, s, req, ticks, resp, w', s', k);
      }
    }
  }

  /** In a run from an empty store every entry is older than the next set. */
  lemma {:induction false} AllOlder<D(!new)>(app: App<D>, max: nat, tr: Trace<D>, m: nat, t: nat)
    requires Happens(app, max, tr) && tr.stores[0].entries == map[] && m <= |tr.reqs|
    requires m == 0 || ClockAt(tr, m) < t
    ensures OlderThan(tr.stores[m].entries, t)
  {
    if m > 0 {
      assert OneHappens(app, max, tr, m - 1);
      AllOlder(app, max, tr, m - 1, t);
      RequestOlder(app, max, tr.worlds[m - 1], tr.stores[m - 1], tr.reqs[m - 1], tr.ticks[m - 1],
                   tr.resps[m - 1], tr.worlds[m], tr.stores[m], t);
    }
  }

  // ---------------------------------------------------------------- from the set to the hit

  /** How many of the answers from `i` up to `m` say that they were stored. */
  function MissCount(resps: seq<Response>, i: nat, m: nat): nat
    requires m <= |resps|
  {
    if m <= i then 0 else MissCount(resps, i, m - 1) + if SaysMiss(resps[m - 1]) then 1 else 0
  }

  lemma MissCountGrows(resps: seq<Response>, i: nat, m: nat, j: nat)
    requires m <= j <= |resps|
    ensures MissCount(resps, i, m) <= MissCount(resps, i, j)
    decreases j
  {
    if m < j {
      MissCountGrows(resps, i, m, j - 1);
    }
  }

  /** Just after it has been stored, an entry is the newest. */
  lemma StoredKeeps<D(!new)>(app: App<D>, max: nat, w: map<string, D>, s: Store, req: Request, ticks: Ticks,
                             resp: Response, w': map<string, D>, s': Store, now: nat, n: nat)
    requires Handled(app, max, w, s, req, ticks, resp, w', s') && req.verb == GET && OnTime(ticks, now)
    requires OlderThan(s.entries, ticks.s2) && Misses(s, CacheKey(req.path, req.query), ticks.g1)
    requires AsksFor(app.get(req.path, req.query, w), n) && app.get(req.path, req.query, w).body.Bytes?
    requires n > 0
    ensures var r, key := app.get(req.path, req.query, w), CacheKey(req.path, req.query);
      Keeps(s', ticks.s2, key, CacheEntry(ToCached(r), ticks.s2 + n * 1_000_000_000, ticks.s2), 0)
  {
    var r, key := app.get(req.path, req.query, w), CacheKey(req.path, req.query);
    var hit, s1 :| LookedUp(max, s, key, r, ticks, hit, s1, resp, s');
    GotMisses(max, s, key, hit, ticks, s1);
    AskedIff(r, n);
    var put := Put(key, ToCached(r), n * 1_000_000_000, ticks.s0, ticks.s1, ticks.s2);
    StepForward(max, s1, ticks.g2, put, s');
    AfterPut(max, Live(s1.entries, ticks.g2), put, Live(s'.entries, ticks.s2));
  }

  predicate NoneClears<D>(tr: Trace<D>, i: nat, j: nat, key: string)
    requires Shaped(tr) && j <= |tr.reqs|
  {
    forall m :: i < m < j ==> !ClearsKey(tr.reqs[m], tr.resps[m], key)
  }

  lemma {:induction false} ClockGrows<D(!new)>(app: App<D>, max: nat, tr: Trace<D>, i: nat, m: nat)
    requires Happens(app, max, tr) && i < m < |tr.reqs|
    ensures tr.ticks[i].s2 < tr.ticks[m].s2 && tr.ticks[i].s2 <= ClockAt(tr, m) <= tr.ticks[m].g1 <= tr.ticks[m].s2
    decreases m
  {
    assert OneHappens(app, max, tr, m);
    if i < m - 1 {
      ClockGrows(app, max, tr, i, m - 1);
    }
  }

  /** The entry stored by request `i` is kept up to request `j`. */
  lemma {:induction false} KeptUntil<D(!new)>(app: App<D>, max: nat, tr: Trace<D>, i: nat, j: nat, key: string,
                                              e: CacheEntry)
    requires Happens(app, max, tr) && i < j < |tr.reqs| && NoneClears(tr, i, j, key)
    requires Keeps(tr.stores[i + 1], tr.ticks[i].s2, key, e, 0) && e.createdAt == tr.ticks[i].s2
    requires ClockAt(tr, j) < e.expiresAt && MissCount(tr.resps, i + 1, j) < max
    ensures Keeps(tr.stores[j], ClockAt(tr, j), key, e, MissCount(tr.resps, i + 1, j))
    decreases j
  {
    if i + 1 < j {
      ClockGrows(app, max, tr, i, j - 1);
      MissCountGrows(tr.resps, i + 1, j - 1, j);
      KeptUntil(app, max, tr, i, j - 1, key, e);
      KeptStep(app, max, tr, i, j - 1, key, e);
    }
  }

  lemma KeptStep<D(!new)>(app: App<D>, max: nat, tr: Trace<D>, i: nat, m: nat, key: string, e: CacheEntry)
    requires Happens(app, max, tr) && i < m < |tr.reqs| && !ClearsKey(tr.reqs[m], tr.resps[m], key)
    requires Keeps(tr.stores[m], ClockAt(tr, m), key, e, MissCount(tr.resps, i + 1, m))
    requires e.createdAt < tr.ticks[m].s2 < e.expiresAt && MissCount(tr.resps, i + 1, m + 1) < max
    ensures Keeps(tr.stores[m + 1], ClockAt(tr, m + 1), key, e, MissCount(tr.resps, i + 1, m + 1))
  {
    assert OneHappens(app, max, tr, m);
    OneKeeps(app, max, tr, m, key, e, MissCount(tr.resps, i + 1, m));
  }

  lemma OneKeeps<D(!new)>(app: App<D>, max: nat, tr: Trace<D>, m: nat, key: string, e: CacheEntry, n: nat)
    requires Shaped(tr) && m < |tr.reqs| && OneHappens(app, max, tr, m)
    requires !ClearsKey(tr.reqs[m], tr.resps[m], key) && Keeps(tr.stores[m], ClockAt(tr, m), key, e, n)
    requires e.createdAt < tr.ticks[m].s2 < e.expiresAt && (SaysMiss(tr.resps[m]) ==> n + 1 < max)
    ensures Keeps(tr.stores[m + 1], tr.ticks[m].s2, key, e, if SaysMiss(tr.resps[m]) then n + 1 else n)
  {
    var more := if SaysMiss(tr.resps[m]) then n + 1 else n;
    if tr.reqs[m].verb == GET {
      GetKeeps(app, max, tr.worlds[m], tr.stores[m], tr.reqs[m], tr.ticks[m], tr.resps[m],
               tr.worlds[m + 1], tr.stores[m + 1], ClockAt(tr, m), key, e, n);
    } else {
      MutationKeeps(app, max, tr.worlds[m], tr.stores[m], tr.reqs[m], tr.ticks[m], tr.resps[m],
                    tr.worlds[m + 1], tr.stores[m + 1], ClockAt(tr, m), key, e, n);
      MoreNewer(tr.stores[m + 1], tr.ticks[m].s2, key, e, n, more);
    }
  }

  lemma MoreNewer(s: Store, now: nat, key: string, e: CacheEntry, n: nat, more: nat)
    requires Keeps(s, now, key, e, n) && n <= more
    ensures Keeps(s, now, key, e, more)
  {
  }

  /** HITS. In every run from an empty store: a GET that is not in the store and whose answer asks to be
      kept for `n` seconds is stored; any later GET of the same key, less than `n` seconds after that
      set, with fewer than `max_entries` answers stored in between and no matching mutation, is answered
      with the same status and body, marked as a hit. */
  lemma SecondGetHits<D(!new)>(app: App<D>, max: nat, tr: Trace<D>, i: nat, j: nat, n: nat)
    requires Happens(app, max, tr) && tr.stores[0].entries == map[]
    requires i < j < |tr.reqs| && tr.reqs[i].verb == GET && tr.reqs[j].verb == GET
    requires CacheKey(tr.reqs[j].path, tr.reqs[j].query) == CacheKey(tr.reqs[i].path, tr.reqs[i].query)
    requires Misses(tr.stores[i], CacheKey(tr.reqs[i].path, tr.reqs[i].query), tr.ticks[i].g1)
    requires var r := app.get(tr.reqs[i].path, tr.reqs[i].query, tr.worlds[i]);
      AsksFor(r, n) && r.body.Bytes?
    requires NoneClears(tr, i, j, CacheKey(tr.reqs[i].path, tr.reqs[i].query))
    requires MissCount(tr.resps, i + 1, j) < max
    requires tr.ticks[j].g1 < tr.ticks[i].s2 + n * 1_000_000_000
    ensures var r := app.get(tr.reqs[i].path, tr.reqs[i].query, tr.worlds[i]);
      && tr.resps[j].status == r.status && tr.resps[j].body == r.body
      && OnlyValue(tr.resps[j].headers, "x-cache", "HIT")
  {
    var req, w := tr.reqs[i], tr.worlds[i];
    var r, key := app.get(req.path, req.query, w), CacheKey(req.path, req.query);
    var e := CacheEntry(ToCached(r), tr.ticks[i].s2 + n * 1_000_000_000, tr.ticks[i].s2);
    assert OneHappens(app, max, tr, i) && OneHappens(app, max, tr, j);
    ClockGrows(app, max, tr, i, j);
    AllOlder(app, max, tr, i, tr.ticks[i].s2);
    StoredKeeps(app, max, w, tr.stores[i], req, tr.ticks[i], tr.resps[i], tr.worlds[i + 1], tr.stores[i + 1],
                ClockAt(tr, i), n);
    KeptUntil(app, max, tr, i, j, key, e);
    StoredIsHit(app, max, tr.worlds[j], tr.stores[j], tr.reqs[j], tr.ticks[j], tr.resps[j], tr.worlds[j + 1],
                tr.stores[j + 1], e);
  }
}
