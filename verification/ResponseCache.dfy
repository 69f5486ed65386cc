/** The in-memory response cache (rapina/src/cache.rs): a bounded map with expiry times, swept
    now and then, that must answer like a map which forgets an entry the instant it expires. */
module ResponseCache {
  import opened Wrappers
  import opened Text

  newtype byte = x: int | 0 <= x < 256

  datatype CachedResponse = CachedResponse(status: nat, headers: seq<(string, string)>, body: seq<byte>)

  /** Instants and durations are counted in clock ticks. */
  datatype CacheEntry = CacheEntry(response: CachedResponse, expiresAt: nat, createdAt: nat)

  type Entries = map<string, CacheEntry>

  const CLEANUP_INTERVAL: nat := 1000

  function Live(entries: Entries, now: nat): (r: Entries)
    ensures r.Keys <= entries.Keys
    ensures forall k :: k in entries ==> (k in r <==> entries[k].expiresAt > now)
    ensures forall k :: k in r ==> r[k] == entries[k]
  {
    map k | k in entries && entries[k].expiresAt > now :: entries[k]
  }

  function WithoutPrefix(entries: Entries, prefix: string): Entries {
    map k | k in entries && !StartsWith(k, prefix) :: entries[k]
  }

  predicate Oldest(entries: Entries, key: string) {
    key in entries && forall k :: k in entries ==> entries[key].createdAt <= entries[k].createdAt
  }

  lemma OldestExists(entries: Entries)
    requires |entries| > 0
    ensures exists k :: Oldest(entries, k)
  {
    var k :| k in entries;
    var rest := entries - {k};
    assert forall j :: j in entries ==> j == k || j in rest;
    if |rest| == 0 {
      assert rest == map[];
      assert Oldest(entries, k);
    } else {
      OldestExists(rest);
      var o :| Oldest(rest, o);
      var m := if entries[k].createdAt < entries[o].createdAt then k else o;
      assert Oldest(entries, m);
    }
  }

  // ---------------------------------------------------------------- one call as a step

  datatype Store = Store(entries: Entries, opCount: nat)

  /** One call with the clock readings it takes, in order: for `get` those of the periodic sweep,
      of the lookup and of the removal; for `set` those of the periodic sweep, of the sweep that
      makes room and of the insertion. */
  datatype Event =
    | Got(key: string, result: Option<CachedResponse>, t0: nat, t1: nat, t2: nat)
    | Put(key: string, response: CachedResponse, ttl: nat, t0: nat, t1: nat, t2: nat)
    | Invalidated(prefix: string)

  predicate Timed(ev: Event, now: nat) {
    ev.Invalidated? || now <= ev.t0 <= ev.t1 <= ev.t2
  }

  function Clock(ev: Event, now: nat): nat {
    if ev.Invalidated? then now else ev.t2
  }

  function Counted(s: Store, now: nat): Store {
    Store(
      if s.opCount > 0 && s.opCount % CLEANUP_INTERVAL == 0 then Live(s.entries, now) else s.entries,
      (s.opCount + 1) % U64)
  }

  /** Eviction among live entries: which of several equally old ones goes is not fixed. */
  ghost predicate Evicted(max: nat, live: Entries, after: Entries) {
    if |live| < max || |live| == 0 then after == live
    else exists victim :: Oldest(live, victim) && after == live - {victim}
  }

  /** What `evict_if_full` may leave. */
  ghost predicate MadeRoom(max: nat, before: Entries, now: nat, after: Entries) {
    if |before| < max then after == before else Evicted(max, Live(before, now), after)
  }

  function Found(entries: Entries, key: string, now: nat): Option<CachedResponse> {
    if key in entries && entries[key].expiresAt > now then Some(entries[key].response) else None
  }

  ghost predicate Step(max: nat, s: Store, ev: Event, s': Store) {
    match ev
    case Got(key, result, t0, t1, t2) =>
      var c := Counted(s, t0);
      && result == Found(c.entries, key, t1)
      && s' == c.(entries :=
                    if result == None && key in c.entries && c.entries[key].expiresAt <= t2
                    then c.entries - {key} else c.entries)
    case Put(key, response, ttl, t0, t1, t2) =>
      var c := Counted(s, t0);
      exists room ::
        && MadeRoom(max, c.entries, t1, room)
        && s' == c.(entries := room[key := CacheEntry(response, t2 + ttl, t2)])
    case Invalidated(prefix) => s' == s.(entries := WithoutPrefix(s.entries, prefix))
  }

  // ---------------------------------------------------------------- the cache itself

  class InMemoryCache {
    const maxEntries: nat
    var entries: Entries
    var opCount: nat

    ghost function State(): Store
      reads this
    {
      Store(entries, opCount)
    }

    constructor (maxEntries: nat)
      ensures this.maxEntries == maxEntries && State() == Store(map[], 0)
    {
      this.maxEntries := maxEntries;
      entries := map[];
      opCount := 0;
    }

    method CleanupExpired(now: nat)
      modifies this`entries
      ensures entries == Live(old(entries), now)
    {
      entries := map k | k in entries && entries[k].expiresAt > now :: entries[k];
    }

    method MaybeCleanup(now: nat)
      modifies this
      ensures State() == Counted(old(State()), now)
    {
      var count := opCount;
      opCount := (opCount + 1) % U64;
      if count > 0 && count % CLEANUP_INTERVAL == 0 {
        CleanupExpired(now);
      }
    }

    method EvictIfFull(now: nat)
      modifies this`entries
      ensures MadeRoom(maxEntries, old(entries), now, entries)
    {
      if |entries| < maxEntries {
        return;
      }
      CleanupExpired(now);
      if |entries| < maxEntries {
        return;
      }
      if |entries| > 0 {
        ghost var live := entries;
        OldestExists(entries);
        var oldest :| Oldest(entries, oldest);
        entries := entries - {oldest};
        assert entries == live - {oldest} && Oldest(live, oldest);
      }
    }

    method Get(key: string, sweepNow: nat, readNow: nat, removeNow: nat) returns (result: Option<CachedResponse>)
      modifies this
      ensures Step(maxEntries, old(State()), Got(key, result, sweepNow, readNow, removeNow), State())
    {
      MaybeCleanup(sweepNow);
      result := if key in entries && entries[key].expiresAt > readNow then Some(entries[key].response) else None;
      if result == None {
        if key in entries && entries[key].expiresAt <= removeNow {
          entries := entries - {key};
        }
      }
    }

    method Set(key: string, response: CachedResponse, ttl: nat, sweepNow: nat, evictNow: nat, insertNow: nat)
      modifies this
      ensures Step(maxEntries, old(State()), Put(key, response, ttl, sweepNow, evictNow, insertNow), State())
    {
      MaybeCleanup(sweepNow);
      EvictIfFull(evictNow);
      ghost var room := entries;
      assert MadeRoom(maxEntries, Counted(old(State()), sweepNow).entries, evictNow, room);
      entries := entries[key := CacheEntry(response, insertNow + ttl, insertNow)];
      assert State()
          == Counted(old(State()), sweepNow).(entries := room[key := CacheEntry(response, insertNow + ttl, insertNow)]);
    }

    method InvalidatePrefix(prefix: string)
      modifies this`entries
      ensures Step(maxEntries, old(State()), Invalidated(prefix), State())
    {
      entries := map k | k in entries && !StartsWith(k, prefix) :: entries[k];
    }
  }

  // ---------------------------------------------------------------- the map it stands for

  /** The reference drops an entry the instant it expires and, when full, evicts an oldest one.
      It has no sweeps, no removal on access and no operation counter. */
  ghost predicate RefStep(max: nat, r: Entries, ev: Event, r': Entries) {
    match ev
    case Got(key, result, _, t1, t2) =>
      && result == (if key in Live(r, t1) then Some(r[key].response) else None)
      && r' == Live(r, t2)
    case Put(key, response, ttl, _, t1, t2) =>
      exists room ::
        && Evicted(max, Live(r, t1), room)
        && r' == Live(room[key := CacheEntry(response, t2 + ttl, t2)], t2)
    case Invalidated(prefix) => r' == WithoutPrefix(r, prefix)
  }

  lemma LiveLater(entries: Entries, now: nat, later: nat)
    requires now <= later
    ensures Live(Live(entries, now), later) == Live(entries, later)
  {
  }

  lemma LiveFewer(entries: Entries, now: nat)
    ensures |Live(entries, now)| <= |entries|
  {
    Fewer(Live(entries, now), entries);
  }

  lemma Fewer(a: Entries, b: Entries)
    requires a.Keys <= b.Keys
    ensures |a| <= |b|
  {
    assert b.Keys == a.Keys + (b.Keys - a.Keys);
    assert |a.Keys| + |b.Keys - a.Keys| == |b.Keys|;
    assert |a| == |a.Keys| && |b| == |b.Keys|;
  }

  lemma LiveCounted(s: Store, now: nat, later: nat)
    requires now <= later
    ensures Live(Counted(s, now).entries, later) == Live(s.entries, later)
  {
    LiveLater(s.entries, now, later);
  }

  lemma LiveInsert(room: Entries, key: string, e: CacheEntry, now: nat, later: nat)
    requires now <= later
    ensures Live(Live(room, now)[key := e], later) == Live(room[key := e], later)
  {
  }

  /** Room made in the store is eviction in the reference. */
  lemma RoomForward(max: nat, before: Entries, now: nat, room: Entries)
    requires MadeRoom(max, before, now, room)
    ensures Evicted(max, Live(before, now), Live(room, now))
  {
    LiveFewer(before, now);
    var live := Live(before, now);
    assert forall k :: k in live ==> live[k].expiresAt > now;
    if |before| >= max {
      assert Live(room, now) == room;
    }
  }

  lemma RoomBackward(max: nat, before: Entries, now: nat, kept: Entries) returns (room: Entries)
    requires Evicted(max, Live(before, now), kept)
    ensures MadeRoom(max, before, now, room) && Live(room, now) == kept
  {
    LiveFewer(before, now);
    var live := Live(before, now);
    assert forall k :: k in live ==> live[k].expiresAt > now;
    room := if |before| < max then before else kept;
    if |before| >= max {
      assert Live(room, now) == room;
    }
  }

  /** At every later reading, the store after its sweep and the reference hold the same. */
  lemma SameLive(s: Store, now: nat, t0: nat, t: nat)
    requires now <= t0 <= t
    ensures Live(Counted(s, t0).entries, t) == Live(Live(s.entries, now), t)
  {
    LiveCounted(s, t0, t);
    LiveLater(s.entries, now, t);
  }

  lemma LookupLive(entries: Entries, r: Entries, key: string, now: nat)
    requires Live(entries, now) == Live(r, now)
    ensures Found(entries, key, now) == if key in Live(r, now) then Some(r[key].response) else None
  {
    assert key in Live(entries, now) <==> key in Live(r, now);
  }

  lemma RemovedExpired(entries: Entries, key: string, now: nat)
    requires key in entries && entries[key].expiresAt <= now
    ensures Live(entries - {key}, now) == Live(entries, now)
  {
  }

  lemma GotStep(max: nat, s: Store, now: nat, ev: Event, s': Store)
    requires ev.Got? && Timed(ev, now) && Step(max, s, ev, s')
    ensures Live(s'.entries, ev.t2) == Live(Live(s.entries, now), ev.t2)
    ensures ev.result == if ev.key in Live(Live(s.entries, now), ev.t1) then Some(s.entries[ev.key].response) else None
  {
    var c := Counted(s, ev.t0);
    SameLive(s, now, ev.t0, ev.t1);
    SameLive(s, now, ev.t0, ev.t2);
    LookupLive(c.entries, Live(s.entries, now), ev.key, ev.t1);
    if ev.result == None && ev.key in c.entries && c.entries[ev.key].expiresAt <= ev.t2 {
      RemovedExpired(c.entries, ev.key, ev.t2);
    }
  }

  /** Every step of the store is a step of the reference on the live entries. */
  lemma StepForward(max: nat, s: Store, now: nat, ev: Event, s': Store)
    requires Timed(ev, now) && Step(max, s, ev, s')
    ensures RefStep(max, Live(s.entries, now), ev, Live(s'.entries, Clock(ev, now)))
  {
    match ev
    case Got(_, _, _, _, _) => GotStep(max, s, now, ev, s');
    case Put(_, _, _, _, _, _) => PutForward(max, s, now, ev, s');
    case Invalidated(prefix) =>
      assert Live(s'.entries, now) == WithoutPrefix(Live(s.entries, now), prefix);
  }

  lemma PutForward(max: nat, s: Store, now: nat, ev: Event, s': Store)
    requires ev.Put? && Timed(ev, now) && Step(max, s, ev, s')
    ensures RefStep(max, Live(s.entries, now), ev, Live(s'.entries, ev.t2))
  {
    var c := Counted(s, ev.t0);
    var e := CacheEntry(ev.response, ev.t2 + ev.ttl, ev.t2);
    var room :| MadeRoom(max, c.entries, ev.t1, room) && s' == c.(entries := room[ev.key := e]);
    SameLive(s, now, ev.t0, ev.t1);
    RoomForward(max, c.entries, ev.t1, room);
    LiveInsert(room, ev.key, e, ev.t1, ev.t2);
  }

  /** Every step of the reference can be made by the store. */
  lemma StepBackward(max: nat, s: Store, now: nat, ev: Event, r': Entries) returns (s': Store)
    requires Timed(ev, now) && RefStep(max, Live(s.entries, now), ev, r')
    ensures Step(max, s, ev, s') && Live(s'.entries, Clock(ev, now)) == r'
  {
    match ev
    case Got(key, result, t0, t1, t2) =>
      var c := Counted(s, t0);
      SameLive(s, now, t0, t1);
      LookupLive(c.entries, Live(s.entries, now), key, t1);
      s' := c.(entries := if result == None && key in c.entries && c.entries[key].expiresAt <= t2
                          then c.entries - {key} else c.entries);
      GotStep(max, s, now, ev, s');
    case Put(_, _, _, _, _, _) =>
      s' := PutBackward(max, s, now, ev, r');
    case Invalidated(prefix) =>
      s' := s.(entries := WithoutPrefix(s.entries, prefix));
      assert Live(s'.entries, now) == WithoutPrefix(Live(s.entries, now), prefix);
  }

  lemma PutBackward(max: nat, s: Store, now: nat, ev: Event, r': Entries) returns (s': Store)
    requires ev.Put? && Timed(ev, now) && RefStep(max, Live(s.entries, now), ev, r')
    ensures Step(max, s, ev, s') && Live(s'.entries, ev.t2) == r'
  {
    var c := Counted(s, ev.t0);
    var e := CacheEntry(ev.response, ev.t2 + ev.ttl, ev.t2);
    var kept :| Evicted(max, Live(Live(s.entries, now), ev.t1), kept) && r' == Live(kept[ev.key := e], ev.t2);
    SameLive(s, now, ev.t0, ev.t1);
    var room := RoomBackward(max, c.entries, ev.t1, kept);
    LiveInsert(room, ev.key, e, ev.t1, ev.t2);
    s' := c.(entries := room[ev.key := e]);
  }

  // ---------------------------------------------------------------- runs

  /** The calls and answers that can be observed, one after another, on a non-decreasing clock. */
  ghost predicate Runs(max: nat, s: Store, now: nat, evs: seq<Event>)
    decreases |evs|
  {
    evs == [] ||
    (Timed(evs[0], now) && exists s' :: Step(max, s, evs[0], s') && Runs(max, s', Clock(evs[0], now), evs[1..]))
  }

  ghost predicate RefRuns(max: nat, r: Entries, now: nat, evs: seq<Event>)
    decreases |evs|
  {
    evs == [] ||
    (Timed(evs[0], now) && exists r' :: RefStep(max, r, evs[0], r') && RefRuns(max, r', Clock(evs[0], now), evs[1..]))
  }

  /** REFINEMENT. The store and the reference allow exactly the same calls and answers: the
      periodic sweep, the removal on access and the sweep before eviction cannot be observed. */
  lemma {:induction false} SameRuns(max: nat, s: Store, now: nat, evs: seq<Event>)
    ensures Runs(max, s, now, evs) <==> RefRuns(max, Live(s.entries, now), now, evs)
    decreases |evs|
  {
    if evs != [] && Timed(evs[0], now) {
      var ev, r, later := evs[0], Live(s.entries, now), Clock(evs[0], now);
      if Runs(max, s, now, evs) {
        var s' :| Step(max, s, ev, s') && Runs(max, s', later, evs[1..]);
        StepForward(max, s, now, ev, s');
        SameRuns(max, s', later, evs[1..]);
      }
      if RefRuns(max, r, now, evs) {
        var r' :| RefStep(max, r, ev, r') && RefRuns(max, r', later, evs[1..]);
        var s' := StepBackward(max, s, now, ev, r');
        SameRuns(max, s', later, evs[1..]);
      }
    }
  }
}
