/** How large the response cache gets and how long it keeps an entry. */
module CacheLimits {
  import opened Wrappers
  import opened Text
  import opened ResponseCache

  // ---------------------------------------------------------------- capacity

  /** The stores that a run of calls can lead to. */
  ghost predicate Reaches(max: nat, s: Store, now: nat, evs: seq<Event>, last: Store)
    decreases |evs|
  {
    if evs == [] then last == s
    else
      Timed(evs[0], now) &&
      exists s' :: Step(max, s, evs[0], s') && Reaches(max, s', Clock(evs[0], now), evs[1..], last)
  }

  function Bound(max: nat): nat {
    if max == 0 then 1 else max
  }

  lemma EvictedFits(max: nat, live: Entries, room: Entries)
    requires Evicted(max, live, room) && |live| <= Bound(max)
    ensures |room| < Bound(max)
  {
    if |live| >= max && |live| > 0 {
      var victim :| Oldest(live, victim) && room == live - {victim};
      assert room.Keys == live.Keys - {victim};
      assert |room.Keys| == |live.Keys| - 1;
      assert |room| == |room.Keys| && |live| == |live.Keys|;
    }
  }

  lemma InsertFits(room: Entries, key: string, e: CacheEntry)
    ensures |room[key := e]| <= |room| + 1
  {
    var m := room[key := e];
    assert m.Keys == room.Keys + {key};
    assert |m| == |m.Keys| && |room| == |room.Keys|;
  }

  lemma StepFits(max: nat, s: Store, now: nat, ev: Event, s': Store)
    requires Timed(ev, now) && Step(max, s, ev, s')
    requires |s.entries| <= Bound(max)
    ensures |s'.entries| <= Bound(max)
  {
    match ev
    case Got(key, result, t0, t1, t2) =>
      LiveFewer(s.entries, t0);
      Fewer(s'.entries, Counted(s, t0).entries);
    case Put(key, response, ttl, t0, t1, t2) =>
      var c := Counted(s, t0);
      LiveFewer(s.entries, t0);
      var e := CacheEntry(response, t2 + ttl, t2);
      var room :| MadeRoom(max, c.entries, t1, room) && s' == c.(entries := room[key := e]);
      LiveFewer(c.entries, t1);
      if |c.entries| >= max {
        EvictedFits(max, Live(c.entries, t1), room);
      }
      InsertFits(room, key, e);
    case Invalidated(prefix) =>
      Fewer(s'.entries, s.entries);
  }

  /** CAPACITY. A cache that starts empty never holds more than `max_entries` entries, or one
      when `max_entries` is zero. */
  lemma {:induction false} RunFits(max: nat, s: Store, now: nat, evs: seq<Event>, last: Store)
    requires Reaches(max, s, now, evs, last) && |s.entries| <= Bound(max)
    ensures |last.entries| <= Bound(max)
    decreases |evs|
  {
    if evs != [] {
      var s' :| Step(max, s, evs[0], s') && Reaches(max, s', Clock(evs[0], now), evs[1..], last);
      StepFits(max, s, now, evs[0], s');
      RunFits(max, s', Clock(evs[0], now), evs[1..], last);
    }
  }

  // ---------------------------------------------------------------- retention

  function Puts(evs: seq<Event>): nat {
    if evs == [] then 0 else (if evs[0].Put? then 1 else 0) + Puts(evs[1..])
  }

  /** The event neither overwrites the key nor invalidates it. */
  predicate LeavesAlone(ev: Event, key: string) {
    match ev
    case Got(_, _, _, _, _) => true
    case Put(k, _, _, _, _, _) => k != key
    case Invalidated(prefix) => !StartsWith(key, prefix)
  }

  predicate AllLeaveAlone(evs: seq<Event>, key: string) {
    forall i :: 0 <= i < |evs| ==> LeavesAlone(evs[i], key)
  }

  predicate PutsAfter(evs: seq<Event>, created: nat) {
    forall i :: 0 <= i < |evs| && evs[i].Put? ==> evs[i].t2 > created
  }

  function Newer(r: Entries, created: nat): set<string> {
    set k | k in r && r[k].createdAt > created
  }

  /** No other entry has the creation time of this one. */
  predicate Sole(r: Entries, key: string) {
    key in r && forall k :: k in r && k != key ==> r[k].createdAt != r[key].createdAt
  }

  lemma SubsetSize<T>(a: set<T>, b: set<T>)
    requires a <= b
    ensures |a| <= |b|
  {
    assert b == a + (b - a);
    assert |b| == |a| + |b - a|;
  }

  /** With fewer newer entries than other entries, some other entry is older. */
  lemma SomeOlder(live: Entries, key: string)
    requires Sole(live, key) && |Newer(live, live[key].createdAt)| + 1 < |live|
    ensures exists k :: k in live && live[k].createdAt < live[key].createdAt
  {
    var newer := Newer(live, live[key].createdAt);
    var others := live.Keys - {key};
    var older := others - newer;
    assert |others| == |live.Keys| - 1 && |live| == |live.Keys|;
    assert others <= newer + older;
    SubsetSize(others, newer + older);
    assert |newer + older| <= |newer| + |older|;
    var k :| k in older;
    assert live[k].createdAt < live[key].createdAt;
  }

  lemma NotTheVictim(max: nat, live: Entries, room: Entries, key: string)
    requires Evicted(max, live, room) && Sole(live, key)
    requires |Newer(live, live[key].createdAt)| + 1 < max
    ensures key in room && room[key] == live[key]
    ensures Sole(room, key) && Newer(room, room[key].createdAt) <= Newer(live, live[key].createdAt)
  {
    if |live| >= max && |live| > 0 {
      SomeOlder(live, key);
      assert !Oldest(live, key);
    }
  }

  lemma LiveSole(r: Entries, key: string, now: nat)
    requires Sole(r, key) && key in Live(r, now)
    ensures Sole(Live(r, now), key)
    ensures |Newer(Live(r, now), r[key].createdAt)| <= |Newer(r, r[key].createdAt)|
  {
    SubsetSize(Newer(Live(r, now), r[key].createdAt), Newer(r, r[key].createdAt));
  }

  lemma PutKeeps(max: nat, r: Entries, ev: Event, r': Entries, key: string)
    requires RefStep(max, r, ev, r') && ev.Put? && ev.key != key
    requires Sole(r, key) && ev.t2 > r[key].createdAt && ev.t1 <= ev.t2
    requires |Newer(r, r[key].createdAt)| + 1 < max
    ensures key in r' <==> r[key].expiresAt > ev.t2
    ensures key in r' ==>
              && r'[key] == r[key] && Sole(r', key)
              && |Newer(r', r[key].createdAt)| <= |Newer(r, r[key].createdAt)| + 1
  {
    var e := CacheEntry(ev.response, ev.t2 + ev.ttl, ev.t2);
    var live := Live(r, ev.t1);
    var room :| Evicted(max, live, room) && r' == Live(room[ev.key := e], ev.t2);
    var c := r[key].createdAt;
    if key in live {
      LiveSole(r, key, ev.t1);
      NotTheVictim(max, live, room, key);
      assert Newer(r', c) <= Newer(room, c) + {ev.key};
      SubsetSize(Newer(r', c), Newer(room, c) + {ev.key});
      SubsetSize(Newer(room, c), Newer(live, c));
    } else {
      assert key !in room;
    }
  }

  lemma InvalidateKeeps(r: Entries, prefix: string, key: string)
    requires Sole(r, key) && !StartsWith(key, prefix)
    ensures var r' := WithoutPrefix(r, prefix);
      key in r' && r'[key] == r[key] && Sole(r', key)
      && |Newer(r', r[key].createdAt)| <= |Newer(r, r[key].createdAt)|
  {
    SubsetSize(Newer(WithoutPrefix(r, prefix), r[key].createdAt), Newer(r, r[key].createdAt));
  }

  lemma StepAbsent(max: nat, r: Entries, ev: Event, r': Entries, key: string)
    requires RefStep(max, r, ev, r') && LeavesAlone(ev, key) && key !in r
    ensures key !in r'
  {
    match ev
    case Got(_, _, _, _, _) =>
    case Put(k, response, ttl, _, t1, t2) =>
      var room :| Evicted(max, Live(r, t1), room)
        && r' == Live(room[k := CacheEntry(response, t2 + ttl, t2)], t2);
    case Invalidated(_) =>
  }

  lemma {:induction false} RefAbsent(max: nat, r: Entries, now: nat, evs: seq<Event>, get: Event)
    requires get.Got? && RefRuns(max, r, now, evs + [get])
    requires AllLeaveAlone(evs, get.key) && get.key !in r
    ensures get.result == None
    decreases |evs|
  {
    var all := evs + [get];
    var r' :| RefStep(max, r, all[0], r') && RefRuns(max, r', Clock(all[0], now), all[1..]);
    if evs != [] {
      assert all[1..] == evs[1..] + [get];
      assert LeavesAlone(evs[0], get.key) && AllLeaveAlone(evs[1..], get.key);
      StepAbsent(max, r, evs[0], r', get.key);
      RefAbsent(max, r', Clock(evs[0], now), evs[1..], get);
    }
  }

  lemma {:induction false} RefRetains(max: nat, r: Entries, now: nat, evs: seq<Event>, get: Event)
    requires get.Got? && RefRuns(max, r, now, evs + [get])
    requires AllLeaveAlone(evs, get.key) && Sole(r, get.key) && PutsAfter(evs, r[get.key].createdAt)
    requires |Newer(r, r[get.key].createdAt)| + Puts(evs) < max
    ensures get.result == if r[get.key].expiresAt > get.t1 then Some(r[get.key].response) else None
    decreases |evs|
  {
    var all, key := evs + [get], get.key;
    var ev := all[0];
    var later := Clock(ev, now);
    var r' :| RefStep(max, r, ev, r') && RefRuns(max, r', later, all[1..]);
    if evs != [] {
      assert all[1..] == evs[1..] + [get];
      assert LeavesAlone(ev, key) && AllLeaveAlone(evs[1..], key) && PutsAfter(evs[1..], r[key].createdAt);
      if ev.Got? {
        if key in r' {
          LiveSole(r, key, ev.t2);
        }
      } else if ev.Put? {
        PutKeeps(max, r, ev, r', key);
      } else {
        InvalidateKeeps(r, ev.prefix, key);
      }
      if key in r' {
        RefRetains(max, r', later, evs[1..], get);
      } else {
        LaterRead(max, r', later, evs[1..], get);
        RefAbsent(max, r', later, evs[1..], get);
      }
    }
  }

  /** The clock of a later read is at least the present one. */
  lemma {:induction false} LaterRead(max: nat, r: Entries, now: nat, evs: seq<Event>, get: Event)
    requires get.Got? && RefRuns(max, r, now, evs + [get])
    ensures now <= get.t1
    decreases |evs|
  {
    var all := evs + [get];
    var r' :| RefStep(max, r, all[0], r') && RefRuns(max, r', Clock(all[0], now), all[1..]);
    if evs != [] {
      assert all[1..] == evs[1..] + [get];
      LaterRead(max, r', Clock(evs[0], now), evs[1..], get);
    }
  }

  /** Just after a set, the new entry is the newest, or has already expired. */
  lemma AfterPut(max: nat, r: Entries, put: Event, r': Entries)
    requires put.Put? && RefStep(max, r, put, r')
    requires forall k :: k in r && k != put.key ==> r[k].createdAt < put.t2
    ensures put.key in r' <==> put.ttl > 0
    ensures put.key in r' ==>
              && r'[put.key] == CacheEntry(put.response, put.t2 + put.ttl, put.t2)
              && Sole(r', put.key) && |Newer(r', put.t2)| == 0
  {
    var e := CacheEntry(put.response, put.t2 + put.ttl, put.t2);
    var room :| Evicted(max, Live(r, put.t1), room) && r' == Live(room[put.key := e], put.t2);
    assert room.Keys <= r.Keys;
    assert Newer(r', put.t2) == {};
  }

  /** RETENTION. A value set at a time when every other live entry is older is still answered
      after up to `max_entries - 1` later sets of other keys and any number of reads, until its
      time to live has passed, unless a matching prefix was invalidated. */
  lemma SetIsRetained(max: nat, s: Store, now: nat, put: Event, evs: seq<Event>, get: Event)
    requires put.Put? && get.Got? && get.key == put.key
    requires Runs(max, s, now, [put] + (evs + [get]))
    requires forall k :: k in s.entries && k != put.key ==> s.entries[k].createdAt < put.t2
    requires AllLeaveAlone(evs, put.key) && PutsAfter(evs, put.t2)
    requires Puts(evs) < max
    ensures get.result == if put.t2 + put.ttl > get.t1 then Some(put.response) else None
  {
    var r, all := Live(s.entries, now), [put] + (evs + [get]);
    assert all[0] == put && all[1..] == evs + [get];
    SameRuns(max, s, now, all);
    var r' :| RefStep(max, r, put, r') && RefRuns(max, r', put.t2, evs + [get]);
    AfterPut(max, r, put, r');
    LaterRead(max, r', put.t2, evs, get);
    if put.key in r' {
      RefRetains(max, r', put.t2, evs, get);
    } else {
      RefAbsent(max, r', put.t2, evs, get);
    }
  }

  // ---------------------------------------------------------------- retention in every run

  ghost predicate OlderThan(entries: Entries, t: nat) {
    forall k :: k in entries ==> entries[k].createdAt < t
  }

  predicate PutsBefore(evs: seq<Event>, t: nat) {
    forall i :: 0 <= i < |evs| && evs[i].Put? ==> evs[i].t2 < t
  }

  lemma StepOlder(max: nat, s: Store, ev: Event, s': Store, t: nat)
    requires Step(max, s, ev, s') && OlderThan(s.entries, t) && (ev.Put? ==> ev.t2 < t)
    ensures OlderThan(s'.entries, t)
  {
    if ev.Put? {
      var c := Counted(s, ev.t0);
      var room :|
        && MadeRoom(max, c.entries, ev.t1, room)
        && s' == c.(entries := room[ev.key := CacheEntry(ev.response, ev.t2 + ev.ttl, ev.t2)]);
      RoomOlder(max, c.entries, ev.t1, room, t);
    }
  }

  lemma RoomOlder(max: nat, before: Entries, now: nat, room: Entries, t: nat)
    requires MadeRoom(max, before, now, room) && OlderThan(before, t)
    ensures OlderThan(room, t)
  {
    var live := Live(before, now);
    assert OlderThan(live, t);
    if |before| >= max && |live| >= max && |live| > 0 {
      var victim :| Oldest(live, victim) && room == live - {victim};
    }
  }

  /** After a run in which everything was set before a time, every entry is older than that time. */
  lemma {:induction false} RunOlder(max: nat, s: Store, now: nat, earlier: seq<Event>, rest: seq<Event>, t: nat)
    returns (s': Store, now': nat)
    requires Runs(max, s, now, earlier + rest) && OlderThan(s.entries, t) && PutsBefore(earlier, t)
    ensures OlderThan(s'.entries, t) && Runs(max, s', now', rest)
    decreases |earlier|
  {
    if earlier == [] {
      assert earlier + rest == rest;
      s', now' := s, now;
    } else {
      var all := earlier + rest;
      assert all[0] == earlier[0] && all[1..] == earlier[1..] + rest;
      var next :| Step(max, s, all[0], next) && Runs(max, next, Clock(all[0], now), all[1..]);
      StepOlder(max, s, earlier[0], next, t);
      s', now' := RunOlder(max, next, Clock(all[0], now), earlier[1..], rest, t);
    }
  }

  /** RETENTION IN EVERY RUN of a cache that starts empty, with set times that strictly increase. */
  lemma SetIsRetainedInRuns(max: nat, now: nat, earlier: seq<Event>, put: Event, evs: seq<Event>, get: Event)
    requires put.Put? && get.Got? && get.key == put.key
    requires Runs(max, Store(map[], 0), now, earlier + ([put] + (evs + [get])))
    requires PutsBefore(earlier, put.t2) && PutsAfter(evs, put.t2)
    requires AllLeaveAlone(evs, put.key) && Puts(evs) < max
    ensures get.result == if put.t2 + put.ttl > get.t1 then Some(put.response) else None
  {
    var s, later := RunOlder(max, Store(map[], 0), now, earlier, [put] + (evs + [get]), put.t2);
    SetIsRetained(max, s, later, put, evs, get);
  }

  // ---------------------------------------------------------------- forgetting

  /** The calls that count as operations. */
  function Calls(evs: seq<Event>): nat {
    if evs == [] then 0 else (if evs[0].Invalidated? then 0 else 1) + Calls(evs[1..])
  }

  predicate NoneBefore(entries: Entries, t: nat) {
    forall k :: k in entries ==> entries[k].expiresAt >= t
  }

  /** The calls up to and including the next sweep, with the counter at `count`. */
  function UntilSweep(count: nat): nat
    requires count < 18446744073709551616
  {
    if count == 0 then 1001
    else if count % 1000 == 0 then 1
    else if count > 18446744073709551000 then 18446744073709551616 - count + 1001
    else 1001 - count % 1000
  }

  lemma StepKeepsNone(max: nat, s: Store, now: nat, ev: Event, s': Store, t: nat)
    requires Timed(ev, now) && Step(max, s, ev, s') && t <= now
    requires
      || NoneBefore(s.entries, t)
      || (!ev.Invalidated? && s.opCount > 0 && s.opCount % 1000 == 0)
    ensures NoneBefore(s'.entries, t)
  {
    if !ev.Invalidated? {
      assert NoneBefore(Counted(s, ev.t0).entries, t);
    }
    if ev.Put? {
      var c := Counted(s, ev.t0);
      var room :|
        && MadeRoom(max, c.entries, ev.t1, room)
        && s' == c.(entries := room[ev.key := CacheEntry(ev.response, ev.t2 + ev.ttl, ev.t2)]);
      RoomKeepsNone(max, c.entries, ev.t1, room, t);
    }
  }

  lemma RoomKeepsNone(max: nat, before: Entries, now: nat, room: Entries, t: nat)
    requires MadeRoom(max, before, now, room) && NoneBefore(before, t)
    ensures NoneBefore(room, t)
  {
    var live := Live(before, now);
    assert NoneBefore(live, t);
    if |before| >= max && |live| >= max && |live| > 0 {
      var victim :| Oldest(live, victim) && room == live - {victim};
    }
  }

  lemma StepCounts(max: nat, s: Store, ev: Event, s': Store)
    requires Step(max, s, ev, s')
    ensures s'.opCount == if ev.Invalidated? then s.opCount else (s.opCount + 1) % 18446744073709551616
  {
  }

  lemma SweepNears(count: nat)
    requires count < 18446744073709551616
    ensures
      || (count > 0 && count % 1000 == 0)
      || UntilSweep(count) == 1 + UntilSweep((count + 1) % 18446744073709551616)
  {
    if count == 18446744073709551615 {
      assert (count + 1) % 18446744073709551616 == 0;
    } else {
      assert (count + 1) % 18446744073709551616 == count + 1;
    }
  }

  lemma StepForgets(max: nat, s: Store, now: nat, ev: Event, s': Store, t: nat, rest: nat)
    requires Timed(ev, now) && Step(max, s, ev, s') && s.opCount < 18446744073709551616 && t <= now
    requires NoneBefore(s.entries, t) || (if ev.Invalidated? then 0 else 1) + rest >= UntilSweep(s.opCount)
    ensures s'.opCount < 18446744073709551616
    ensures NoneBefore(s'.entries, t) || rest >= UntilSweep(s'.opCount)
  {
    StepCounts(max, s, ev, s');
    SweepNears(s.opCount);
    if NoneBefore(s.entries, t) || (!ev.Invalidated? && s.opCount > 0 && s.opCount % 1000 == 0) {
      StepKeepsNone(max, s, now, ev, s', t);
    }
  }

  lemma SweepWithin(count: nat)
    requires count < 18446744073709551616
    ensures 0 < UntilSweep(count) <= 1616
    ensures count + 1001 < 18446744073709551616 ==> UntilSweep(count) <= 1001
  {
  }

  lemma {:induction false} Forgotten(max: nat, s: Store, now: nat, evs: seq<Event>, last: Store, t: nat)
    requires Reaches(max, s, now, evs, last) && s.opCount < 18446744073709551616 && t <= now
    requires NoneBefore(s.entries, t) || Calls(evs) >= UntilSweep(s.opCount)
    ensures NoneBefore(last.entries, t)
    decreases |evs|
  {
    if evs == [] {
      SweepWithin(s.opCount);
    } else {
      var s' :| Step(max, s, evs[0], s') && Reaches(max, s', Clock(evs[0], now), evs[1..], last);
      StepForgets(max, s, now, evs[0], s', t, Calls(evs[1..]));
      Forgotten(max, s', Clock(evs[0], now), evs[1..], last, t);
    }
  }

  /** FORGETTING. After 1001 reads and sets in a row no entry is left that had expired before them;
      1616 are needed only where the operation counter wraps among them. */
  lemma ExpiredAreForgotten(max: nat, s: Store, now: nat, evs: seq<Event>, last: Store)
    requires Reaches(max, s, now, evs, last) && s.opCount < 18446744073709551616
    requires Calls(evs) >= 1616 || (Calls(evs) >= 1001 && s.opCount + 1001 < 18446744073709551616)
    ensures forall k :: k in last.entries ==> last.entries[k].expiresAt >= now
  {
    SweepWithin(s.opCount);
    Forgotten(max, s, now, evs, last, now);
    assert NoneBefore(last.entries, now);
  }
}
