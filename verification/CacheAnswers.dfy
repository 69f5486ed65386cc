/** When the middleware stores an answer, how it marks it, and when it answers from the store. */
module CacheAnswers {
  import opened Wrappers
  import opened Text
  import opened ResponseCache
  import opened CacheLimits
  import opened CacheKeys
  import opened CacheServer
  import opened CacheSimulation

  type Headers = seq<(string, string)>

  // ---------------------------------------------------------------- headers, by position

  predicate HasNo(h: Headers, name: string) {
    forall i :: 0 <= i < |h| ==> h[i].0 != name
  }

  /** The first header of that name stands at `i`. */
  predicate FirstAt(h: Headers, name: string, i: nat) {
    i < |h| && h[i].0 == name && forall j :: 0 <= j < i ==> h[j].0 != name
  }

  /** There is one header of that name, and it has that value. */
  predicate OnlyValue(h: Headers, name: string, value: string) {
    exists i :: 0 <= i < |h| && h[i] == (name, value) && forall j :: 0 <= j < |h| && h[j].0 == name ==> j == i
  }

  lemma {:induction false} ValuesNone(h: Headers, name: string)
    ensures Values(h, name) == [] <==> HasNo(h, name)
  {
    if h != [] {
      ValuesNone(h[1..], name);
      assert forall i :: 0 < i < |h| ==> h[i] == h[1..][i - 1];
      assert forall i :: 0 <= i < |h[1..]| ==> h[1..][i] == h[i + 1];
    }
  }

  lemma {:induction false} ValuesFirst(h: Headers, name: string, i: nat)
    requires FirstAt(h, name, i)
    ensures Values(h, name) != [] && Values(h, name)[0] == h[i].1
  {
    if i > 0 {
      assert h[0].0 != name;
      assert forall j :: 0 <= j < i - 1 ==> h[1..][j] == h[j + 1];
      ValuesFirst(h[1..], name, i - 1);
    }
  }

  lemma {:induction false} FirstExists(h: Headers, name: string) returns (i: nat)
    requires !HasNo(h, name)
    ensures FirstAt(h, name, i)
  {
    if h[0].0 == name {
      i := 0;
    } else {
      assert forall j :: 0 < j < |h| ==> h[j] == h[1..][j - 1];
      var k := FirstExists(h[1..], name);
      i := k + 1;
      assert forall j :: 0 < j < i ==> h[j] == h[1..][j - 1];
    }
  }

  lemma {:induction false} RemovedKeeps(h: Headers, gone: string, name: string)
    ensures HasNo(Remove(h, gone), gone)
    ensures HasNo(h, name) ==> HasNo(Remove(h, gone), name)
  {
    if h != [] {
      RemovedKeeps(h[1..], gone, name);
      assert forall i :: 0 < i < |h| ==> h[i] == h[1..][i - 1];
      assert forall i :: 0 <= i < |h[1..]| ==> h[1..][i] == h[i + 1];
    }
  }

  lemma InsertedOnly(h: Headers, name: string, value: string, other: string)
    ensures OnlyValue(Insert(h, name, value), name, value)
    ensures other != name && HasNo(h, other) ==> HasNo(Insert(h, name, value), other)
  {
    RemovedKeeps(h, name, other);
    var kept := Remove(h, name);
    assert (kept + [(name, value)])[|kept|] == (name, value);
  }

  // ---------------------------------------------------------------- the time to live

  predicate AllDigits(s: string) {
    forall i :: 0 <= i < |s| ==> '0' <= s[i] <= '9'
  }

  /** The number that digits stand for: the last one counts ones, those before it tens. */
  function PlaceValue(s: string): nat
    requires AllDigits(s)
  {
    if s == [] then 0 else 10 * PlaceValue(s[..|s| - 1]) + (s[|s| - 1] as int - '0' as int)
  }

  /** A text that stands for a number below 2^64: digits, perhaps behind a plus sign. */
  ghost predicate StandsFor(s: string, n: nat) {
    exists ds: string :: ds != "" && AllDigits(ds) && (s == ds || s == "+" + ds)
                         && n == PlaceValue(ds) < 0x1_0000_0000_0000_0000
  }

  /** The answer asks to be kept for `n` seconds. */
  ghost predicate AsksFor(r: Response, n: nat) {
    exists i: nat :: FirstAt(r.headers, "x-rapina-cache-ttl", i) && StandsFor(r.headers[i].1, n)
  }

  lemma DigitsSnoc(s: string, c: char, acc: nat)
    requires '0' <= c <= '9'
    ensures Digits(s + [c], acc)
         == match Digits(s, acc)
            case Some(v) => Some(10 * v + (c as int - '0' as int))
            case None => None
  {
    if s == [] {
      assert [] + [c] == [c] && [c][1..] == [];
    } else {
      assert (s + [c])[0] == s[0] && (s + [c])[1..] == s[1..] + [c];
      if '0' <= s[0] <= '9' {
        DigitsSnoc(s[1..], c, 10 * acc + (s[0] as int - '0' as int));
      }
    }
  }

  lemma {:induction false} DigitsPlaces(s: string)
    requires AllDigits(s)
    ensures Digits(s, 0) == Some(PlaceValue(s))
  {
    if s != [] {
      var front, c := s[..|s| - 1], s[|s| - 1];
      DigitsPlaces(front);
      DigitsSnoc(front, c, 0);
      assert s == front + [c];
    }
  }

  lemma {:induction false} DigitsOnly(s: string, acc: nat)
    ensures Digits(s, acc).Some? <==> AllDigits(s)
  {
    if s != [] {
      assert forall i :: 0 < i < |s| ==> s[i] == s[1..][i - 1];
      assert forall i :: 0 <= i < |s[1..]| ==> s[1..][i] == s[i + 1];
      if '0' <= s[0] <= '9' {
        DigitsOnly(s[1..], 10 * acc + (s[0] as int - '0' as int));
      }
    }
  }

  /** The digits behind the plus sign, if there is one. */
  function Unsigned(s: string): string {
    if s != [] && s[0] == '+' then s[1..] else s
  }

  lemma UnsignedIs(s: string, ds: string)
    requires ds != "" && AllDigits(ds)
    ensures s == ds || s == "+" + ds <==> Unsigned(s) == ds
  {
    assert ("+" + ds)[1..] == ds;
    if s != [] {
      assert s == [s[0]] + s[1..];
    }
  }

  lemma DigitsRead(ds: string, n: nat)
    ensures Digits(ds, 0) == Some(n) <==> AllDigits(ds) && PlaceValue(ds) == n
  {
    DigitsOnly(ds, 0);
    if AllDigits(ds) {
      DigitsPlaces(ds);
    }
  }

  lemma ParsedUnsigned(s: string, n: nat)
    ensures ParseU64(s) == Some(n)
       <==> var ds := Unsigned(s); ds != "" && AllDigits(ds) && n == PlaceValue(ds) < 0x1_0000_0000_0000_0000
  {
    DigitsRead(Unsigned(s), n);
  }

  lemma NumbersVisible(s: string)
    requires AllDigits(Unsigned(s))
    ensures Visible(s)
  {
    forall i | 0 <= i < |s| ensures s[i] == '+' || '0' <= s[i] <= '9' {
      if s[0] == '+' && i > 0 {
        assert s[i] == Unsigned(s)[i - 1];
      } else if s[0] != '+' {
        assert s[i] == Unsigned(s)[i];
      }
    }
  }

  lemma ParsedNumber(s: string, n: nat)
    ensures ParseU64(s) == Some(n) <==> StandsFor(s, n)
    ensures ParseU64(s) == Some(n) ==> Visible(s)
  {
    ParsedUnsigned(s, n);
    var digits := Unsigned(s);
    if ParseU64(s) == Some(n) {
      UnsignedIs(s, digits);
      NumbersVisible(s);
    }
    if StandsFor(s, n) {
      var ds: string :| ds != "" && AllDigits(ds) && (s == ds || s == "+" + ds)
                        && n == PlaceValue(ds) < 0x1_0000_0000_0000_0000;
      UnsignedIs(s, ds);
    }
  }

  /** The middleware sees exactly what the answer asks for. */
  lemma AskedIff(r: Response, n: nat)
    ensures TtlOf(r) == Some(n) <==> AsksFor(r, n)
  {
    TtlName();
    var h := r.headers;
    ValuesNone(h, "x-rapina-cache-ttl");
    if HasNo(h, "x-rapina-cache-ttl") {
      assert !AsksFor(r, n);
    } else {
      var i := FirstExists(h, "x-rapina-cache-ttl");
      ValuesFirst(h, "x-rapina-cache-ttl", i);
      ParsedNumber(h[i].1, n);
      FirstIsOne(h, "x-rapina-cache-ttl", i);
    }
  }

  lemma TtlName()
    ensures TTL_HEADER == "x-rapina-cache-ttl" && STATUS_HEADER == "x-cache"
    ensures "x-rapina-cache-ttl" != "x-cache"
  {
    assert |"x-rapina-cache-ttl"| != |"x-cache"|;
  }

  lemma FirstIsOne(h: Headers, name: string, i: nat)
    requires FirstAt(h, name, i)
    ensures forall j: nat :: FirstAt(h, name, j) ==> j == i
  {
  }

  /** A number as it is usually written. */
  function DecimalText(n: nat): string {
    if n < 10 then ["0123456789"[n]] else DecimalText(n / 10) + ["0123456789"[n % 10]]
  }

  lemma DigitIs(d: nat)
    requires d < 10
    ensures var c := "0123456789"[d]; '0' <= c <= '9' && c as int - '0' as int == d
  {
  }

  lemma {:induction false} DecimalStands(n: nat)
    ensures AllDigits(DecimalText(n)) && PlaceValue(DecimalText(n)) == n && DecimalText(n) != ""
  {
    var s := DecimalText(n);
    if n < 10 {
      DigitIs(n);
      assert s[..0] == [];
    } else {
      DecimalStands(n / 10);
      DigitIs(n % 10);
      assert s[..|s| - 1] == DecimalText(n / 10);
    }
  }

  lemma DecimalStandsFor(n: nat)
    requires n < 0x1_0000_0000_0000_0000
    ensures StandsFor(DecimalText(n), n)
  {
    DecimalStands(n);
  }

  // ---------------------------------------------------------------- header values on a hit

  /** Printable ASCII and tabs. */
  predicate Printable(value: string) {
    forall c :: c in value ==> 32 <= c as int <= 126 || c as int == 9
  }

  lemma PrintableIs(value: string)
    ensures Printable(value) <==> Visible(value)
  {
    if Printable(value) {
      forall i | 0 <= i < |value| ensures ' ' <= value[i] <= '~' || value[i] == '\t' {
        assert value[i] in value;
      }
    }
  }

  /** A hit gives out a stored header value as it was if it is printable, and as an empty one if not. */
  lemma HitValues(r: Response, name: string)
    requires r.body.Bytes? && name != "x-cache" && name != "x-rapina-cache-ttl"
    ensures var before, after := Values(r.headers, name), Values(FromCache(ToCached(r)).headers, name);
      |after| == |before|
      && forall i :: 0 <= i < |before| ==> after[i] == if Printable(before[i]) then before[i] else ""
  {
    var kept := Remove(r.headers, TTL_HEADER);
    TtlName();
    ValuesRemove(r.headers, TTL_HEADER, name);
    ValuesText(kept, name);
    ValuesInsert(TextHeaders(kept), STATUS_HEADER, "HIT", name);
    TextsAt(Values(r.headers, name));
  }

  lemma {:induction false} TextsAt(values: seq<string>)
    ensures forall i :: 0 <= i < |values| ==> TextsOf(values)[i] == if Printable(values[i]) then values[i] else ""
  {
    if values != [] {
      PrintableIs(values[0]);
      TextsAt(values[1..]);
      assert forall i :: 0 < i < |values| ==> values[i] == values[1..][i - 1];
    }
  }

  // ---------------------------------------------------------------- one request

  predicate Misses(s: Store, key: string, now: nat) {
    key !in s.entries || s.entries[key].expiresAt <= now
  }

  predicate WithinStore(a: Store, b: Store) {
    forall k :: k in a.entries ==> k in b.entries && a.entries[k] == b.entries[k]
  }

  lemma GotMisses(max: nat, s: Store, key: string, hit: Option<CachedResponse>, ticks: Ticks, s1: Store)
    requires Step(max, s, Got(key, hit, ticks.g0, ticks.g1, ticks.g2), s1)
    ensures Misses(s, key, ticks.g1) ==> hit == None
    ensures WithinStore(s1, s)
  {
  }

  /** STORED. A GET that is not in the store and whose answer asks to be kept for `n` seconds is stored
      with its status and body until `n` seconds after the set, and answered with these, without the
      header it asked with and marked as a miss. */
  lemma AskedIsStored<D(!new)>(app: App<D>, max: nat, w: map<string, D>, s: Store, req: Request, ticks: Ticks,
                               resp: Response, w': map<string, D>, s': Store, n: nat)
    requires Handled(app, max, w, s, req, ticks, resp, w', s') && req.verb == GET
    requires Misses(s, CacheKey(req.path, req.query), ticks.g1)
    requires AsksFor(app.get(req.path, req.query, w), n) && app.get(req.path, req.query, w).body.Bytes?
    ensures var r, key := app.get(req.path, req.query, w), CacheKey(req.path, req.query);
      && key in s'.entries
      && s'.entries[key].expiresAt == ticks.s2 + n * 1_000_000_000 && s'.entries[key].createdAt == ticks.s2
      && s'.entries[key].response.status == r.status && s'.entries[key].response.body == r.body.data
      && resp.status == r.status && resp.body == r.body
      && HasNo(resp.headers, "x-rapina-cache-ttl") && OnlyValue(resp.headers, "x-cache", "MISS")
  {
    var r, key := app.get(req.path, req.query, w), CacheKey(req.path, req.query);
    var hit, s1 :| LookedUp(max, s, key, r, ticks, hit, s1, resp, s');
    GotMisses(max, s, key, hit, ticks, s1);
    AskedIff(r, n);
    MissedMarks(r);
  }

  lemma MissedMarks(r: Response)
    ensures HasNo(Missed(r).headers, "x-rapina-cache-ttl") && OnlyValue(Missed(r).headers, "x-cache", "MISS")
    ensures Missed(r).status == r.status && Missed(r).body == r.body
  {
    TtlName();
    RemovedKeeps(r.headers, TTL_HEADER, TTL_HEADER);
    InsertedOnly(Remove(r.headers, TTL_HEADER), STATUS_HEADER, "MISS", TTL_HEADER);
  }

  /** NOT STORED. Any other GET that is not in the store leaves nothing new in it. Its answer is the
      handler's own, except that a body that breaks off while it should be stored becomes an error. */
  lemma UnaskedPasses<D(!new)>(app: App<D>, max: nat, w: map<string, D>, s: Store, req: Request, ticks: Ticks,
                               resp: Response, w': map<string, D>, s': Store)
    requires Handled(app, max, w, s, req, ticks, resp, w', s') && req.verb == GET
    requires Misses(s, CacheKey(req.path, req.query), ticks.g1)
    requires var r := app.get(req.path, req.query, w);
      !r.body.Bytes? || forall n: nat :: !AsksFor(r, n)
    ensures WithinStore(s', s)
    ensures var r := app.get(req.path, req.query, w);
      resp == if r.body.Broken? && exists n: nat :: AsksFor(r, n) then Response(500, [], Bytes([])) else r
  {
    var r, key := app.get(req.path, req.query, w), CacheKey(req.path, req.query);
    var hit, s1 :| LookedUp(max, s, key, r, ticks, hit, s1, resp, s');
    GotMisses(max, s, key, hit, ticks, s1);
    forall n: nat ensures TtlOf(r) == Some(n) <==> AsksFor(r, n) {
      AskedIff(r, n);
    }
    assert TtlOf(r).Some? ==> AsksFor(r, TtlOf(r).value);
  }

  /** ANSWERED FROM THE STORE. A GET whose key is in the store and has not expired is answered with the
      stored status and body, marked as a hit, and leaves the entries as they were or drops expired ones. */
  lemma StoredIsHit<D(!new)>(app: App<D>, max: nat, w: map<string, D>, s: Store, req: Request, ticks: Ticks,
                             resp: Response, w': map<string, D>, s': Store, e: CacheEntry)
    requires Handled(app, max, w, s, req, ticks, resp, w', s') && req.verb == GET
    requires var key := CacheKey(req.path, req.query);
      key in s.entries && s.entries[key] == e && e.expiresAt > ticks.g1 && e.expiresAt > ticks.g0
    ensures resp.status == e.response.status && resp.body == Bytes(e.response.body)
    ensures OnlyValue(resp.headers, "x-cache", "HIT")
    ensures WithinStore(s', s)
  {
    var r, key := app.get(req.path, req.query, w), CacheKey(req.path, req.query);
    var hit, s1 :| LookedUp(max, s, key, r, ticks, hit, s1, resp, s');
    GotMisses(max, s, key, hit, ticks, s1);
    TtlName();
    InsertedOnly(e.response.headers, STATUS_HEADER, "HIT", TTL_HEADER);
  }

  /** A method that changes something. */
  predicate Mutates(m: Method) {
    m == POST || m == PUT || m == DELETE || m == PATCH
  }

  predicate UnderNone(key: string, prefixes: seq<string>) {
    forall p :: p in prefixes ==> !StartsWith(key, p)
  }

  /** CLEARED. After any other request the world and the answer are the handler's. If it was POST, PUT,
      DELETE or PATCH and the status is from 200 to 299, the entries under its prefixes are gone and no
      others; after all others the store is as it was. */
  lemma MutationClears<D(!new)>(app: App<D>, max: nat, w: map<string, D>, s: Store, req: Request, ticks: Ticks,
                                resp: Response, w': map<string, D>, s': Store, key: string)
    requires Handled(app, max, w, s, req, ticks, resp, w', s') && req.verb != GET
    ensures (resp, w') == app.mutate(req, w)
    ensures if Mutates(req.verb) && 200 <= resp.status <= 299
            then && WithinStore(s', s)
                 && (key in s'.entries
                     <==> key in s.entries && UnderNone(key, InvalidationPrefixes(req.path, req.pattern)))
            else s' == s
  {
    if Mutates(req.verb) && 200 <= resp.status <= 299 {
      var order :|
        && multiset(order) == multiset(InvalidationPrefixes(req.path, req.pattern))
        && s' == s.(entries := ClearAll(s.entries, order));
      ClearAllHas(s.entries, order);
      SamePrefixes(order, InvalidationPrefixes(req.path, req.pattern));
    }
  }

  lemma SamePrefixes(order: seq<string>, prefixes: seq<string>)
    requires multiset(order) == multiset(prefixes)
    ensures forall p :: p in order <==> p in prefixes
  {
    forall p ensures p in order <==> p in prefixes {
      assert p in order <==> p in multiset(order);
      assert p in prefixes <==> p in multiset(prefixes);
    }
  }
}
