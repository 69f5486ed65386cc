/** The cache middleware in front of an application (rapina/src/cache.rs): the server with it must
    answer like the server without it. */
module CacheServer {
  import opened Wrappers
  import opened Text
  import opened ResponseCache
  import opened CacheKeys

  datatype Method = GET | POST | PUT | DELETE | PATCH | OtherMethod(name: string)

  datatype Request = Request(verb: Method, path: string, query: string, body: seq<byte>, pattern: Option<string>)

  /** A body of known size, a stream, or a body of known size that fails while it is collected. */
  datatype Body = Bytes(data: seq<byte>) | Stream(chunks: seq<byte>) | Broken(partial: seq<byte>)

  datatype Response = Response(status: nat, headers: seq<(string, string)>, body: Body)

  const TTL_HEADER := "x-rapina-cache-ttl"
  const STATUS_HEADER := "x-cache"
  const TICKS_PER_SECOND: nat := 1_000_000_000

  /** The handlers, over a world of one state per first path segment. */
  datatype App<!D> = App(
    get: (string, string, map<string, D>) -> Response,
    mutate: (Request, map<string, D>) -> (Response, map<string, D>))

  predicate IsMutation(m: Method) {
    m.POST? || m.PUT? || m.DELETE? || m.PATCH?
  }

  predicate IsSuccess(r: Response) {
    200 <= r.status < 300
  }

  // ---------------------------------------------------------------- headers

  /** The values of a header, in order. */
  function Values(headers: seq<(string, string)>, name: string): seq<string> {
    if headers == [] then []
    else (if headers[0].0 == name then [headers[0].1] else []) + Values(headers[1..], name)
  }

  function Remove(headers: seq<(string, string)>, name: string): seq<(string, string)> {
    if headers == [] then []
    else (if headers[0].0 == name then [] else [headers[0]]) + Remove(headers[1..], name)
  }

  /** `HeaderMap::insert`: the new value replaces all earlier ones. */
  function Insert(headers: seq<(string, string)>, name: string, value: string): seq<(string, string)> {
    Remove(headers, name) + [(name, value)]
  }

  predicate Visible(value: string) {
    forall i :: 0 <= i < |value| ==> ' ' <= value[i] <= '~' || value[i] == '\t'
  }

  /** `HeaderValue::to_str`, with the empty string for a value that is not plain text. */
  function TextOf(value: string): string {
    if Visible(value) then value else ""
  }

  function TextsOf(values: seq<string>): (r: seq<string>)
    ensures |r| == |values|
  {
    if values == [] then [] else [TextOf(values[0])] + TextsOf(values[1..])
  }

  function TextHeaders(headers: seq<(string, string)>): seq<(string, string)> {
    if headers == [] then [] else [(headers[0].0, TextOf(headers[0].1))] + TextHeaders(headers[1..])
  }

  function Digits(s: string, acc: nat): Option<nat> {
    if s == [] then Some(acc)
    else if '0' <= s[0] <= '9' then Digits(s[1..], 10 * acc + (s[0] as int - '0' as int))
    else None
  }

  /** `str::parse::<u64>`: an optional plus sign, digits, and a value that fits. */
  function ParseU64(s: string): Option<nat> {
    var digits := if s != [] && s[0] == '+' then s[1..] else s;
    if digits == [] then None
    else match Digits(digits, 0)
      case Some(n) => if n < U64 then Some(n) else None
      case None => None
  }

  function TtlOf(r: Response): Option<nat> {
    var values := Values(r.headers, TTL_HEADER);
    if values == [] || !Visible(values[0]) then None else ParseU64(values[0])
  }

  // ---------------------------------------------------------------- the middleware

  function ToCached(r: Response): CachedResponse
    requires r.body.Bytes?
  {
    CachedResponse(r.status, TextHeaders(Remove(r.headers, TTL_HEADER)), r.body.data)
  }

  function FromCache(c: CachedResponse): Response {
    Response(c.status, Insert(c.headers, STATUS_HEADER, "HIT"), Bytes(c.body))
  }

  function Missed(r: Response): Response {
    r.(headers := Insert(Remove(r.headers, TTL_HEADER), STATUS_HEADER, "MISS"))
  }

  /** The clock readings of the calls one request can make. */
  datatype Ticks = Ticks(g0: nat, g1: nat, g2: nat, s0: nat, s1: nat, s2: nat)

  /** What the middleware may do with a request: answer, world and store afterwards. */
  ghost predicate Handled<D(!new)>(app: App<D>, max: nat, w: map<string, D>, s: Store, req: Request, ticks: Ticks,
                                   resp: Response, w': map<string, D>, s': Store)
  {
    if req.verb.GET? then
      var key := CacheKey(req.path, req.query);
      && w' == w
      && exists hit, s1 :: LookedUp(max, s, key, app.get(req.path, req.query, w), ticks, hit, s1, resp, s')
    else
      var (r, w2) := app.mutate(req, w);
      && resp == r && w' == w2
      && if IsMutation(req.verb) && IsSuccess(r)
         then exists order ::
                && multiset(order) == multiset(InvalidationPrefixes(req.path, req.pattern))
                && s' == s.(entries := ClearAll(s.entries, order))
         else s' == s
  }

  /** A lookup that answers `hit` and leaves the store `s1`, and what follows it. */
  ghost predicate LookedUp(max: nat, s: Store, key: string, r: Response, ticks: Ticks,
                           hit: Option<CachedResponse>, s1: Store, resp: Response, s': Store)
  {
    && Step(max, s, Got(key, hit, ticks.g0, ticks.g1, ticks.g2), s1)
    && match hit
       case Some(c) => resp == FromCache(c) && s' == s1
       case None => Fetched(max, key, r, s1, ticks, resp, s')
  }

  /** After a miss: what becomes of the handler's response. */
  ghost predicate Fetched(max: nat, key: string, r: Response, s1: Store, ticks: Ticks, resp: Response, s': Store) {
    match TtlOf(r)
    case None => resp == r && s' == s1
    case Some(ttl) =>
      match r.body
      case Stream(_) => resp == r && s' == s1
      case Broken(_) => resp == Response(500, [], Bytes([])) && s' == s1
      case Bytes(_) =>
        && Step(max, s1, Put(key, ToCached(r), ttl * TICKS_PER_SECOND, ticks.s0, ticks.s1, ticks.s2), s')
        && resp == Missed(r)
  }

  class CacheMiddleware<D(!new)> {
    const backend: InMemoryCache
    const app: App<D>
    var world: map<string, D>

    constructor (backend: InMemoryCache, app: App<D>, world: map<string, D>)
      ensures this.backend == backend && this.app == app && this.world == world
    {
      this.backend, this.app, this.world := backend, app, world;
    }

    method Fetch(key: string, r: Response, ticks: Ticks) returns (resp: Response)
      modifies backend
      ensures Fetched(backend.maxEntries, key, r, old(backend.State()), ticks, resp, backend.State())
    {
      var ttl := TtlOf(r);
      if ttl == None {
        return r;
      }
      match r.body {
        case Stream(_) => resp := r;
        case Broken(_) => resp := Response(500, [], Bytes([]));
        case Bytes(_) =>
          backend.Set(key, ToCached(r), ttl.value * TICKS_PER_SECOND, ticks.s0, ticks.s1, ticks.s2);
          resp := Missed(r);
      }
    }

    method Invalidate(path: string, pattern: Option<string>)
      modifies backend
      ensures backend.State()
           == old(backend.State()).(entries := ClearAll(old(backend.entries), InvalidationPrefixes(path, pattern)))
    {
      var prefixes := BuildInvalidationPrefixes(path, pattern);
      ghost var want := ClearAll(backend.entries, prefixes);
      for i := 0 to |prefixes|
        invariant ClearAll(backend.entries, prefixes[i..]) == want
        invariant backend.opCount == old(backend.opCount)
      {
        assert prefixes[i..][1..] == prefixes[i + 1..];
        backend.InvalidatePrefix(prefixes[i]);
      }
    }

    method Handle(req: Request, ticks: Ticks) returns (resp: Response)
      modifies this`world, backend
      ensures Handled(app, backend.maxEntries, old(world), old(backend.State()), req, ticks,
                      resp, world, backend.State())
    {
      if req.verb.GET? {
        var key := BuildCacheKey(req.path, req.query);
        ghost var s0 := backend.State();
        var hit := backend.Get(key, ticks.g0, ticks.g1, ticks.g2);
        ghost var s1 := backend.State();
        var r := app.get(req.path, req.query, world);
        if hit.Some? {
          resp := FromCache(hit.value);
        } else {
          resp := Fetch(key, r, ticks);
        }
        assert LookedUp(backend.maxEntries, s0, key, r, ticks, hit, s1, resp, backend.State());
        return;
      }
      var (r, w) := app.mutate(req, world);
      world := w;
      resp := r;
      if IsMutation(req.verb) && IsSuccess(r) {
        Invalidate(req.path, req.pattern);
      }
    }
  }
}
