/** Dispatch of relay topics to channel handlers: the pattern classification of the `#[relay]` macro
    (rapina-macros/src/relay.rs), the sort by specificity at start-up (rapina/src/app.rs), and the
    first-match scan of the hub (rapina/src/relay/hub.rs). */
module RelayChannels {
  import opened Wrappers
  import opened Text

  datatype Channel = Channel(pattern: string, isPrefix: bool, matchPrefix: string, handlerName: string)

  /** What the macro submits for a pattern. */
  function Register(pattern: string, handlerName: string): Channel {
    var isPrefix := EndsWith(pattern, "*");
    Channel(pattern, isPrefix, if isPrefix then pattern[..|pattern| - 1] else pattern, handlerName)
  }

  predicate Matches(c: Channel, topic: string) {
    if c.isPrefix then StartsWith(topic, c.matchPrefix) else topic == c.pattern
  }

  /** A pattern that ends in a star takes the topics that start with the rest of it, any other pattern
      its own text alone. */
  lemma RegisteredMatches(pattern: string, handlerName: string, topic: string)
    ensures Matches(Register(pattern, handlerName), topic)
       <==> if pattern != "" && pattern[|pattern| - 1] == '*'
            then |topic| >= |pattern| - 1 && topic[..|pattern| - 1] == pattern[..|pattern| - 1]
            else topic == pattern
    ensures Register(pattern, handlerName).pattern == pattern
    ensures Register(pattern, handlerName).handlerName == handlerName
  {
    if pattern != "" {
      assert pattern[|pattern| - 1..|pattern|] == [pattern[|pattern| - 1]];
    }
  }

  // ---------------------------------------------------------------- the sort

  datatype Ordering = Less | Equal | Greater

  function CompareStrings(a: string, b: string): Ordering {
    if a == b then Equal else if StrLe(a, b) then Less else Greater
  }

  function CompareLengths(a: string, b: string): Ordering {
    if |a| < |b| then Less else if |a| == |b| then Equal else Greater
  }

  function Compare(a: Channel, b: Channel): Ordering {
    match (a.isPrefix, b.isPrefix)
    case (false, true) => Less
    case (true, false) => Greater
    case (false, false) => CompareStrings(a.pattern, b.pattern)
    case (true, true) => CompareLengths(b.matchPrefix, a.matchPrefix)
  }

  predicate NotAfter(a: Channel, b: Channel) {
    Compare(a, b) != Greater
  }

  /** The comparison is the total order that the library's sort demands. */
  lemma CompareIsTotal(a: Channel, b: Channel, c: Channel)
    ensures Compare(a, b) == Less <==> Compare(b, a) == Greater
    ensures Compare(a, b) == Equal <==> Compare(b, a) == Equal
    ensures NotAfter(a, b) && NotAfter(b, c) ==> NotAfter(a, c)
  {
    StrLeTotal(a.pattern, b.pattern);
    if StrLe(a.pattern, b.pattern) && StrLe(b.pattern, c.pattern) {
      StrLeTransitive(a.pattern, b.pattern, c.pattern);
    }
    StrLeTotal(c.pattern, c.pattern);
    StrLeTotal(b.pattern, b.pattern);
  }

  /** One text comes before another: a proper beginning of it, or smaller at the first difference. */
  ghost predicate TextBefore(a: string, b: string) {
    exists k: nat :: k <= |a| && k < |b| && a[..k] == b[..k] && (k == |a| || a[k] < b[k])
  }

  lemma {:induction false} StrLeBefore(a: string, b: string)
    ensures StrLe(a, b) && a != b ==> TextBefore(a, b)
  {
    if StrLe(a, b) && a != b {
      if a == "" || a[0] < b[0] {
        assert a[..0] == b[..0];
      } else {
        assert a == [a[0]] + a[1..] && b == [b[0]] + b[1..];
        StrLeBefore(a[1..], b[1..]);
        var s, t := a[1..], b[1..];
        var k: nat :| k <= |s| && k < |t| && s[..k] == t[..k] && (k == |s| || s[k] < t[k]);
        assert a[..k + 1] == [a[0]] + s[..k] && b[..k + 1] == [b[0]] + t[..k];
      }
    }
  }

  lemma BeforeOneWay(a: string, b: string)
    requires TextBefore(a, b)
    ensures !TextBefore(b, a) && a != b
  {
    var k: nat :| k <= |a| && k < |b| && a[..k] == b[..k] && (k == |a| || a[k] < b[k]);
    SameUpTo(a, b, k);
    forall j: nat | j <= |b| && j < |a| && b[..j] == a[..j]
      ensures j < |b| && b[j] >= a[j]
    {
      SameUpTo(a, b, j);
    }
  }

  lemma SameUpTo(a: string, b: string, n: nat)
    requires n <= |a| && n <= |b| && a[..n] == b[..n]
    ensures forall i :: 0 <= i < n ==> a[i] == b[i]
  {
    forall i | 0 <= i < n ensures a[i] == b[i] {
      assert a[..n][i] == b[..n][i];
    }
  }

  /** Exact patterns come before prefixes; exact ones in text order, prefixes by falling length. */
  lemma CompareMeans(a: Channel, b: Channel)
    ensures Compare(a, b) == Less
       <==> || (!a.isPrefix && b.isPrefix)
            || (!a.isPrefix && !b.isPrefix && TextBefore(a.pattern, b.pattern))
            || (a.isPrefix && b.isPrefix && |a.matchPrefix| > |b.matchPrefix|)
  {
    StrLeTotal(a.pattern, b.pattern);
    StrLeBefore(a.pattern, b.pattern);
    StrLeBefore(b.pattern, a.pattern);
    if TextBefore(a.pattern, b.pattern) {
      BeforeOneWay(a.pattern, b.pattern);
    }
  }

  /** A stable sort, as `sort_by` is. */
  function Insert(c: Channel, s: seq<Channel>): seq<Channel> {
    if s == [] || NotAfter(c, s[0]) then [c] + s else [s[0]] + Insert(c, s[1..])
  }

  function SortChannels(s: seq<Channel>): seq<Channel> {
    if s == [] then [] else Insert(s[0], SortChannels(s[1..]))
  }

  predicate Ordered(s: seq<Channel>) {
    forall i, j :: 0 <= i < j < |s| ==> NotAfter(s[i], s[j])
  }

  lemma {:induction false} InsertOrders(c: Channel, s: seq<Channel>)
    requires Ordered(s)
    ensures Ordered(Insert(c, s)) && multiset(Insert(c, s)) == multiset{c} + multiset(s)
  {
    if s == [] {
    } else if NotAfter(c, s[0]) {
      forall j | 0 <= j < |s| ensures NotAfter(c, s[j]) {
        CompareIsTotal(c, s[0], s[j]);
      }
    } else {
      InsertOrders(c, s[1..]);
      CompareIsTotal(c, s[0], c);
      assert s == [s[0]] + s[1..];
      var r := Insert(c, s[1..]);
      forall j | 0 <= j < |r| ensures NotAfter(s[0], r[j]) {
        assert r[j] in multiset(r);
        assert r[j] == c || r[j] in s[1..];
      }
    }
  }

  lemma {:induction false} SortOrders(s: seq<Channel>)
    ensures Ordered(SortChannels(s)) && multiset(SortChannels(s)) == multiset(s)
  {
    if s != [] {
      SortOrders(s[1..]);
      InsertOrders(s[0], SortChannels(s[1..]));
      assert s == [s[0]] + s[1..];
    }
  }

  // ---------------------------------------------------------------- the hub

  function FirstMatch(channels: seq<Channel>, topic: string): Option<Channel> {
    if channels == [] then None
    else if Matches(channels[0], topic) then Some(channels[0])
    else FirstMatch(channels[1..], topic)
  }

  class RelayHub {
    var channels: seq<Channel>

    /** The hub is given the registered channels in whatever order the linker lists them. */
    constructor (inventory: seq<Channel>)
      ensures channels == SortChannels(inventory)
    {
      channels := SortChannels(inventory);
    }

    method FindChannel(topic: string) returns (found: Option<Channel>)
      ensures found == FirstMatch(channels, topic)
    {
      var i := 0;
      while i < |channels|
        invariant i <= |channels|
        invariant FirstMatch(channels, topic) == FirstMatch(channels[i..], topic)
      {
        if Matches(channels[i], topic) {
          return Some(channels[i]);
        }
        assert channels[i..][1..] == channels[i + 1..];
        i := i + 1;
      }
      return None;
    }
  }

  // ---------------------------------------------------------------- the meaning, without a sort

  /** One pass over the channels as registered, keeping the most specific match; of two equally
      specific ones, the one registered first. */
  function MostSpecific(inventory: seq<Channel>, topic: string): Option<Channel> {
    if inventory == [] then None
    else
      var rest := MostSpecific(inventory[1..], topic);
      if Matches(inventory[0], topic) && (rest.None? || NotAfter(inventory[0], rest.value))
      then Some(inventory[0])
      else rest
  }

  lemma {:induction false} FirstMatchIn(s: seq<Channel>, topic: string)
    ensures FirstMatch(s, topic).Some? ==> FirstMatch(s, topic).value in s
  {
    if s != [] && !Matches(s[0], topic) {
      FirstMatchIn(s[1..], topic);
    }
  }

  lemma {:induction false} InsertFirst(c: Channel, s: seq<Channel>, topic: string)
    requires Ordered(s)
    ensures var rest := FirstMatch(s, topic);
      FirstMatch(Insert(c, s), topic)
      == if Matches(c, topic) && (rest.None? || NotAfter(c, rest.value)) then Some(c) else rest
  {
    if s == [] {
      assert [c][1..] == [];
    } else if NotAfter(c, s[0]) {
      assert ([c] + s)[1..] == s;
      FirstMatchIn(s, topic);
      if FirstMatch(s, topic).Some? {
        CompareIsTotal(c, s[0], FirstMatch(s, topic).value);
        CompareIsTotal(s[0], s[0], s[0]);
      }
    } else {
      assert ([s[0]] + Insert(c, s[1..]))[1..] == Insert(c, s[1..]);
      if !Matches(s[0], topic) {
        InsertFirst(c, s[1..], topic);
      }
    }
  }

  /** DISPATCH. Scanning the sorted list for its first match finds the most specific channel. */
  lemma {:induction false} SortedDispatch(inventory: seq<Channel>, topic: string)
    ensures FirstMatch(SortChannels(inventory), topic) == MostSpecific(inventory, topic)
  {
    if inventory != [] {
      SortedDispatch(inventory[1..], topic);
      SortOrders(inventory[1..]);
      InsertFirst(inventory[0], SortChannels(inventory[1..]), topic);
    }
  }

  predicate Registered(c: Channel) {
    c == Register(c.pattern, c.handlerName)
  }

  predicate AllRegistered(s: seq<Channel>) {
    forall c :: c in s ==> Registered(c)
  }

  /** `a` is the exact pattern of the topic, or both are prefixes and `a` is the longer. */
  predicate Beats(a: Channel, b: Channel, topic: string) {
    if a.isPrefix then b.isPrefix && |a.matchPrefix| >= |b.matchPrefix| else a.pattern == topic
  }

  lemma BeatsIff(a: Channel, b: Channel, topic: string)
    requires Matches(a, topic) && Matches(b, topic)
    ensures Beats(a, b, topic) <==> NotAfter(a, b)
  {
  }

  /** A topic is unhandled exactly when no pattern matches it. Otherwise its channel is the exact
      pattern if there is one, and the longest matching prefix if there is none. */
  lemma {:induction false} MostSpecificMeans(inventory: seq<Channel>, topic: string)
    ensures var r := MostSpecific(inventory, topic);
      && (r.None? <==> forall c :: c in inventory ==> !Matches(c, topic))
      && (r.Some? ==>
            && r.value in inventory && Matches(r.value, topic)
            && forall c :: c in inventory && Matches(c, topic) ==> Beats(r.value, c, topic))
  {
    if inventory != [] {
      var head, tail := inventory[0], inventory[1..];
      MostSpecificMeans(tail, topic);
      var rest, r := MostSpecific(tail, topic), MostSpecific(inventory, topic);
      forall c | c in inventory ensures c == head || c in tail {
      }
      if Matches(head, topic) {
        assert r.Some?;
        forall c | c in inventory && Matches(c, topic) ensures Beats(r.value, c, topic) {
          if rest.Some? {
            BeatsIff(r.value, c, topic);
            CompareIsTotal(head, rest.value, c);
            if c in tail {
              BeatsIff(rest.value, c, topic);
            }
            CompareIsTotal(head, head, head);
          }
        }
      }
    }
  }

  /** Two registered channels that match a topic equally well have the same pattern. */
  lemma EquallySpecific(a: Channel, b: Channel, topic: string)
    requires Registered(a) && Registered(b) && Matches(a, topic) && Matches(b, topic)
    requires Beats(a, b, topic) && Beats(b, a, topic)
    ensures a.pattern == b.pattern
  {
    if a.isPrefix {
      assert a.matchPrefix == topic[..|a.matchPrefix|] == b.matchPrefix;
      RegisteredPrefix(a);
      RegisteredPrefix(b);
    }
  }

  lemma RegisteredPrefix(a: Channel)
    requires Registered(a) && a.isPrefix
    ensures a.pattern == a.matchPrefix + "*"
  {
    assert a.pattern[|a.pattern| - 1..] == "*";
  }

  predicate OnePerPattern(inventory: seq<Channel>) {
    forall a, b :: a in inventory && b in inventory && a.pattern == b.pattern ==> a == b
  }

  lemma {:induction false} FirstOfBest(inventory: seq<Channel>, topic: string) returns (i: nat)
    requires MostSpecific(inventory, topic).Some?
    ensures i < |inventory| && MostSpecific(inventory, topic) == Some(inventory[i])
    ensures forall j :: 0 <= j < i ==> !(Matches(inventory[j], topic) && NotAfter(inventory[j], inventory[i]))
  {
    var head, rest := inventory[0], MostSpecific(inventory[1..], topic);
    i := 0;
    if rest.Some? && MostSpecific(inventory, topic) == rest {
      if Matches(head, topic) && NotAfter(head, rest.value) {
        assert rest.value == head;
      } else {
        var k := FirstOfBest(inventory[1..], topic);
        i := k + 1;
        assert forall j :: 0 < j < i ==> inventory[j] == inventory[1..][j - 1];
      }
    }
  }

  lemma SamePatternMatches(a: Channel, b: Channel, topic: string)
    requires Registered(a) && Registered(b) && a.pattern == b.pattern
    ensures Matches(a, topic) <==> Matches(b, topic)
    ensures NotAfter(a, b)
  {
    StrLeTotal(a.pattern, b.pattern);
  }

  /** With a pattern registered more than once the order decides: of the handlers of a pattern only the one
      registered first ever runs. */
  lemma FirstRegistrationWins(inventory: seq<Channel>, topic: string) returns (i: nat)
    requires AllRegistered(inventory) && FirstMatch(SortChannels(inventory), topic).Some?
    ensures i < |inventory| && FirstMatch(SortChannels(inventory), topic) == Some(inventory[i])
    ensures forall j :: 0 <= j < i ==> inventory[j].pattern != inventory[i].pattern
  {
    SortedDispatch(inventory, topic);
    i := FirstOfBest(inventory, topic);
    MostSpecificMeans(inventory, topic);
    forall j | 0 <= j < i ensures inventory[j].pattern != inventory[i].pattern {
      if inventory[j].pattern == inventory[i].pattern {
        SamePatternMatches(inventory[j], inventory[i], topic);
      }
    }
  }

  /** No two handlers are registered for the pattern that takes the topic. */
  predicate Undisputed(inventory: seq<Channel>, topic: string) {
    var r := FirstMatch(SortChannels(inventory), topic);
    r.Some? ==> forall c :: c in inventory && c.pattern == r.value.pattern ==> c == r.value
  }

  /** However the linker lists the channels, the topic goes to the same one. */
  ghost predicate AnyOrder(inventory: seq<Channel>, topic: string) {
    forall other :: multiset(other) == multiset(inventory) ==>
      FirstMatch(SortChannels(other), topic) == FirstMatch(SortChannels(inventory), topic)
  }

  lemma SameMembers(one: seq<Channel>, other: seq<Channel>)
    requires multiset(one) == multiset(other)
    ensures forall c :: c in one <==> c in other
  {
    forall c: Channel ensures c in one <==> c in other {
      assert c in one <==> c in multiset(one);
      assert c in other <==> c in multiset(other);
    }
  }

  /** Every order of registration dispatches a topic to a channel of the same pattern. */
  lemma SamePattern(one: seq<Channel>, other: seq<Channel>, topic: string)
    requires multiset(one) == multiset(other) && AllRegistered(one)
    ensures var r, s := FirstMatch(SortChannels(one), topic), FirstMatch(SortChannels(other), topic);
      (r.Some? <==> s.Some?) && (r.Some? ==> r.value in one && s.value in one && r.value.pattern == s.value.pattern)
  {
    SortedDispatch(one, topic);
    SortedDispatch(other, topic);
    MostSpecificMeans(one, topic);
    MostSpecificMeans(other, topic);
    SameMembers(one, other);
    var r, s := MostSpecific(one, topic), MostSpecific(other, topic);
    assert r.Some? ==> r.value in other && Matches(r.value, topic);
    assert s.Some? ==> s.value in one && Matches(s.value, topic);
    if r.Some? && s.Some? {
      EquallySpecific(r.value, s.value, topic);
    }
  }

  /** A handler moved to the front of the list is the first of its pattern. */
  lemma FrontWins(inventory: seq<Channel>, c: Channel, topic: string) returns (other: seq<Channel>)
    requires AllRegistered(inventory) && c in inventory
    requires FirstMatch(SortChannels(inventory), topic).Some?
    requires FirstMatch(SortChannels(inventory), topic).value.pattern == c.pattern
    ensures multiset(other) == multiset(inventory) && FirstMatch(SortChannels(other), topic) == Some(c)
  {
    var k :| 0 <= k < |inventory| && inventory[k] == c;
    other := [c] + inventory[..k] + inventory[k + 1..];
    assert inventory == inventory[..k] + [c] + inventory[k + 1..];
    SameMembers(inventory, other);
    SamePattern(inventory, other, topic);
    var i := FirstRegistrationWins(other, topic);
    assert other[0] == c;
  }

  /** ORDER, EXACTLY. A topic goes to the same channel under every order of registration exactly when
      its pattern has no second handler. */
  lemma OrderMattersIff(inventory: seq<Channel>, topic: string)
    requires AllRegistered(inventory)
    ensures AnyOrder(inventory, topic) <==> Undisputed(inventory, topic)
  {
    var r := FirstMatch(SortChannels(inventory), topic);
    if Undisputed(inventory, topic) {
      forall other | multiset(other) == multiset(inventory) ensures FirstMatch(SortChannels(other), topic) == r {
        SamePattern(inventory, other, topic);
      }
    } else {
      var c :| c in inventory && c.pattern == r.value.pattern && c != r.value;
      var other := FrontWins(inventory, c, topic);
      assert FirstMatch(SortChannels(other), topic) != r;
    }
  }

  /** With distinct patterns no topic depends on the order of registration. */
  lemma OrderDoesNotMatter(one: seq<Channel>, other: seq<Channel>, topic: string)
    requires multiset(one) == multiset(other) && AllRegistered(one) && OnePerPattern(one)
    ensures FirstMatch(SortChannels(one), topic) == FirstMatch(SortChannels(other), topic)
  {
    SamePattern(one, other, topic);
  }
}
