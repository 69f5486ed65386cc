/** What a change report says of the two specifications it compares. */
module OpenApiMeaning {
  import opened Wrappers
  import opened OpenApiDiff

  // ---------------------------------------------------------------- places in a specification

  function OperationAt(paths: seq<Member>, path: string, verb: string): Option<Json> {
    Dig(Lookup(paths, path), verb)
  }

  function SchemaAt(paths: seq<Member>, path: string, verb: string): Option<Json> {
    match Lookup(paths, path)
    case None => None
    case Some(item) => Schema(item, verb)
  }

  function PropsOf(schema: Option<Json>): Option<seq<Member>> {
    if schema.Some? then Props(schema.value) else None
  }

  function TypeIn(schema: Option<Json>): Option<Json> {
    if schema.Some? then TypeOf(schema.value) else None
  }

  /** A name that the first of two given lists has and the second has not. */
  predicate Lost(a: Option<seq<Member>>, b: Option<seq<Member>>, name: string) {
    a.Some? && b.Some? && Has(a.value, name) && !Has(b.value, name)
  }

  predicate Differ(a: Option<Json>, b: Option<Json>, from: Json, to: Json) {
    a == Some(from) && b == Some(to) && from != to
  }

  /** A change that breaks clients: something they may use is gone or has another type. */
  predicate Breaks(c: Change, base: seq<Member>, current: seq<Member>) {
    match c
    case RemovedEndpoint(path) => Has(base, path) && !Has(current, path)
    case RemovedMethod(verb, path) =>
      verb in VERBS && OperationAt(base, path, verb).Some? && Has(current, path)
      && OperationAt(current, path, verb).None?
    case RemovedField(verb, path, prop) =>
      verb in VERBS && Lost(PropsOf(SchemaAt(base, path, verb)), PropsOf(SchemaAt(current, path, verb)), prop)
    case TypeChanged(verb, path, from, to) =>
      verb in VERBS && Differ(TypeIn(SchemaAt(base, path, verb)), TypeIn(SchemaAt(current, path, verb)), from, to)
    case _ => false
  }

  function Mirror(c: Change): Change {
    match c
    case RemovedEndpoint(path) => AddedEndpoint(path)
    case AddedEndpoint(path) => RemovedEndpoint(path)
    case RemovedMethod(verb, path) => AddedMethod(verb, path)
    case AddedMethod(verb, path) => RemovedMethod(verb, path)
    case RemovedField(verb, path, prop) => AddedField(verb, path, prop)
    case AddedField(verb, path, prop) => RemovedField(verb, path, prop)
    case TypeChanged(verb, path, from, to) => TypeChanged(verb, path, to, from)
  }

  /** An addition: seen from the other side, a removal. */
  predicate Adds(c: Change, base: seq<Member>, current: seq<Member>) {
    !c.TypeChanged? && Breaks(Mirror(c), current, base)
  }

  // ---------------------------------------------------------------- from loops to meaning

  ghost predicate SomeBreaking(parts: seq<Report>, c: Change) {
    exists i :: 0 <= i < |parts| && c in parts[i].breaking
  }

  ghost predicate SomeAdding(parts: seq<Report>, c: Change) {
    exists i :: 0 <= i < |parts| && c in parts[i].nonBreaking
  }

  lemma {:induction false} CollectHas(parts: seq<Report>, c: Change)
    ensures c in Collect(parts).breaking <==> SomeBreaking(parts, c)
    ensures c in Collect(parts).nonBreaking <==> SomeAdding(parts, c)
  {
    if parts != [] {
      var n := |parts| - 1;
      var front := parts[..n];
      CollectHas(front, c);
      assert forall i :: 0 <= i < n ==> front[i] == parts[i];
      assert SomeBreaking(parts, c) <==> SomeBreaking(front, c) || c in parts[n].breaking;
      assert SomeAdding(parts, c) <==> SomeAdding(front, c) || c in parts[n].nonBreaking;
    }
  }

  predicate VerbLost(c: Change, verb: string, path: string, base: Json, current: Json) {
    c == RemovedMethod(verb, path) && Field(base, verb).Some? && Field(current, verb).None?
  }

  lemma VerbMeans(verb: string, path: string, base: Json, current: Json, c: Change)
    ensures var r := VerbChange(verb, path, base, current);
      && (c in r.breaking <==> VerbLost(c, verb, path, base, current))
      && (c in r.nonBreaking <==> VerbLost(Mirror(c), verb, path, current, base))
  {
  }

  lemma VerbsMean(verbs: seq<string>, path: string, base: Json, current: Json, c: Change)
    ensures var r := Collect(VerbChanges(verbs, path, base, current));
      && (c in r.breaking <==> c.RemovedMethod? && c.verb in verbs && VerbLost(c, c.verb, path, base, current))
      && (c in r.nonBreaking <==>
            c.AddedMethod? && c.verb in verbs && VerbLost(Mirror(c), c.verb, path, current, base))
  {
    var parts := VerbChanges(verbs, path, base, current);
    CollectHas(parts, c);
    forall i | 0 <= i < |verbs|
      ensures c in parts[i].breaking <==> VerbLost(c, verbs[i], path, base, current)
      ensures c in parts[i].nonBreaking <==> VerbLost(Mirror(c), verbs[i], path, current, base)
    {
      VerbMeans(verbs[i], path, base, current, c);
    }
    if (c.RemovedMethod? || c.AddedMethod?) && c.verb in verbs {
      var i :| 0 <= i < |verbs| && verbs[i] == c.verb;
      assert c in parts[i].breaking <==> VerbLost(c, verbs[i], path, base, current);
    }
  }

  lemma RemovedMean(verb: string, path: string, base: seq<Member>, current: seq<Member>, c: Change)
    ensures var r := Collect(FieldsRemoved(verb, path, base, current));
      && (c in r.breaking <==> c.RemovedField? && c.path == path && c.verb == verb
                               && Has(base, c.prop) && !Has(current, c.prop))
      && c !in r.nonBreaking
  {
    var parts := FieldsRemoved(verb, path, base, current);
    CollectHas(parts, c);
    assert forall i :: 0 <= i < |base| ==>
      parts[i] == if Has(current, base[i].name) then NOTHING else Report([RemovedField(verb, path, base[i].name)], []);
    if c.RemovedField? && Has(base, c.prop) {
      var i :| 0 <= i < |base| && base[i].name == c.prop;
      assert |parts[i].breaking| <= 1;
    }
  }

  lemma AddedMean(verb: string, path: string, base: seq<Member>, current: seq<Member>, c: Change)
    ensures var r := Collect(FieldsAdded(verb, path, base, current));
      && (c in r.nonBreaking <==> c.AddedField? && c.path == path && c.verb == verb
                                  && Has(current, c.prop) && !Has(base, c.prop))
      && c !in r.breaking
  {
    var parts := FieldsAdded(verb, path, base, current);
    CollectHas(parts, c);
    assert forall i :: 0 <= i < |current| ==>
      parts[i] == if Has(base, current[i].name) then NOTHING else Report([], [AddedField(verb, path, current[i].name)]);
    if c.AddedField? && Has(current, c.prop) {
      var i :| 0 <= i < |current| && current[i].name == c.prop;
      assert |parts[i].nonBreaking| <= 1;
    }
  }

  /** What the comparison of two optional schemas at one place says. */
  predicate SchemaBreaks(c: Change, verb: string, path: string, base: Option<Json>, current: Option<Json>) {
    match c
    case RemovedField(v, p, prop) => v == verb && p == path && Lost(PropsOf(base), PropsOf(current), prop)
    case TypeChanged(v, p, from, to) => v == verb && p == path && Differ(TypeIn(base), TypeIn(current), from, to)
    case _ => false
  }

  lemma FieldsMean(verb: string, path: string, a: Option<seq<Member>>, b: Option<seq<Member>>, c: Change)
    ensures var r := FieldChanges(verb, path, a, b);
      && (c in r.breaking <==> c.RemovedField? && c.verb == verb && c.path == path && Lost(a, b, c.prop))
      && (c in r.nonBreaking <==> c.AddedField? && c.verb == verb && c.path == path && Lost(b, a, c.prop))
  {
    if a.Some? && b.Some? {
      RemovedMean(verb, path, a.value, b.value, c);
      AddedMean(verb, path, a.value, b.value, c);
    }
  }

  lemma TypesMean(verb: string, path: string, a: Option<Json>, b: Option<Json>, c: Change)
    ensures var r := TypeChange(verb, path, a, b);
      && (c in r.breaking <==> c.TypeChanged? && c.verb == verb && c.path == path && Differ(a, b, c.from, c.to))
      && r.nonBreaking == []
  {
  }

  lemma ResponseMeans(verb: string, path: string, base: Json, current: Json, c: Change)
    ensures var r := ResponseChange(verb, path, base, current);
      && (c in r.breaking <==> SchemaBreaks(c, verb, path, Schema(base, verb), Schema(current, verb)))
      && (c in r.nonBreaking <==>
            c.AddedField? && SchemaBreaks(Mirror(c), verb, path, Schema(current, verb), Schema(base, verb)))
  {
    if Schema(base, verb).Some? && Schema(current, verb).Some? {
      var a, b := Schema(base, verb).value, Schema(current, verb).value;
      FieldsMean(verb, path, Props(a), Props(b), c);
      TypesMean(verb, path, TypeOf(a), TypeOf(b), c);
    }
  }

  lemma ResponsesMean(verbs: seq<string>, path: string, base: Json, current: Json, c: Change)
    ensures var r := Collect(ResponseChanges(verbs, path, base, current));
      && (c in r.breaking <==>
            (c.RemovedField? || c.TypeChanged?) && c.verb in verbs
            && SchemaBreaks(c, c.verb, path, Schema(base, c.verb), Schema(current, c.verb)))
      && (c in r.nonBreaking <==>
            c.AddedField? && c.verb in verbs
            && SchemaBreaks(Mirror(c), c.verb, path, Schema(current, c.verb), Schema(base, c.verb)))
  {
    var parts := ResponseChanges(verbs, path, base, current);
    CollectHas(parts, c);
    forall i | 0 <= i < |verbs|
      ensures c in parts[i].breaking <==>
                SchemaBreaks(c, verbs[i], path, Schema(base, verbs[i]), Schema(current, verbs[i]))
      ensures c in parts[i].nonBreaking <==>
                c.AddedField?
                && SchemaBreaks(Mirror(c), verbs[i], path, Schema(current, verbs[i]), Schema(base, verbs[i]))
    {
      ResponseMeans(verbs[i], path, base, current, c);
    }
    if (c.RemovedField? || c.TypeChanged? || c.AddedField?) && c.verb in verbs {
      var i :| 0 <= i < |verbs| && verbs[i] == c.verb;
      assert c in parts[i].breaking <==>
               SchemaBreaks(c, verbs[i], path, Schema(base, verbs[i]), Schema(current, verbs[i]));
    }
  }

  /** What the comparison of two path items says. */
  predicate ItemBreaks(c: Change, verbs: seq<string>, path: string, base: Json, current: Json) {
    match c
    case RemovedMethod(verb, p) => verb in verbs && VerbLost(c, verb, path, base, current)
    case RemovedField(verb, _, _) =>
      verb in verbs && SchemaBreaks(c, verb, path, Schema(base, verb), Schema(current, verb))
    case TypeChanged(verb, _, _, _) =>
      verb in verbs && SchemaBreaks(c, verb, path, Schema(base, verb), Schema(current, verb))
    case _ => false
  }

  lemma ItemBreaking(verbs: seq<string>, path: string, base: Json, current: Json, c: Change)
    ensures c in Collect(VerbChanges(verbs, path, base, current)).breaking
         || c in Collect(ResponseChanges(verbs, path, base, current)).breaking
       <==> ItemBreaks(c, verbs, path, base, current)
  {
    VerbsMean(verbs, path, base, current, c);
    ResponsesMean(verbs, path, base, current, c);
  }

  lemma ItemAdding(verbs: seq<string>, path: string, base: Json, current: Json, c: Change)
    ensures c in Collect(VerbChanges(verbs, path, base, current)).nonBreaking
         || c in Collect(ResponseChanges(verbs, path, base, current)).nonBreaking
       <==> !c.TypeChanged? && ItemBreaks(Mirror(c), verbs, path, current, base)
  {
    VerbsMean(verbs, path, base, current, c);
    ResponsesMean(verbs, path, base, current, c);
  }

  lemma ItemMeans(verbs: seq<string>, path: string, base: Json, current: Json, c: Change)
    ensures var r := Plus(Collect(VerbChanges(verbs, path, base, current)),
                          Collect(ResponseChanges(verbs, path, base, current)));
      && (c in r.breaking <==> ItemBreaks(c, verbs, path, base, current))
      && (c in r.nonBreaking <==> !c.TypeChanged? && ItemBreaks(Mirror(c), verbs, path, current, base))
  {
    ItemBreaking(verbs, path, base, current, c);
    ItemAdding(verbs, path, base, current, c);
  }

  lemma EndpointsMean(base: seq<Member>, current: seq<Member>, c: Change)
    requires Distinct(base)
    ensures var r := Collect(EndpointChanges(base, current));
      && (c in r.breaking <==> Breaks(c, base, current))
      && (c in r.nonBreaking <==> Adds(c, base, current) && !c.AddedEndpoint?)
  {
    var parts := EndpointChanges(base, current);
    CollectHas(parts, c);
    forall i | 0 <= i < |base|
      ensures c in parts[i].breaking <==> c.path == base[i].name && Breaks(c, base, current)
      ensures c in parts[i].nonBreaking <==>
                c.path == base[i].name && Adds(c, base, current) && !c.AddedEndpoint?
    {
      EndpointMeans(base, current, i, c);
    }
    if Breaks(c, base, current) || (Adds(c, base, current) && !c.AddedEndpoint?) {
      assert Has(base, c.path);
      var i :| 0 <= i < |base| && base[i].name == c.path;
      assert c in parts[i].breaking <==> c.path == base[i].name && Breaks(c, base, current);
    }
  }

  lemma EndpointMeans(base: seq<Member>, current: seq<Member>, i: nat, c: Change)
    requires Distinct(base) && i < |base|
    ensures var r := EndpointChange(base[i], current);
      && (c in r.breaking <==> c.path == base[i].name && Breaks(c, base, current))
      && (c in r.nonBreaking <==> c.path == base[i].name && Adds(c, base, current) && !c.AddedEndpoint?)
  {
    LookupAt(base, i);
    var path := base[i].name;
    match Lookup(current, path) {
      case None =>
      case Some(item) =>
        ItemMeans(VERBS, path, base[i].value, item, c);
    }
  }

  lemma NewEndpointsMean(base: seq<Member>, current: seq<Member>, c: Change)
    ensures var r := Collect(EndpointsAdded(base, current));
      && c !in r.breaking
      && (c in r.nonBreaking <==> c.AddedEndpoint? && Adds(c, base, current))
  {
    var parts := EndpointsAdded(base, current);
    CollectHas(parts, c);
    assert forall i :: 0 <= i < |current| ==>
      parts[i] == EndpointAdded(base, current[i].name);
    if c.AddedEndpoint? && Has(current, c.path) {
      var i :| 0 <= i < |current| && current[i].name == c.path;
      assert |parts[i].nonBreaking| <= 1;
    }
  }

  // ---------------------------------------------------------------- the report as a whole

  /** THE REPORT. Its breaking part holds exactly the breaking changes between the two
      specifications, its other part exactly the additions. */
  lemma ReportMeans(base: seq<Member>, current: seq<Member>, c: Change)
    requires Distinct(base)
    ensures var r := PathChanges(Some(base), Some(current));
      && (c in r.breaking <==> Breaks(c, base, current))
      && (c in r.nonBreaking <==> Adds(c, base, current))
  {
    EndpointsMean(base, current, c);
    NewEndpointsMean(base, current, c);
  }

  lemma MirrorFlips(base: seq<Member>, current: seq<Member>, c: Change)
    ensures if c.TypeChanged? then Breaks(c, base, current) <==> Breaks(Mirror(c), current, base)
      else && (Breaks(c, base, current) <==> Adds(Mirror(c), current, base))
           && (Adds(c, base, current) <==> Breaks(Mirror(c), current, base))
  {
  }

  /** Swapping the specifications turns every removal into an addition and every addition into a
      removal; a changed type is breaking in both directions. */
  lemma SwapMirrors(base: seq<Member>, current: seq<Member>, c: Change)
    requires Distinct(base) && Distinct(current)
    ensures var there, back := PathChanges(Some(base), Some(current)), PathChanges(Some(current), Some(base));
      if c.TypeChanged? then c in there.breaking <==> Mirror(c) in back.breaking
      else && (c in there.breaking <==> Mirror(c) in back.nonBreaking)
           && (c in there.nonBreaking <==> Mirror(c) in back.breaking)
  {
    ReportMeans(base, current, c);
    ReportMeans(current, base, Mirror(c));
    MirrorFlips(base, current, c);
  }

  ghost predicate SameNames(a: seq<Member>, b: seq<Member>) {
    forall name :: Has(a, name) <==> Has(b, name)
  }

  /** Wherever both schemas give their properties, the same names; wherever both give a type, the same type. */
  ghost predicate SchemasAgree(a: Option<Json>, b: Option<Json>) {
    && (PropsOf(a).Some? && PropsOf(b).Some? ==> SameNames(PropsOf(a).value, PropsOf(b).value))
    && (TypeIn(a).Some? && TypeIn(b).Some? ==> TypeIn(a) == TypeIn(b))
  }

  ghost predicate OperationsAgree(base: seq<Member>, current: seq<Member>, path: string, verb: string) {
    && (OperationAt(base, path, verb).Some? <==> OperationAt(current, path, verb).Some?)
    && SchemasAgree(SchemaAt(base, path, verb), SchemaAt(current, path, verb))
  }

  ghost predicate Agree(base: seq<Member>, current: seq<Member>) {
    && SameNames(base, current)
    && forall path, verb :: verb in VERBS ==> OperationsAgree(base, current, path, verb)
  }

  lemma AgreeingIsSilent(base: seq<Member>, current: seq<Member>, c: Change)
    requires Agree(base, current)
    ensures !Breaks(c, base, current) && !Adds(c, base, current)
  {
    if !c.RemovedEndpoint? && !c.AddedEndpoint? && c.verb in VERBS {
      assert OperationsAgree(base, current, c.path, c.verb);
    }
  }

  lemma SilentIsAgreeing(base: seq<Member>, current: seq<Member>)
    requires forall c :: !Breaks(c, base, current) && !Adds(c, base, current)
    ensures Agree(base, current)
  {
    forall name ensures Has(base, name) <==> Has(current, name) {
      assert !Breaks(RemovedEndpoint(name), base, current) && !Adds(AddedEndpoint(name), base, current);
    }
    forall path, verb | verb in VERBS ensures OperationsAgree(base, current, path, verb) {
      SilentOperation(base, current, path, verb);
    }
  }

  lemma SilentOperation(base: seq<Member>, current: seq<Member>, path: string, verb: string)
    requires verb in VERBS && SameNames(base, current)
    requires forall c :: !Breaks(c, base, current) && !Adds(c, base, current)
    ensures OperationsAgree(base, current, path, verb)
  {
    assert Has(base, path) <==> Has(current, path);
    assert !Breaks(RemovedMethod(verb, path), base, current) && !Adds(AddedMethod(verb, path), base, current);
    var a, b := SchemaAt(base, path, verb), SchemaAt(current, path, verb);
    if PropsOf(a).Some? && PropsOf(b).Some? {
      forall name ensures Has(PropsOf(a).value, name) <==> Has(PropsOf(b).value, name) {
        assert !Breaks(RemovedField(verb, path, name), base, current);
        assert !Adds(AddedField(verb, path, name), base, current);
      }
    }
    if TypeIn(a).Some? && TypeIn(b).Some? {
      assert !Breaks(TypeChanged(verb, path, TypeIn(a).value, TypeIn(b).value), base, current);
    }
  }

  lemma EmptyIff(s: seq<Change>)
    ensures s == [] <==> forall c :: c !in s
  {
    if s != [] {
      assert s[0] in s;
    }
  }

  /** No change is reported exactly when the specifications agree on the endpoints, on the five
      methods, and, where both define the JSON schema of a 200 response, on its property names and
      its type as far as both give them. */
  lemma NothingReportedIff(base: seq<Member>, current: seq<Member>)
    requires Distinct(base)
    ensures PathChanges(Some(base), Some(current)) == NOTHING <==> Agree(base, current)
  {
    var r := PathChanges(Some(base), Some(current));
    EmptyIff(r.breaking);
    EmptyIff(r.nonBreaking);
    forall c ensures c in r.breaking <==> Breaks(c, base, current)
      ensures c in r.nonBreaking <==> Adds(c, base, current)
    {
      ReportMeans(base, current, c);
    }
    if Agree(base, current) {
      forall c ensures c !in r.breaking && c !in r.nonBreaking {
        AgreeingIsSilent(base, current, c);
      }
    }
    if r == NOTHING {
      SilentIsAgreeing(base, current);
    }
  }
}
