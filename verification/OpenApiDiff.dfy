/** Breaking-change detection between two OpenAPI specifications (rapina-cli/src/commands/openapi.rs). */
module OpenApiDiff {
  import opened Wrappers
  import opened Text

  // ---------------------------------------------------------------- JSON

  /** `serde_json::Value`, whose objects keep their members in the order of their names, each name
      once: two objects are equal when they hold the same members, however they were written. */
  datatype Json =
    | Null
    | Bool(b: bool)
    | Number(digits: string)
    | Str(text: string)
    | Array(items: seq<Json>)
    | Object(members: seq<Member>)

  datatype Member = Member(name: string, value: Json)

  function Lookup(members: seq<Member>, name: string): (r: Option<Json>)
    ensures r.Some? <==> exists i :: 0 <= i < |members| && members[i].name == name
  {
    if members == [] then None
    else if members[0].name == name then Some(members[0].value)
    else
      var r := Lookup(members[1..], name);
      assert forall i :: 1 <= i < |members| ==> members[1..][i - 1] == members[i];
      r
  }

  predicate Has(members: seq<Member>, name: string) {
    Lookup(members, name).Some?
  }

  /** `Value::get`: nothing but an object has fields. */
  function Field(v: Json, name: string): Option<Json> {
    if v.Object? then Lookup(v.members, name) else None
  }

  function Dig(v: Option<Json>, name: string): Option<Json> {
    if v.Some? then Field(v.value, name) else None
  }

  function Members(v: Option<Json>): Option<seq<Member>> {
    if v.Some? && v.value.Object? then Some(v.value.members) else None
  }

  predicate Distinct(members: seq<Member>) {
    forall i, j :: 0 <= i < j < |members| ==> members[i].name != members[j].name
  }

  lemma {:induction false} LookupAt(members: seq<Member>, i: nat)
    requires Distinct(members) && i < |members|
    ensures Lookup(members, members[i].name) == Some(members[i].value)
  {
    if i > 0 {
      assert members[0].name != members[i].name;
      LookupAt(members[1..], i - 1);
    }
  }

  predicate InOrder(members: seq<Member>) {
    forall i, j :: 0 <= i < j < |members| ==>
      StrLe(members[i].name, members[j].name) && members[i].name != members[j].name
  }

  lemma LookupFirst(members: seq<Member>, name: string)
    requires InOrder(members) && Has(members, name)
    ensures StrLe(members[0].name, name)
  {
    var i :| 0 <= i < |members| && members[i].name == name;
    StrLeTotal(name, name);
  }

  lemma LookupRest(members: seq<Member>, name: string)
    requires InOrder(members) && members != []
    ensures InOrder(members[1..])
    ensures Lookup(members[1..], name) == if name == members[0].name then None else Lookup(members, name)
  {
    assert forall i :: 0 < i < |members| ==> members[1..][i - 1] == members[i];
  }

  ghost predicate SameLookups(a: seq<Member>, b: seq<Member>) {
    forall name :: Lookup(a, name) == Lookup(b, name)
  }

  lemma {:induction false} SameLookupsSame(a: seq<Member>, b: seq<Member>)
    requires InOrder(a) && InOrder(b) && SameLookups(a, b)
    ensures a == b
  {
    if a == [] {
      assert b != [] ==> Lookup(b, b[0].name) == Lookup(a, b[0].name);
    } else {
      var head := a[0].name;
      assert Lookup(b, head) == Lookup(a, head) == Some(a[0].value);
      assert Lookup(a, b[0].name) == Lookup(b, b[0].name) == Some(b[0].value);
      LookupFirst(a, b[0].name);
      LookupFirst(b, head);
      StrLeTotal(head, b[0].name);
      LookupRest(a, head);
      LookupRest(b, head);
      forall name ensures Lookup(a[1..], name) == Lookup(b[1..], name) {
        LookupRest(a, name);
        LookupRest(b, name);
        assert Lookup(a, name) == Lookup(b, name);
      }
      SameLookupsSame(a[1..], b[1..]);
      assert a == [a[0]] + a[1..] && b == [b[0]] + b[1..];
    }
  }

  /** Objects in name order are equal exactly when every name has the same value in both. */
  lemma SameMembers(a: seq<Member>, b: seq<Member>)
    requires InOrder(a) && InOrder(b)
    ensures Object(a) == Object(b) <==> SameLookups(a, b)
  {
    if SameLookups(a, b) {
      SameLookupsSame(a, b);
    }
  }

  // ---------------------------------------------------------------- reports

  datatype Change =
    | RemovedEndpoint(path: string)
    | AddedEndpoint(path: string)
    | RemovedMethod(verb: string, path: string)
    | AddedMethod(verb: string, path: string)
    | RemovedField(verb: string, path: string, prop: string)
    | AddedField(verb: string, path: string, prop: string)
    | TypeChanged(verb: string, path: string, from: Json, to: Json)

  datatype Report = Report(breaking: seq<Change>, nonBreaking: seq<Change>)

  const NOTHING := Report([], [])

  function Plus(a: Report, b: Report): Report {
    Report(a.breaking + b.breaking, a.nonBreaking + b.nonBreaking)
  }

  function Collect(parts: seq<Report>): Report {
    if parts == [] then NOTHING else Plus(Collect(parts[..|parts| - 1]), parts[|parts| - 1])
  }

  lemma PlusAssoc(a: Report, b: Report, c: Report)
    ensures Plus(Plus(a, b), c) == Plus(a, Plus(b, c))
    ensures Plus(a, NOTHING) == a && Plus(NOTHING, a) == a
  {
  }

  lemma CollectStep(parts: seq<Report>, i: nat)
    requires i < |parts|
    ensures Collect(parts[..i + 1]) == Plus(Collect(parts[..i]), parts[i])
  {
    assert parts[..i + 1][..i] == parts[..i];
  }

  /** One more round of a loop that reports into `acc`. */
  lemma CollectRound(start: Report, parts: seq<Report>, i: nat)
    requires i < |parts|
    ensures Plus(Plus(start, Collect(parts[..i])), parts[i]) == Plus(start, Collect(parts[..i + 1]))
  {
    CollectStep(parts, i);
    PlusAssoc(start, Collect(parts[..i]), parts[i]);
  }

  lemma CollectEnds(start: Report, parts: seq<Report>)
    ensures Plus(start, Collect(parts[..0])) == start
    ensures parts[..|parts|] == parts
  {
  }

  // ---------------------------------------------------------------- what each check reports

  const VERBS: seq<string> := ["get", "post", "put", "delete", "patch"]

  function VerbChange(verb: string, path: string, base: Json, current: Json): Report {
    if Field(base, verb).Some? && Field(current, verb).None? then Report([RemovedMethod(verb, path)], [])
    else if Field(base, verb).None? && Field(current, verb).Some? then Report([], [AddedMethod(verb, path)])
    else NOTHING
  }

  function VerbChanges(verbs: seq<string>, path: string, base: Json, current: Json): seq<Report> {
    seq(|verbs|, i requires 0 <= i < |verbs| => VerbChange(verbs[i], path, base, current))
  }

  function FieldsRemoved(verb: string, path: string, base: seq<Member>, current: seq<Member>): seq<Report> {
    seq(|base|, i requires 0 <= i < |base| =>
      if Has(current, base[i].name) then NOTHING else Report([RemovedField(verb, path, base[i].name)], []))
  }

  function FieldsAdded(verb: string, path: string, base: seq<Member>, current: seq<Member>): seq<Report> {
    seq(|current|, i requires 0 <= i < |current| =>
      if Has(base, current[i].name) then NOTHING else Report([], [AddedField(verb, path, current[i].name)]))
  }

  function FieldChanges(verb: string, path: string, base: Option<seq<Member>>, current: Option<seq<Member>>): Report {
    if base.Some? && current.Some?
    then Plus(Collect(FieldsRemoved(verb, path, base.value, current.value)),
              Collect(FieldsAdded(verb, path, base.value, current.value)))
    else NOTHING
  }

  function TypeChange(verb: string, path: string, base: Option<Json>, current: Option<Json>): Report {
    if base.Some? && current.Some? && base.value != current.value
    then Report([TypeChanged(verb, path, base.value, current.value)], [])
    else NOTHING
  }

  function Props(schema: Json): Option<seq<Member>> {
    Members(Field(schema, "properties"))
  }

  function TypeOf(schema: Json): Option<Json> {
    Field(schema, "type")
  }

  function SchemaChange(verb: string, path: string, base: Json, current: Json): Report {
    Plus(FieldChanges(verb, path, Props(base), Props(current)),
         TypeChange(verb, path, TypeOf(base), TypeOf(current)))
  }

  /** The schema of the JSON body of the 200 response of an operation. */
  function SchemaOf(op: Json): Option<Json> {
    Dig(Dig(Dig(Dig(Field(op, "responses"), "200"), "content"), "application/json"), "schema")
  }

  function Schema(item: Json, verb: string): Option<Json> {
    match Field(item, verb)
    case None => None
    case Some(op) => SchemaOf(op)
  }

  function ResponseChange(verb: string, path: string, base: Json, current: Json): Report {
    if Schema(base, verb).Some? && Schema(current, verb).Some?
    then SchemaChange(verb, path, Schema(base, verb).value, Schema(current, verb).value)
    else NOTHING
  }

  function ResponseChanges(verbs: seq<string>, path: string, base: Json, current: Json): seq<Report> {
    seq(|verbs|, i requires 0 <= i < |verbs| => ResponseChange(verbs[i], path, base, current))
  }

  function ItemChanges(path: string, base: Json, current: Json): Report {
    Plus(Collect(VerbChanges(VERBS, path, base, current)), Collect(ResponseChanges(VERBS, path, base, current)))
  }

  function EndpointChange(base: Member, current: seq<Member>): Report {
    match Lookup(current, base.name)
    case None => Report([RemovedEndpoint(base.name)], [])
    case Some(item) => ItemChanges(base.name, base.value, item)
  }

  function EndpointChanges(base: seq<Member>, current: seq<Member>): seq<Report> {
    seq(|base|, i requires 0 <= i < |base| => EndpointChange(base[i], current))
  }

  function EndpointAdded(base: seq<Member>, name: string): Report {
    if Has(base, name) then NOTHING else Report([], [AddedEndpoint(name)])
  }

  function EndpointsAdded(base: seq<Member>, current: seq<Member>): seq<Report> {
    seq(|current|, i requires 0 <= i < |current| => EndpointAdded(base, current[i].name))
  }

  function PathsOf(spec: Json): Option<seq<Member>> {
    Members(Field(spec, "paths"))
  }

  function PathChanges(base: Option<seq<Member>>, current: Option<seq<Member>>): Report {
    if base.Some? && current.Some?
    then Plus(Collect(EndpointChanges(base.value, current.value)), Collect(EndpointsAdded(base.value, current.value)))
    else NOTHING
  }

  // ---------------------------------------------------------------- the checks, filling one report

  lemma ItemRound(start: Report, path: string, base: Json, current: Json)
    ensures Plus(Plus(start, Collect(VerbChanges(VERBS, path, base, current))),
                 Collect(ResponseChanges(VERBS, path, base, current)))
         == Plus(start, ItemChanges(path, base, current))
  {
    PlusAssoc(start, Collect(VerbChanges(VERBS, path, base, current)),
              Collect(ResponseChanges(VERBS, path, base, current)));
  }

  class ChangeReport {
    var breaking: seq<Change>
    var nonBreaking: seq<Change>

    ghost function Value(): Report
      reads this
    {
      Report(breaking, nonBreaking)
    }

    constructor ()
      ensures Value() == NOTHING
    {
      breaking, nonBreaking := [], [];
    }

    method CheckRemovedMethods(path: string, base: Json, current: Json)
      modifies this
      ensures Value() == Plus(old(Value()), Collect(VerbChanges(VERBS, path, base, current)))
    {
      var verbs := VERBS;
      ghost var start, parts := Value(), VerbChanges(verbs, path, base, current);
      CollectEnds(start, parts);
      var i := 0;
      while i < |verbs|
        invariant i <= |verbs|
        invariant Value() == Plus(start, Collect(parts[..i]))
      {
        var verb := verbs[i];
        var baseHas, currentHas := Field(base, verb).Some?, Field(current, verb).Some?;
        CollectRound(start, parts, i);
        if baseHas && !currentHas {
          breaking := breaking + [RemovedMethod(verb, path)];
        } else if !baseHas && currentHas {
          nonBreaking := nonBreaking + [AddedMethod(verb, path)];
        }
        i := i + 1;
      }
    }

    method CheckFields(verb: string, path: string, base: seq<Member>, current: seq<Member>)
      modifies this
      ensures Value() == Plus(old(Value()), FieldChanges(verb, path, Some(base), Some(current)))
    {
      ghost var start, gone := Value(), FieldsRemoved(verb, path, base, current);
      CollectEnds(start, gone);
      var i := 0;
      while i < |base|
        invariant i <= |base|
        invariant Value() == Plus(start, Collect(gone[..i]))
      {
        CollectRound(start, gone, i);
        if !Has(current, base[i].name) {
          breaking := breaking + [RemovedField(verb, path, base[i].name)];
        }
        i := i + 1;
      }
      ghost var middle, added := Value(), FieldsAdded(verb, path, base, current);
      CollectEnds(middle, added);
      i := 0;
      while i < |current|
        invariant i <= |current|
        invariant Value() == Plus(middle, Collect(added[..i]))
      {
        CollectRound(middle, added, i);
        if !Has(base, current[i].name) {
          nonBreaking := nonBreaking + [AddedField(verb, path, current[i].name)];
        }
        i := i + 1;
      }
      PlusAssoc(start, Collect(gone), Collect(added));
    }

    method CheckSchemaChanges(verb: string, path: string, base: Json, current: Json)
      modifies this
      ensures Value() == Plus(old(Value()), SchemaChange(verb, path, base, current))
    {
      ghost var start := Value();
      ghost var types := TypeChange(verb, path, TypeOf(base), TypeOf(current));
      PlusAssoc(start, FieldChanges(verb, path, Props(base), Props(current)), types);
      PlusAssoc(start, NOTHING, NOTHING);
      if Props(base).Some? && Props(current).Some? {
        CheckFields(verb, path, Props(base).value, Props(current).value);
      }
      assert Value() == Plus(start, FieldChanges(verb, path, Props(base), Props(current)));
      PlusAssoc(Value(), NOTHING, NOTHING);
      var baseType, currentType := TypeOf(base), TypeOf(current);
      if baseType.Some? && currentType.Some? && baseType.value != currentType.value {
        breaking := breaking + [TypeChanged(verb, path, baseType.value, currentType.value)];
      }
    }

    method CheckResponseChanges(path: string, base: Json, current: Json)
      modifies this
      ensures Value() == Plus(old(Value()), Collect(ResponseChanges(VERBS, path, base, current)))
    {
      var verbs := VERBS;
      ghost var start, parts := Value(), ResponseChanges(verbs, path, base, current);
      CollectEnds(start, parts);
      var i := 0;
      while i < |verbs|
        invariant i <= |verbs|
        invariant Value() == Plus(start, Collect(parts[..i]))
      {
        var verb := verbs[i];
        CollectRound(start, parts, i);
        PlusAssoc(Value(), NOTHING, NOTHING);
        var baseSchema, currentSchema := Schema(base, verb), Schema(current, verb);
        if baseSchema.Some? && currentSchema.Some? {
          CheckSchemaChanges(verb, path, baseSchema.value, currentSchema.value);
        }
        i := i + 1;
      }
    }

    method CheckEndpoint(base: Member, current: seq<Member>)
      modifies this
      ensures Value() == Plus(old(Value()), EndpointChange(base, current))
    {
      ghost var before := Value();
      match Lookup(current, base.name) {
        case None =>
          PlusAssoc(before, NOTHING, NOTHING);
          breaking := breaking + [RemovedEndpoint(base.name)];
        case Some(item) =>
          ItemRound(before, base.name, base.value, item);
          CheckRemovedMethods(base.name, base.value, item);
          CheckResponseChanges(base.name, base.value, item);
      }
    }
  }

  method CheckEndpoints(base: seq<Member>, current: seq<Member>, report: ChangeReport)
    modifies report
    ensures report.Value() == Plus(old(report.Value()), Collect(EndpointChanges(base, current)))
  {
    ghost var start, parts := report.Value(), EndpointChanges(base, current);
    CollectEnds(start, parts);
    var i := 0;
    while i < |base|
      invariant i <= |base|
      invariant report.Value() == Plus(start, Collect(parts[..i]))
    {
      CollectRound(start, parts, i);
      report.CheckEndpoint(base[i], current);
      i := i + 1;
    }
  }

  method CheckNewEndpoints(base: seq<Member>, current: seq<Member>, report: ChangeReport)
    modifies report
    ensures report.Value() == Plus(old(report.Value()), Collect(EndpointsAdded(base, current)))
  {
    ghost var start, parts := report.Value(), EndpointsAdded(base, current);
    CollectEnds(start, parts);
    var i := 0;
    while i < |current|
      invariant i <= |current|
      invariant report.Value() == Plus(start, Collect(parts[..i]))
    {
      CollectRound(start, parts, i);
      if !Has(base, current[i].name) {
        report.nonBreaking := report.nonBreaking + [AddedEndpoint(current[i].name)];
      }
      i := i + 1;
    }
  }

  function Detected(base: Json, current: Json): Report {
    PathChanges(PathsOf(base), PathsOf(current))
  }

  /** Two specifications are compared only when both have an object of paths. */
  method DetectBreakingChanges(base: Json, current: Json) returns (report: ChangeReport)
    ensures fresh(report)
    ensures report.Value() == Detected(base, current)
  {
    report := new ChangeReport();
    PlusAssoc(NOTHING, NOTHING, NOTHING);
    var basePaths, currentPaths := PathsOf(base), PathsOf(current);
    if basePaths.Some? && currentPaths.Some? {
      PlusAssoc(NOTHING, Collect(EndpointChanges(basePaths.value, currentPaths.value)),
                Collect(EndpointsAdded(basePaths.value, currentPaths.value)));
      CheckEndpoints(basePaths.value, currentPaths.value, report);
      CheckNewEndpoints(basePaths.value, currentPaths.value, report);
      PlusAssoc(PathChanges(basePaths, currentPaths), NOTHING, NOTHING);
    }
  }
}
