/** The change report in terms of places in the two JSON documents: what can be reached from the root
    along a list of member names. */
module OpenApiReach {
  import opened Wrappers
  import opened OpenApiDiff
  import opened OpenApiMeaning

  // ---------------------------------------------------------------- places in a document

  /** No object anywhere in the document has two members of one name. */
  predicate Unique(v: Json) {
    match v
    case Object(members) =>
      Distinct(members) && forall i :: 0 <= i < |members| ==> Unique(members[i].value)
    case _ => true
  }

  /** From `v`, one member name after another leads to `value`. */
  ghost predicate Reaches(v: Json, names: seq<string>, value: Json)
    decreases |names|
  {
    if names == [] then v == value
    else
      v.Object? &&
      exists i :: 0 <= i < |v.members| && v.members[i].name == names[0]
                  && Reaches(v.members[i].value, names[1..], value)
  }

  ghost predicate Holds(v: Json, names: seq<string>) {
    exists value :: Reaches(v, names, value)
  }

  ghost predicate HoldsObject(v: Json, names: seq<string>) {
    exists members :: Reaches(v, names, Object(members))
  }

  predicate Method(verb: string) {
    verb == "get" || verb == "post" || verb == "put" || verb == "delete" || verb == "patch"
  }

  function SchemaPlace(path: string, verb: string): seq<string> {
    ["paths", path, verb, "responses", "200", "content", "application/json", "schema"]
  }

  /** Both documents have an object of paths. */
  ghost predicate Comparable(base: Json, current: Json) {
    HoldsObject(base, ["paths"]) && HoldsObject(current, ["paths"])
  }

  ghost predicate MethodLost(base: Json, current: Json, path: string, verb: string) {
    Method(verb) && Holds(base, ["paths", path, verb])
    && Holds(current, ["paths", path]) && !Holds(current, ["paths", path, verb])
  }

  ghost predicate FieldLost(base: Json, current: Json, path: string, verb: string, prop: string) {
    && Method(verb)
    && Holds(base, SchemaPlace(path, verb) + ["properties", prop])
    && HoldsObject(current, SchemaPlace(path, verb) + ["properties"])
    && !Holds(current, SchemaPlace(path, verb) + ["properties", prop])
  }

  /** What should be reported as breaking: an endpoint, a method or a response field that is gone, or a
      response type that is another. */
  ghost predicate Breaking(c: Change, base: Json, current: Json) {
    Comparable(base, current) &&
    match c
    case RemovedEndpoint(path) => Holds(base, ["paths", path]) && !Holds(current, ["paths", path])
    case RemovedMethod(verb, path) => MethodLost(base, current, path, verb)
    case RemovedField(verb, path, prop) => FieldLost(base, current, path, verb, prop)
    case TypeChanged(verb, path, from, to) =>
      && Method(verb) && from != to
      && Reaches(base, SchemaPlace(path, verb) + ["type"], from)
      && Reaches(current, SchemaPlace(path, verb) + ["type"], to)
    case _ => false
  }

  /** What should be reported as an addition. */
  ghost predicate Adding(c: Change, base: Json, current: Json) {
    Comparable(base, current) &&
    match c
    case AddedEndpoint(path) => Holds(current, ["paths", path]) && !Holds(base, ["paths", path])
    case AddedMethod(verb, path) => MethodLost(current, base, path, verb)
    case AddedField(verb, path, prop) => FieldLost(current, base, path, verb, prop)
    case _ => false
  }

  // ---------------------------------------------------------------- from places to lookups

  function Descend(v: Json, names: seq<string>): Option<Json>
    decreases |names|
  {
    if names == [] then Some(v)
    else match Field(v, names[0])
      case None => None
      case Some(w) => Descend(w, names[1..])
  }

  lemma FieldAt(v: Json, i: nat)
    requires Unique(v) && v.Object? && i < |v.members|
    ensures Field(v, v.members[i].name) == Some(v.members[i].value) && Unique(v.members[i].value)
  {
    LookupAt(v.members, i);
  }

  lemma {:induction false} ReachesDescend(v: Json, names: seq<string>, value: Json)
    requires Unique(v)
    ensures Reaches(v, names, value) <==> Descend(v, names) == Some(value)
    decreases |names|
  {
    if names != [] && v.Object? {
      forall i | 0 <= i < |v.members| && v.members[i].name == names[0]
        ensures Reaches(v.members[i].value, names[1..], value) <==> Descend(v, names) == Some(value)
      {
        FieldAt(v, i);
        ReachesDescend(v.members[i].value, names[1..], value);
      }
      if Field(v, names[0]).Some? {
        var i :| 0 <= i < |v.members| && v.members[i].name == names[0];
        assert Reaches(v.members[i].value, names[1..], value) <==> Descend(v, names) == Some(value);
      }
    }
  }

  lemma HoldsDescend(v: Json, names: seq<string>)
    requires Unique(v)
    ensures Holds(v, names) <==> Descend(v, names).Some?
    ensures HoldsObject(v, names) <==> Members(Descend(v, names)).Some?
  {
    forall value ensures Reaches(v, names, value) <==> Descend(v, names) == Some(value) {
      ReachesDescend(v, names, value);
    }
    if Descend(v, names).Some? {
      assert Reaches(v, names, Descend(v, names).value);
    }
    if Members(Descend(v, names)).Some? {
      assert Reaches(v, names, Object(Members(Descend(v, names)).value));
    }
  }

  lemma {:induction false} DescendThen(v: Json, names: seq<string>, name: string)
    ensures Descend(v, names + [name]) == Dig(Descend(v, names), name)
    decreases |names|
  {
    if names == [] {
      assert [] + [name] == [name] && [name][1..] == [];
    } else {
      assert (names + [name])[0] == names[0] && (names + [name])[1..] == names[1..] + [name];
      if Field(v, names[0]).Some? {
        DescendThen(Field(v, names[0]).value, names[1..], name);
      }
    }
  }

  lemma DescendOne(v: Json, name: string)
    ensures Descend(v, [name]) == Field(v, name)
  {
    DescendThen(v, [], name);
    assert [] + [name] == [name];
  }

  /** The places of an endpoint and of an operation. */
  lemma OperationPlace(v: Json, path: string, verb: string)
    requires PathsOf(v).Some?
    ensures Descend(v, ["paths", path]) == Lookup(PathsOf(v).value, path)
    ensures Descend(v, ["paths", path, verb]) == OperationAt(PathsOf(v).value, path, verb)
  {
    DescendOne(v, "paths");
    assert ["paths"] + [path] == ["paths", path];
    DescendThen(v, ["paths"], path);
    assert ["paths", path] + [verb] == ["paths", path, verb];
    DescendThen(v, ["paths", path], verb);
  }

  lemma DescendTwo(v: Json, names: seq<string>, a: string, b: string)
    ensures Descend(v, names + [a, b]) == Dig(Dig(Descend(v, names), a), b)
  {
    assert names + [a, b] == names + [a] + [b];
    DescendThen(v, names, a);
    DescendThen(v, names + [a], b);
  }

  /** The place of the JSON schema of a 200 response. */
  lemma SchemaPlaceIs(v: Json, path: string, verb: string)
    requires PathsOf(v).Some?
    ensures Descend(v, SchemaPlace(path, verb)) == SchemaAt(PathsOf(v).value, path, verb)
  {
    var op := ["paths", path, verb];
    OperationPlace(v, path, verb);
    DescendTwo(v, op, "responses", "200");
    var ok := op + ["responses", "200"];
    DescendTwo(v, ok, "content", "application/json");
    var body := ok + ["content", "application/json"];
    DescendThen(v, body, "schema");
    assert body + ["schema"] == SchemaPlace(path, verb);
  }

  lemma PropertyPlaces(v: Json, path: string, verb: string, prop: string)
    requires PathsOf(v).Some?
    ensures var schema, place := SchemaAt(PathsOf(v).value, path, verb), SchemaPlace(path, verb);
      && Members(Descend(v, place + ["properties"])) == PropsOf(schema)
      && (Descend(v, place + ["properties", prop]).Some? <==> PropsOf(schema).Some? && Has(PropsOf(schema).value, prop))
      && Descend(v, place + ["type"]) == TypeIn(schema)
  {
    SchemaPlaceIs(v, path, verb);
    DescendThen(v, SchemaPlace(path, verb), "properties");
    DescendTwo(v, SchemaPlace(path, verb), "properties", prop);
    DescendThen(v, SchemaPlace(path, verb), "type");
  }

  lemma ComparableIff(base: Json, current: Json)
    requires Unique(base) && Unique(current)
    ensures Comparable(base, current) <==> PathsOf(base).Some? && PathsOf(current).Some?
  {
    HoldsDescend(base, ["paths"]);
    HoldsDescend(current, ["paths"]);
    DescendOne(base, "paths");
    DescendOne(current, "paths");
  }

  lemma MethodIff(verb: string)
    ensures Method(verb) <==> verb in VERBS
  {
    assert VERBS[0] == "get" && VERBS[1] == "post" && VERBS[2] == "put" && VERBS[3] == "delete" && VERBS[4] == "patch";
  }

  // ---------------------------------------------------------------- each kind of change

  lemma EndpointHolds(v: Json, path: string)
    requires Unique(v) && PathsOf(v).Some?
    ensures Holds(v, ["paths", path]) <==> Has(PathsOf(v).value, path)
  {
    HoldsDescend(v, ["paths", path]);
    OperationPlace(v, path, "");
  }

  lemma MethodHolds(v: Json, path: string, verb: string)
    requires Unique(v) && PathsOf(v).Some?
    ensures Holds(v, ["paths", path, verb]) <==> OperationAt(PathsOf(v).value, path, verb).Some?
  {
    HoldsDescend(v, ["paths", path, verb]);
    OperationPlace(v, path, verb);
  }

  lemma FieldHolds(v: Json, path: string, verb: string, prop: string)
    requires Unique(v) && PathsOf(v).Some?
    ensures var props := PropsOf(SchemaAt(PathsOf(v).value, path, verb));
      && (HoldsObject(v, SchemaPlace(path, verb) + ["properties"]) <==> props.Some?)
      && (Holds(v, SchemaPlace(path, verb) + ["properties", prop]) <==> props.Some? && Has(props.value, prop))
  {
    HoldsDescend(v, SchemaPlace(path, verb) + ["properties"]);
    HoldsDescend(v, SchemaPlace(path, verb) + ["properties", prop]);
    PropertyPlaces(v, path, verb, prop);
  }

  lemma TypeReached(v: Json, path: string, verb: string, t: Json)
    requires Unique(v) && PathsOf(v).Some?
    ensures Reaches(v, SchemaPlace(path, verb) + ["type"], t)
       <==> TypeIn(SchemaAt(PathsOf(v).value, path, verb)) == Some(t)
  {
    ReachesDescend(v, SchemaPlace(path, verb) + ["type"], t);
    PropertyPlaces(v, path, verb, "");
  }

  lemma BreakingIs(base: Json, current: Json, c: Change)
    requires Unique(base) && Unique(current) && PathsOf(base).Some? && PathsOf(current).Some?
    ensures Breaking(c, base, current) <==> Breaks(c, PathsOf(base).value, PathsOf(current).value)
  {
    ComparableIff(base, current);
    match c {
      case RemovedEndpoint(path) =>
        EndpointHolds(base, path);
        EndpointHolds(current, path);
      case RemovedMethod(verb, path) =>
        MethodIff(verb);
        EndpointHolds(current, path);
        MethodHolds(base, path, verb);
        MethodHolds(current, path, verb);
      case RemovedField(verb, path, prop) =>
        MethodIff(verb);
        FieldHolds(base, path, verb, prop);
        FieldHolds(current, path, verb, prop);
      case TypeChanged(verb, path, from, to) =>
        MethodIff(verb);
        TypeReached(base, path, verb, from);
        TypeReached(current, path, verb, to);
      case _ =>
    }
  }

  lemma AddingIs(base: Json, current: Json, c: Change)
    requires Unique(base) && Unique(current) && PathsOf(base).Some? && PathsOf(current).Some?
    ensures Adding(c, base, current) <==> Adds(c, PathsOf(base).value, PathsOf(current).value)
  {
    ComparableIff(base, current);
    BreakingIs(current, base, Mirror(c));
  }

  lemma PathsDistinct(v: Json)
    requires Unique(v) && PathsOf(v).Some?
    ensures Distinct(PathsOf(v).value)
  {
    var i :| 0 <= i < |v.members| && v.members[i].name == "paths";
    FieldAt(v, i);
  }

  // ---------------------------------------------------------------- the report

  /** THE REPORT, place by place. The breaking part of the report on two documents holds exactly what is
      gone or has another type, its other part exactly what is new. */
  lemma ReportReaches(base: Json, current: Json, c: Change)
    requires Unique(base) && Unique(current)
    ensures var r := Detected(base, current);
      && (c in r.breaking <==> Breaking(c, base, current))
      && (c in r.nonBreaking <==> Adding(c, base, current))
  {
    ComparableIff(base, current);
    if PathsOf(base).Some? && PathsOf(current).Some? {
      PathsDistinct(base);
      BreakingIs(base, current, c);
      AddingIs(base, current, c);
      ReportMeans(PathsOf(base).value, PathsOf(current).value, c);
    }
  }

  /** The same endpoints, the same methods of the five, and, where both give them, the same names and the
      same type in the schema of the 200 response. */
  ghost predicate SameApi(base: Json, current: Json) {
    && (forall path :: Holds(base, ["paths", path]) <==> Holds(current, ["paths", path]))
    && (forall path, verb :: Method(verb) ==> SameOperation(base, current, path, verb))
  }

  ghost predicate SameOperation(base: Json, current: Json, path: string, verb: string) {
    var place := SchemaPlace(path, verb);
    && (Holds(base, ["paths", path, verb]) <==> Holds(current, ["paths", path, verb]))
    && (HoldsObject(base, place + ["properties"]) && HoldsObject(current, place + ["properties"]) ==>
          SameFields(base, current, place))
    && SameType(base, current, place + ["type"])
  }

  ghost predicate SameFields(base: Json, current: Json, place: seq<string>) {
    forall prop :: Holds(base, place + ["properties", prop]) <==> Holds(current, place + ["properties", prop])
  }

  ghost predicate SameType(base: Json, current: Json, place: seq<string>) {
    forall s, t :: Reaches(base, place, s) && Reaches(current, place, t) ==> s == t
  }

  lemma OperationIs(base: Json, current: Json, path: string, verb: string)
    requires Unique(base) && Unique(current) && PathsOf(base).Some? && PathsOf(current).Some?
    ensures SameOperation(base, current, path, verb)
       <==> OperationsAgree(PathsOf(base).value, PathsOf(current).value, path, verb)
  {
    var a := SchemaAt(PathsOf(base).value, path, verb);
    var b := SchemaAt(PathsOf(current).value, path, verb);
    MethodHolds(base, path, verb);
    MethodHolds(current, path, verb);
    FieldHolds(base, path, verb, "");
    FieldHolds(current, path, verb, "");
    if PropsOf(a).Some? && PropsOf(b).Some? {
      FieldsIs(base, current, path, verb, PropsOf(a).value, PropsOf(b).value);
    }
    TypesIs(base, current, path, verb, TypeIn(a), TypeIn(b));
  }

  lemma FieldsIs(base: Json, current: Json, path: string, verb: string, a: seq<Member>, b: seq<Member>)
    requires Unique(base) && Unique(current) && PathsOf(base).Some? && PathsOf(current).Some?
    requires PropsOf(SchemaAt(PathsOf(base).value, path, verb)) == Some(a)
    requires PropsOf(SchemaAt(PathsOf(current).value, path, verb)) == Some(b)
    ensures SameFields(base, current, SchemaPlace(path, verb)) <==> SameNames(a, b)
  {
    var place := SchemaPlace(path, verb);
    forall prop
      ensures Holds(base, place + ["properties", prop]) <==> Has(a, prop)
      ensures Holds(current, place + ["properties", prop]) <==> Has(b, prop)
    {
      FieldHolds(base, path, verb, prop);
      FieldHolds(current, path, verb, prop);
    }
    if SameFields(base, current, place) {
      forall name ensures Has(a, name) <==> Has(b, name) {
        assert Holds(base, place + ["properties", name]) <==> Holds(current, place + ["properties", name]);
      }
    }
  }

  lemma TypesIs(base: Json, current: Json, path: string, verb: string, a: Option<Json>, b: Option<Json>)
    requires Unique(base) && Unique(current) && PathsOf(base).Some? && PathsOf(current).Some?
    requires a == TypeIn(SchemaAt(PathsOf(base).value, path, verb))
    requires b == TypeIn(SchemaAt(PathsOf(current).value, path, verb))
    ensures SameType(base, current, SchemaPlace(path, verb) + ["type"]) <==> (a.Some? && b.Some? ==> a == b)
  {
    var place := SchemaPlace(path, verb) + ["type"];
    forall t ensures (Reaches(base, place, t) <==> a == Some(t)) && (Reaches(current, place, t) <==> b == Some(t)) {
      TypeReached(base, path, verb, t);
      TypeReached(current, path, verb, t);
    }
    OneType(base, current, place, a, b);
  }

  lemma OneType(base: Json, current: Json, place: seq<string>, a: Option<Json>, b: Option<Json>)
    requires forall t :: Reaches(base, place, t) <==> a == Some(t)
    requires forall t :: Reaches(current, place, t) <==> b == Some(t)
    ensures SameType(base, current, place) <==> (a.Some? && b.Some? ==> a == b)
  {
    if a.Some? && b.Some? {
      assert Reaches(base, place, a.value) && Reaches(current, place, b.value);
    }
  }

  lemma SameApiIs(base: Json, current: Json)
    requires Unique(base) && Unique(current) && PathsOf(base).Some? && PathsOf(current).Some?
    ensures SameApi(base, current) <==> Agree(PathsOf(base).value, PathsOf(current).value)
  {
    var a, b := PathsOf(base).value, PathsOf(current).value;
    forall path
      ensures (Holds(base, ["paths", path]) <==> Has(a, path)) && (Holds(current, ["paths", path]) <==> Has(b, path))
    {
      EndpointHolds(base, path);
      EndpointHolds(current, path);
    }
    forall path, verb
      ensures SameOperation(base, current, path, verb) <==> OperationsAgree(a, b, path, verb)
    {
      OperationIs(base, current, path, verb);
    }
    forall verb ensures Method(verb) <==> verb in VERBS {
      MethodIff(verb);
    }
  }

  /** Nothing is reported exactly when one document has no object of paths, or both describe the same
      interface. */
  lemma NothingReachesIff(base: Json, current: Json)
    requires Unique(base) && Unique(current)
    ensures Detected(base, current) == NOTHING <==> (Comparable(base, current) ==> SameApi(base, current))
  {
    ComparableIff(base, current);
    if PathsOf(base).Some? && PathsOf(current).Some? {
      PathsDistinct(base);
      SameApiIs(base, current);
      NothingReportedIff(PathsOf(base).value, PathsOf(current).value);
    }
  }
}
