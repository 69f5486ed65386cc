/** Every change between two specifications is reported once. */
module OpenApiOnce {
  import opened Wrappers
  import opened OpenApiDiff
  import opened OpenApiMeaning

  predicate NoRepeats(s: seq<Change>) {
    forall i, j :: 0 <= i < j < |s| ==> s[i] != s[j]
  }

  predicate Once(r: Report) {
    NoRepeats(r.breaking) && NoRepeats(r.nonBreaking)
  }

  predicate NoneShared(a: seq<Change>, b: seq<Change>) {
    forall i :: 0 <= i < |a| ==> a[i] !in b
  }

  predicate Apart(a: Report, b: Report) {
    NoneShared(a.breaking, b.breaking) && NoneShared(a.nonBreaking, b.nonBreaking)
  }

  lemma ConcatOnce(a: seq<Change>, b: seq<Change>)
    requires NoRepeats(a) && NoRepeats(b) && NoneShared(a, b)
    ensures NoRepeats(a + b)
  {
    forall i, j | 0 <= i < j < |a + b| ensures (a + b)[i] != (a + b)[j] {
      if i < |a| <= j {
        assert b[j - |a|] in b;
      }
    }
  }

  lemma PlusOnce(a: Report, b: Report)
    requires Once(a) && Once(b) && Apart(a, b)
    ensures Once(Plus(a, b))
  {
    ConcatOnce(a.breaking, b.breaking);
    ConcatOnce(a.nonBreaking, b.nonBreaking);
  }

  predicate AllOnce(parts: seq<Report>) {
    && (forall i :: 0 <= i < |parts| ==> Once(parts[i]))
    && (forall i, j :: 0 <= i < j < |parts| ==> Apart(parts[i], parts[j]))
  }

  lemma {:induction false} CollectOnce(parts: seq<Report>)
    requires AllOnce(parts)
    ensures Once(Collect(parts))
  {
    if parts != [] {
      var n := |parts| - 1;
      var front := parts[..n];
      assert forall i :: 0 <= i < n ==> front[i] == parts[i];
      CollectOnce(front);
      forall c ensures !(c in Collect(front).breaking && c in parts[n].breaking)
        ensures !(c in Collect(front).nonBreaking && c in parts[n].nonBreaking)
      {
        CollectHas(front, c);
        FrontApart(parts, front, c);
      }
      PlusOnce(Collect(front), parts[n]);
    }
  }

  lemma FrontApart(parts: seq<Report>, front: seq<Report>, c: Change)
    requires AllOnce(parts) && parts != [] && front == parts[..|parts| - 1]
    ensures !(SomeBreaking(front, c) && c in parts[|parts| - 1].breaking)
    ensures !(SomeAdding(front, c) && c in parts[|parts| - 1].nonBreaking)
  {
    forall i | 0 <= i < |front| ensures Apart(front[i], parts[|parts| - 1]) {
      assert front[i] == parts[i];
    }
  }

  // ---------------------------------------------------------------- reports about one name each

  predicate DistinctTexts(names: seq<string>) {
    forall i, j :: 0 <= i < j < |names| ==> names[i] != names[j]
  }

  lemma VerbsAreDistinct()
    ensures DistinctTexts(VERBS)
  {
    assert |VERBS[0]| == 3 && |VERBS[1]| == 4 && |VERBS[2]| == 3 && |VERBS[3]| == 6 && |VERBS[4]| == 5;
    assert VERBS[0][0] == 'g' && VERBS[2][0] == 'p';
  }

  lemma VerbChangesOnce(verbs: seq<string>, path: string, base: Json, current: Json)
    requires DistinctTexts(verbs)
    ensures Once(Collect(VerbChanges(verbs, path, base, current)))
  {
    var parts := VerbChanges(verbs, path, base, current);
    forall i, j | 0 <= i < j < |parts| ensures Apart(parts[i], parts[j]) {
      forall c ensures !(c in parts[i].breaking && c in parts[j].breaking)
        ensures !(c in parts[i].nonBreaking && c in parts[j].nonBreaking)
      {
        VerbMeans(verbs[i], path, base, current, c);
        VerbMeans(verbs[j], path, base, current, c);
      }
    }
    CollectOnce(parts);
  }

  lemma FieldsRemovedOnce(verb: string, path: string, base: seq<Member>, current: seq<Member>)
    requires Distinct(base)
    ensures Once(Collect(FieldsRemoved(verb, path, base, current)))
  {
    var parts := FieldsRemoved(verb, path, base, current);
    forall i, j | 0 <= i < j < |parts| ensures Apart(parts[i], parts[j]) {
      assert base[i].name != base[j].name;
    }
    CollectOnce(parts);
  }

  lemma FieldsAddedOnce(verb: string, path: string, base: seq<Member>, current: seq<Member>)
    requires Distinct(current)
    ensures Once(Collect(FieldsAdded(verb, path, base, current)))
  {
    var parts := FieldsAdded(verb, path, base, current);
    forall i, j | 0 <= i < j < |parts| ensures Apart(parts[i], parts[j]) {
      assert current[i].name != current[j].name;
    }
    CollectOnce(parts);
  }

  predicate DistinctNames(members: Option<seq<Member>>) {
    members.Some? ==> Distinct(members.value)
  }

  lemma FieldChangesOnce(verb: string, path: string, base: Option<seq<Member>>, current: Option<seq<Member>>)
    requires DistinctNames(base) && DistinctNames(current)
    ensures Once(FieldChanges(verb, path, base, current))
  {
    if base.Some? && current.Some? {
      var gone := FieldsRemoved(verb, path, base.value, current.value);
      var added := FieldsAdded(verb, path, base.value, current.value);
      FieldsRemovedOnce(verb, path, base.value, current.value);
      FieldsAddedOnce(verb, path, base.value, current.value);
      forall c ensures !(c in Collect(gone).breaking && c in Collect(added).breaking)
        ensures !(c in Collect(gone).nonBreaking && c in Collect(added).nonBreaking)
      {
        RemovedMean(verb, path, base.value, current.value, c);
        AddedMean(verb, path, base.value, current.value, c);
      }
      PlusOnce(Collect(gone), Collect(added));
    }
  }

  lemma ResponseOnce(verb: string, path: string, base: Json, current: Json)
    requires DistinctNames(PropsOf(Schema(base, verb))) && DistinctNames(PropsOf(Schema(current, verb)))
    ensures Once(ResponseChange(verb, path, base, current))
  {
    if Schema(base, verb).Some? && Schema(current, verb).Some? {
      var a, b := Schema(base, verb).value, Schema(current, verb).value;
      var fields, types := FieldChanges(verb, path, Props(a), Props(b)), TypeChange(verb, path, TypeOf(a), TypeOf(b));
      FieldChangesOnce(verb, path, Props(a), Props(b));
      forall c ensures !(c in fields.breaking && c in types.breaking)
        ensures !(c in fields.nonBreaking && c in types.nonBreaking)
      {
        FieldsMean(verb, path, Props(a), Props(b), c);
        TypesMean(verb, path, TypeOf(a), TypeOf(b), c);
      }
      PlusOnce(fields, types);
    }
  }

  predicate PropsDistinct(item: Json, verbs: seq<string>) {
    forall i :: 0 <= i < |verbs| ==> DistinctNames(PropsOf(Schema(item, verbs[i])))
  }

  predicate Of(c: Change, verb: string) {
    !c.RemovedEndpoint? && !c.AddedEndpoint? && c.verb == verb
  }

  lemma ResponseOf(verb: string, path: string, base: Json, current: Json, c: Change)
    ensures var r := ResponseChange(verb, path, base, current);
      c in r.breaking || c in r.nonBreaking ==> Of(c, verb)
  {
    ResponseMeans(verb, path, base, current, c);
  }

  lemma ResponsesApart(one: string, other: string, path: string, base: Json, current: Json)
    requires one != other
    ensures Apart(ResponseChange(one, path, base, current), ResponseChange(other, path, base, current))
  {
    var a, b := ResponseChange(one, path, base, current), ResponseChange(other, path, base, current);
    forall c ensures !(c in a.breaking && c in b.breaking)
      ensures !(c in a.nonBreaking && c in b.nonBreaking)
    {
      ResponseOf(one, path, base, current, c);
      ResponseOf(other, path, base, current, c);
    }
  }

  lemma ResponsesOnce(verbs: seq<string>, path: string, base: Json, current: Json)
    requires DistinctTexts(verbs) && PropsDistinct(base, verbs) && PropsDistinct(current, verbs)
    ensures Once(Collect(ResponseChanges(verbs, path, base, current)))
  {
    var parts := ResponseChanges(verbs, path, base, current);
    forall i | 0 <= i < |parts| ensures Once(parts[i]) {
      ResponseOnce(verbs[i], path, base, current);
    }
    forall i, j | 0 <= i < j < |parts| ensures Apart(parts[i], parts[j]) {
      ResponsesApart(verbs[i], verbs[j], path, base, current);
    }
    CollectOnce(parts);
  }

  lemma ItemOnce(verbs: seq<string>, path: string, base: Json, current: Json)
    requires DistinctTexts(verbs) && PropsDistinct(base, verbs) && PropsDistinct(current, verbs)
    ensures Once(Plus(Collect(VerbChanges(verbs, path, base, current)),
                      Collect(ResponseChanges(verbs, path, base, current))))
  {
    var a, b := Collect(VerbChanges(verbs, path, base, current)), Collect(ResponseChanges(verbs, path, base, current));
    VerbChangesOnce(verbs, path, base, current);
    ResponsesOnce(verbs, path, base, current);
    forall c ensures !(c in a.breaking && c in b.breaking)
      ensures !(c in a.nonBreaking && c in b.nonBreaking)
    {
      VerbsMean(verbs, path, base, current, c);
      ResponsesMean(verbs, path, base, current, c);
    }
    PlusOnce(a, b);
  }

  // ---------------------------------------------------------------- the whole report

  /** No object that the comparison looks at has a name twice. */
  predicate WellFormed(paths: seq<Member>) {
    Distinct(paths) && forall i :: 0 <= i < |paths| ==> PropsDistinct(paths[i].value, VERBS)
  }

  lemma EndpointOnce(base: Member, current: seq<Member>)
    requires PropsDistinct(base.value, VERBS) && WellFormed(current)
    ensures Once(EndpointChange(base, current))
  {
    match Lookup(current, base.name) {
      case None =>
      case Some(item) =>
        var k :| 0 <= k < |current| && current[k].name == base.name;
        LookupAt(current, k);
        VerbsAreDistinct();
        ItemOnce(VERBS, base.name, base.value, item);
    }
  }

  lemma EndpointsOnce(base: seq<Member>, current: seq<Member>)
    requires WellFormed(base) && WellFormed(current)
    ensures Once(Collect(EndpointChanges(base, current)))
  {
    var parts := EndpointChanges(base, current);
    forall i | 0 <= i < |parts| ensures Once(parts[i]) {
      EndpointOnce(base[i], current);
    }
    forall i, j | 0 <= i < j < |parts| ensures Apart(parts[i], parts[j]) {
      forall c ensures !(c in parts[i].breaking && c in parts[j].breaking)
        ensures !(c in parts[i].nonBreaking && c in parts[j].nonBreaking)
      {
        EndpointMeans(base, current, i, c);
        EndpointMeans(base, current, j, c);
        assert base[i].name != base[j].name;
      }
    }
    CollectOnce(parts);
  }

  lemma NewEndpointsOnce(base: seq<Member>, current: seq<Member>)
    requires Distinct(current)
    ensures Once(Collect(EndpointsAdded(base, current)))
  {
    var parts := EndpointsAdded(base, current);
    forall i, j | 0 <= i < j < |parts| ensures Apart(parts[i], parts[j]) {
      assert current[i].name != current[j].name;
    }
    CollectOnce(parts);
  }

  lemma NewEndpointsApart(base: seq<Member>, current: seq<Member>)
    requires Distinct(base)
    ensures Apart(Collect(EndpointChanges(base, current)), Collect(EndpointsAdded(base, current)))
  {
    var a, b := Collect(EndpointChanges(base, current)), Collect(EndpointsAdded(base, current));
    forall c ensures !(c in a.breaking && c in b.breaking)
      ensures !(c in a.nonBreaking && c in b.nonBreaking)
    {
      EndpointsMean(base, current, c);
      NewEndpointsMean(base, current, c);
    }
  }

  lemma NeverBoth(base: seq<Member>, current: seq<Member>)
    requires Distinct(base)
    ensures var r := PathChanges(Some(base), Some(current));
      NoneShared(r.breaking, r.nonBreaking)
  {
    var r := PathChanges(Some(base), Some(current));
    forall c ensures !(c in r.breaking && c in r.nonBreaking) {
      ReportMeans(base, current, c);
    }
  }

  /** ONCE EACH. No change is reported twice, nor as breaking and as an addition. */
  lemma ReportedOnce(base: seq<Member>, current: seq<Member>)
    requires WellFormed(base) && WellFormed(current)
    ensures var r := PathChanges(Some(base), Some(current));
      NoRepeats(r.breaking + r.nonBreaking)
  {
    var a, b := Collect(EndpointChanges(base, current)), Collect(EndpointsAdded(base, current));
    EndpointsOnce(base, current);
    NewEndpointsOnce(base, current);
    NewEndpointsApart(base, current);
    PlusOnce(a, b);
    NeverBoth(base, current);
    ConcatOnce(Plus(a, b).breaking, Plus(a, b).nonBreaking);
  }
}
