/** Every run of migration commands on a project without migrations: what the module file says. */
module MigrationsRuns {
  import opened Wrappers
  import opened Text
  import opened MigrationsFile

  // ---------------------------------------------------------------- where the jobs migration is mentioned

  /** `w` keeps two texts apart: no occurrence of `p` reaches into it from outside. */
  predicate Separates(w: string, p: string) {
    w != [] && w[0] !in p && w[|w| - 1] !in p && !Contains(w, p)
  }

  lemma HasIn(pre: string, mid: string, post: string, p: string)
    requires Contains(mid, p)
    ensures Contains(pre + (mid + post), p)
  {
    var i := Find(mid, p).value;
    HasAtWithin(pre, mid, post, p, |pre| + i);
    assert pre + mid + post == pre + (mid + post);
    ContainsIff(pre + (mid + post), p);
  }

  /** A text of two parts kept apart holds `p` only within a part. */
  lemma ApartHas(a: string, w: string, b: string, p: string)
    requires Separates(w, p) && p != []
    ensures Contains(a + (w + b), p) <==> Contains(a, p) || Contains(b, p)
  {
    var s := a + (w + b);
    assert a + w + b == s;
    if Contains(s, p) {
      var i := Find(s, p).value;
      if i + |p| <= |a| {
        HasAtWithin([], a, w + b, p, i);
        assert [] + a + (w + b) == s;
        ContainsIff(a, p);
      } else if i >= |a| + |w| {
        HasAtWithin(a + w, b, [], p, i);
        assert a + w + b + [] == s;
        ContainsIff(b, p);
      } else {
        AcrossHas(a, w, b, p, i);
      }
    }
    if Contains(a, p) {
      HasIn([], a, w + b, p);
      assert [] + (a + (w + b)) == s;
    }
    if Contains(b, p) {
      HasIn(a + w, b, [], p);
      assert a + w + (b + []) == s;
    }
  }

  lemma AcrossHas(a: string, w: string, b: string, p: string, i: nat)
    requires Separates(w, p) && |a| < i + |p| && i < |a| + |w|
    ensures !HasAt(a + (w + b), p, i)
  {
    var s := a + (w + b);
    if i + |p| <= |s| {
      if i < |a| {
        assert s[i..i + |p|][|a| - i] == w[0];
      } else if i + |p| > |a| + |w| {
        assert s[i..i + |p|][|a| + |w| - 1 - i] == w[|w| - 1];
      } else {
        HasAtWithin(a, w, b, p, i);
        assert a + w + b == s;
        ContainsIff(w, p);
        assert !HasAt(w, p, i - |a|);
      }
    }
  }

  lemma LacksChar(s: string, p: string, k: nat)
    requires k < |p| && p[k] !in s
    ensures !Contains(s, p)
  {
    forall i ensures !HasAt(s, p, i) {
      if 0 <= i && i + |p| <= |s| {
        assert s[i..i + |p|][k] == s[i + k];
      }
    }
    ContainsIff(s, p);
  }

  lemma JobsFacts()
    ensures |JOBS| > 14 && JOBS[14] == 'j'
    ensures forall c :: c in {'m', 'd', ' ', ';', '\n', ',', '}'} ==> c !in JOBS
  {
  }

  lemma Separator(w: string)
    requires w != [] && 'j' !in w && w[0] in {'m', ' ', ';', '\n', ',', '}'} && w[|w| - 1] in {' ', '\n'}
    ensures Separates(w, JOBS)
  {
    JobsFacts();
    LacksChar(w, JOBS, 14);
  }

  predicate Mentions(es: seq<string>) {
    exists i :: 0 <= i < |es| && Contains(es[i], JOBS)
  }

  lemma MentionsSnoc(es: seq<string>, m: string)
    ensures Mentions(es + [m]) <==> Mentions(es) || Contains(m, JOBS)
  {
    var t := es + [m];
    assert t[|es|] == m;
    assert forall i :: 0 <= i < |es| ==> t[i] == es[i];
  }

  lemma EntryMentions(front: string, m: string)
    ensures Contains(front + EntryLine(m), JOBS) <==> Contains(front, JOBS) || Contains(m, JOBS)
  {
    Separator("    ");
    Separator(",\n");
    ApartHas(front, "    ", m + ",\n", JOBS);
    ApartHas(m, ",\n", [], JOBS);
    assert m + (",\n" + []) == m + ",\n";
    Empty();
  }

  lemma Empty()
    ensures !Contains("", JOBS)
  {
    JobsFacts();
    LacksChar("", JOBS, 14);
  }

  lemma {:induction false} EntriesMention(es: seq<string>)
    ensures Contains(Entries(es), JOBS) <==> Mentions(es)
  {
    if es == [] {
      Empty();
    } else {
      var front, m := es[..|es| - 1], es[|es| - 1];
      EntriesMention(front);
      EntryMentions(Entries(front), m);
      MentionsLast(es);
    }
  }

  lemma ModLineMentions(m: string, rest: string)
    ensures Contains(ModLine(m) + rest, JOBS) <==> Contains(m, JOBS) || Contains(rest, JOBS)
  {
    Separator("mod ");
    Separator(";\n\n");
    ApartHas([], "mod ", m + (";\n\n" + rest), JOBS);
    ApartHas(m, ";\n\n", rest, JOBS);
    Empty();
    assert [] + ("mod " + (m + (";\n\n" + rest))) == ModLine(m) + rest;
  }

  lemma MentionsLast(es: seq<string>)
    requires es != []
    ensures Mentions(es) <==> Mentions(es[..|es| - 1]) || Contains(es[|es| - 1], JOBS)
  {
    assert es[..|es| - 1] + [es[|es| - 1]] == es;
    MentionsSnoc(es[..|es| - 1], es[|es| - 1]);
  }

  lemma HeadsPeel(es: seq<string>, rest: string)
    requires JOBS !in es && es != []
    ensures Heads(es) + rest == ModLine(es[|es| - 1]) + (Heads(es[..|es| - 1]) + rest)
    ensures JOBS !in es[..|es| - 1]
  {
    assert es[|es| - 1] in es;
    Assoc(ModLine(es[|es| - 1]), Heads(es[..|es| - 1]), rest);
  }

  lemma {:induction false} HeadsMention(es: seq<string>, rest: string)
    requires JOBS !in es
    ensures Contains(Heads(es) + rest, JOBS) <==> Mentions(es) || Contains(rest, JOBS)
  {
    if es == [] {
      assert [] + rest == rest;
    } else {
      HeadsPeel(es, rest);
      MentionsLast(es);
      HeadsMention(es[..|es| - 1], rest);
      ModLineMentions(es[|es| - 1], Heads(es[..|es| - 1]) + rest);
    }
  }

  lemma MacroMentions(body: string)
    ensures Contains(MACRO + ("\n" + (body + "}\n")), JOBS) <==> Contains(body, JOBS)
  {
    JobsFacts();
    MacroLacksJ();
    LacksChar(MACRO, JOBS, 14);
    Separator("\n");
    Separator("}\n");
    ApartHas(MACRO, "\n", body + "}\n", JOBS);
    ApartHas(body, "}\n", [], JOBS);
    assert body + ("}\n" + []) == body + "}\n";
    Empty();
  }

  lemma MacroLacksJ()
    ensures 'j' !in MACRO
  {
    assert 'j' !in MACRO_NAME;
  }

  lemma JobsMentioned(es: seq<string>)
    requires JOBS in es
    ensures Mentions(es)
  {
    var i :| 0 <= i < |es| && es[i] == JOBS;
    ContainsItself(JOBS);
  }

  /** `jobs init` takes the migration for configured exactly when some entry mentions its name. */
  lemma ConfiguredIff(es: seq<string>)
    ensures IsAlreadyConfigured(Layout(es)) <==> Mentions(es)
  {
    EntriesMention(es);
    MacroMentions(Entries(es));
    if JOBS in es {
      JobsMentioned(es);
      HasIn(Heads(es), MACRO + ("\n" + (Entries(es) + "}\n")), [], JOBS);
      assert MACRO + ("\n" + (Entries(es) + "}\n")) + [] == MACRO + ("\n" + (Entries(es) + "}\n"));
    } else {
      HeadsMention(es, MACRO + ("\n" + (Entries(es) + "}\n")));
    }
  }

  // ---------------------------------------------------------------- runs

  /** The entries in order of addition, and the migration files, that a run is meant to leave. */
  datatype Plan = Plan(es: seq<string>, files: set<string>)

  function Added(p: Plan, m: string): Plan {
    Plan(p.es + [m], p.files + {m})
  }

  function PlanStep(p: Plan, c: Command): Plan {
    match c
    case New(ts, name) =>
      if ValidateName(name).Err? || ModuleName(ts, name) in p.files then p else Added(p, ModuleName(ts, name))
    case Generate(ts, plural) => Added(p, ModuleName(ts, "create_" + plural))
    case Jobs => if Mentions(p.es) then p else p.(es := p.es + [JOBS])
  }

  function PlanRun(p: Plan, commands: seq<Command>): Plan
    decreases |commands|
  {
    if commands == [] then p else PlanRun(PlanStep(p, commands[0]), commands[1..])
  }

  predicate ValidCommand(c: Command) {
    match c
    case New(ts, _) => Timestamp(ts)
    case Generate(ts, plural) => Timestamp(ts) && Name(plural)
    case Jobs => true
  }

  predicate ValidCommands(commands: seq<Command>) {
    forall i :: 0 <= i < |commands| ==> ValidCommand(commands[i])
  }

  lemma NamesSnoc(es: seq<string>, m: string)
    requires Names(es) && Name(m)
    ensures Names(es + [m])
  {
  }

  lemma CommandName(c: Command)
    requires ValidCommand(c)
    ensures c.New? && ValidateName(c.name).Ok? ==> Name(ModuleName(c.ts, c.name)) && ModuleName(c.ts, c.name) != JOBS
    ensures c.Generate? ==>
      Name(ModuleName(c.ts, "create_" + c.plural)) && ModuleName(c.ts, "create_" + c.plural) != JOBS
  {
    if c.New? && ValidateName(c.name).Ok? {
      ModuleNameIsName(c.ts, c.name);
    }
    if c.Generate? {
      assert Name("create_");
      assert Name("create_" + c.plural);
      ModuleNameIsName(c.ts, "create_" + c.plural);
    }
  }

  function DirOf(p: Plan): Dir {
    Dir(FileOf(p.es), p.files)
  }

  lemma StepFollowsPlan(p: Plan, c: Command)
    requires Names(p.es) && ValidCommand(c)
    ensures Step(DirOf(p), c) == DirOf(PlanStep(p, c)) && Names(PlanStep(p, c).es)
  {
    CommandName(c);
    match c {
      case New(ts, name) =>
        if ValidateName(name).Ok? {
          UpdateKeepsLayout(p.es, ModuleName(ts, name));
          NamesSnoc(p.es, ModuleName(ts, name));
        }
      case Generate(ts, plural) =>
        UpdateKeepsLayout(p.es, ModuleName(ts, "create_" + plural));
        NamesSnoc(p.es, ModuleName(ts, "create_" + plural));
      case Jobs =>
        InitKeepsLayout(p.es);
        UseFacts();
        NamesSnoc(p.es, JOBS);
    }
  }

  lemma InitKeepsLayout(es: seq<string>)
    requires Names(es)
    ensures InitJobs(FileOf(es)) == Layout(if Mentions(es) then es else es + [JOBS])
  {
    UseFacts();
    if es == [] {
      OneEntry(JOBS);
      assert es + [JOBS] == [JOBS];
    } else {
      ConfiguredIff(es);
      LayoutGrows(es, JOBS);
    }
  }

  /** EVERY RUN. Whatever commands are run, valid or refused, the module file is the layout of the
      planned entries, and the migration files are the planned ones. */
  lemma {:induction false} RunFollowsPlan(p: Plan, commands: seq<Command>)
    requires Names(p.es) && ValidCommands(commands)
    ensures Run(DirOf(p), commands) == DirOf(PlanRun(p, commands)) && Names(PlanRun(p, commands).es)
    decreases |commands|
  {
    if commands != [] {
      StepFollowsPlan(p, commands[0]);
      RunFollowsPlan(PlanStep(p, commands[0]), commands[1..]);
    }
  }

  const START := Plan([], {})

  // ---------------------------------------------------------------- each migration once

  predicate NoRepeats(es: seq<string>) {
    forall i, j :: 0 <= i < j < |es| ==> es[i] != es[j]
  }

  lemma NoRepeatsSnoc(es: seq<string>, m: string)
    ensures NoRepeats(es + [m]) <==> NoRepeats(es) && m !in es
  {
    var t := es + [m];
    assert forall i :: 0 <= i < |es| ==> t[i] == es[i];
    assert t[|es|] == m;
    if NoRepeats(t) {
      forall i | 0 <= i < |es| ensures es[i] != m {
        assert t[i] != t[|es|];
      }
    }
  }

  /** The migration files are the entries other than the framework's own. */
  ghost predicate Coherent(p: Plan) {
    forall m :: m in p.files <==> m in p.es && m != JOBS
  }

  /** Every generated migration gets a file name not taken before. */
  predicate FreshGenerates(p: Plan, commands: seq<Command>)
    decreases |commands|
  {
    commands == [] ||
    ((commands[0].Generate? ==> ModuleName(commands[0].ts, "create_" + commands[0].plural) !in p.files)
     && FreshGenerates(PlanStep(p, commands[0]), commands[1..]))
  }

  lemma StepCoherent(p: Plan, c: Command)
    requires Coherent(p) && ValidCommand(c)
    ensures Coherent(PlanStep(p, c))
    ensures c.Generate? && ModuleName(c.ts, "create_" + c.plural) in p.files ==> !NoRepeats(PlanStep(p, c).es)
    ensures NoRepeats(p.es) && (c.Generate? ==> ModuleName(c.ts, "create_" + c.plural) !in p.files)
      ==> NoRepeats(PlanStep(p, c).es)
    ensures p.es <= PlanStep(p, c).es
  {
    CommandName(c);
    match c {
      case New(ts, name) =>
        NoRepeatsSnoc(p.es, ModuleName(ts, name));
      case Generate(ts, plural) =>
        NoRepeatsSnoc(p.es, ModuleName(ts, "create_" + plural));
      case Jobs =>
        NoRepeatsSnoc(p.es, JOBS);
        if JOBS in p.es {
          JobsMentioned(p.es);
        }
    }
  }

  lemma {:induction false} RunOnlyAdds(p: Plan, commands: seq<Command>)
    requires Coherent(p) && ValidCommands(commands)
    ensures p.es <= PlanRun(p, commands).es
    decreases |commands|
  {
    if commands != [] {
      StepCoherent(p, commands[0]);
      RunOnlyAdds(PlanStep(p, commands[0]), commands[1..]);
    }
  }

  lemma PrefixRepeats(a: seq<string>, b: seq<string>)
    requires a <= b && !NoRepeats(a)
    ensures !NoRepeats(b)
  {
    var i, j :| 0 <= i < j < |a| && a[i] == a[j];
    assert b[i] == b[j];
  }

  /** No entry is listed twice exactly when no generated migration takes the file name of another;
      `migrate new` refuses such a name itself, and `jobs init` may be run any number of times. */
  lemma {:induction false} EachOnceIff(p: Plan, commands: seq<Command>)
    requires Coherent(p) && NoRepeats(p.es) && ValidCommands(commands)
    ensures NoRepeats(PlanRun(p, commands).es) <==> FreshGenerates(p, commands)
    decreases |commands|
  {
    if commands != [] {
      var next := PlanStep(p, commands[0]);
      StepCoherent(p, commands[0]);
      if NoRepeats(next.es) {
        EachOnceIff(next, commands[1..]);
      } else {
        RunOnlyAdds(next, commands[1..]);
        PrefixRepeats(next.es, PlanRun(next, commands[1..]).es);
      }
    }
  }

  function CountOf(es: seq<string>, m: string): nat {
    if es == [] then 0 else CountOf(es[..|es| - 1], m) + if es[|es| - 1] == m then 1 else 0
  }

  lemma {:induction false} CountIn(es: seq<string>, m: string)
    ensures CountOf(es, m) > 0 <==> m in es
  {
    if es != [] {
      CountIn(es[..|es| - 1], m);
      assert es == es[..|es| - 1] + [es[|es| - 1]];
    }
  }

  lemma CountSnoc(es: seq<string>, m: string, n: string)
    ensures CountOf(es + [n], m) == CountOf(es, m) + if n == m then 1 else 0
  {
    assert (es + [n])[..|es|] == es;
  }

  /** The jobs migration is listed at most once, whatever the migrations are called. */
  lemma {:induction false} JobsAtMostOnce(p: Plan, commands: seq<Command>)
    requires CountOf(p.es, JOBS) <= 1 && ValidCommands(commands)
    ensures CountOf(PlanRun(p, commands).es, JOBS) <= 1
    decreases |commands|
  {
    if commands != [] {
      var c := commands[0];
      CommandName(c);
      match c {
        case New(ts, name) => CountSnoc(p.es, JOBS, ModuleName(ts, name));
        case Generate(ts, plural) => CountSnoc(p.es, JOBS, ModuleName(ts, "create_" + plural));
        case Jobs =>
          CountSnoc(p.es, JOBS, JOBS);
          CountIn(p.es, JOBS);
          if JOBS in p.es {
            JobsMentioned(p.es);
          }
      }
      JobsAtMostOnce(PlanStep(p, c), commands[1..]);
    }
  }

  lemma NameMentions(ts: string, name: string)
    requires Contains(name, JOBS)
    ensures Contains(ModuleName(ts, name), JOBS)
  {
    assert ModuleName(ts, name) == "m" + (ts + "_") + (name + []);
    HasIn("m" + (ts + "_"), name, [], JOBS);
  }

  /** One migration whose name mentions the jobs migration, and `jobs init` does nothing. */
  lemma JobsShadowed(ts: string, name: string)
    requires ValidateName(name).Ok? && Contains(name, JOBS)
    ensures PlanRun(START, [New(ts, name), Jobs]).es == [ModuleName(ts, name)]
  {
    var m := ModuleName(ts, name);
    NameMentions(ts, name);
    MentionsSnoc([], m);
    assert [] + [m] == [m];
    TwoCommands(START, New(ts, name), Jobs);
  }

  lemma TwoCommands(p: Plan, c: Command, d: Command)
    ensures PlanRun(p, [c, d]) == PlanStep(PlanStep(p, c), d)
  {
    assert [c, d][1..] == [d] && [d][1..] == [];
    assert PlanRun(PlanStep(p, c), [d]) == PlanRun(PlanStep(PlanStep(p, c), d), []);
  }

  lemma {:induction false} NoBad(name: string)
    requires forall i :: 0 <= i < |name| ==> NameChar(name[i])
    ensures FirstBad(name) == None
  {
    if name != [] {
      NoBad(name[1..]);
    }
  }

  lemma ContainsItself(p: string)
    ensures Contains(p, p)
  {
    assert p[0..|p|] == p;
    assert HasAt(p, p, 0);
  }

  lemma JobsEnds()
    ensures JOBS[0] == 'c' && JOBS[|JOBS| - 1] == 's'
  {
  }

  lemma JobsNameIsAccepted()
    ensures ValidateName(JOBS).Ok? && Contains(JOBS, JOBS)
  {
    UseFacts();
    JobsEnds();
    NoBad(JOBS);
    ContainsItself(JOBS);
  }
}
