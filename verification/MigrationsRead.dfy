/** Reading the migrations module file back: its declarations and its macro entries. */
module MigrationsRead {
  import opened Wrappers
  import opened Text
  import opened MigrationsFile
  import opened MigrationsRuns
  import opened Comments

  // ---------------------------------------------------------------- a reader

  /** Comma-separated items, with or without a comma after the last. */
  function Items(inner: string): seq<string> {
    var items := TrimAll(Split(inner, ','));
    if items != [] && items[|items| - 1] == [] then items[..|items| - 1] else items
  }

  /** Where the text inside the brace that ends `word` starts, and the first closing brace after it. */
  function CloseAt(text: string, word: string): (r: Option<(nat, nat)>)
    ensures r.Some? ==> r.value.0 <= r.value.1 < |text|
  {
    match Find(text, word)
    case None => None
    case Some(start) =>
      var from := start + |word|;
      var close := from + CharPos(text[from..], '}');
      if close < |text| then Some((from, close)) else None
  }

  /** What stands between the brace that ends `word` and the first closing brace. */
  function ItemsAfter(text: string, word: string): seq<string> {
    match CloseAt(text, word)
    case None => []
    case Some((from, close)) => Items(text[from..close])
  }

  /** What the macro lists: comments and string literals are no part of it. */
  function MacroEntries(text: string): seq<string> {
    ItemsAfter(Visible(text), MACRO)
  }

  const USE_LINE := "use rapina::jobs::create_rapina_jobs;"

  function DeclaredBy(line: string): seq<string> {
    if line == USE_LINE then [JOBS]
    else if |line| >= 5 && StartsWith(line, "mod ") && line[|line| - 1] == ';' then [line[4..|line| - 1]]
    else []
  }

  function DeclaredIn(lines: seq<string>): seq<string> {
    if lines == [] then [] else DeclaredBy(lines[0]) + DeclaredIn(lines[1..])
  }

  /** The modules and imports declared in front of the macro. */
  function Declared(text: string): seq<string> {
    match Find(Visible(text), MACRO)
    case None => []
    case Some(start) => DeclaredIn(Lines(Visible(text)[..start]))
  }

  // ---------------------------------------------------------------- the entries

  lemma MacroFound(heads: string, word: string, body: string)
    requires '{' !in heads && word != [] && word[|word| - 1] == '{' && '{' !in word[..|word| - 1]
    ensures var t := Laid(heads, word, body);
      && Find(t, word) == Some(|heads|) && t[..|heads|] == heads
      && t[|heads| + |word|..] == "\n" + body + "}\n"
  {
    FindByBrace(heads, word, "\n" + (body + "}\n"));
  }

  /** The body of the macro, item by item. */
  function Body(es: seq<string>): string {
    if es == [] then "\n" else "\n    " + es[0] + "," + Body(es[1..])
  }

  lemma BodyOne(m: string)
    ensures Body([m]) == "\n" + EntryLine(m)
  {
    assert [m][1..] == [];
    assert Body([m]) == "\n    " + m + "," + "\n";
  }

  lemma {:induction false} BodySnoc(es: seq<string>, m: string)
    ensures Body(es + [m]) == Body(es) + EntryLine(m)
  {
    if es == [] {
      assert [] + [m] == [m];
      BodyOne(m);
    } else {
      assert (es + [m])[1..] == es[1..] + [m];
      BodySnoc(es[1..], m);
      Assoc("\n    " + es[0] + ",", Body(es[1..]), EntryLine(m));
    }
  }

  lemma {:induction false} BodyIsEntries(es: seq<string>)
    ensures Body(es) == "\n" + Entries(es)
  {
    if es != [] {
      var front, m := es[..|es| - 1], es[|es| - 1];
      assert es == front + [m];
      BodyIsEntries(front);
      BodySnoc(front, m);
      Assoc("\n", Entries(front), EntryLine(m));
    }
  }

  lemma ItemTrimmed(m: string)
    requires Name(m)
    ensures Trim("\n    " + m) == m && ',' !in "\n    " + m
  {
    assert NameChar(m[0]) && NameChar(m[|m| - 1]);
    TrimIs("\n    ", m, []);
    assert "\n    " + m + [] == "\n    " + m;
  }

  lemma {:induction false} BodyItems(es: seq<string>)
    requires Names(es)
    ensures TrimAll(Split(Body(es), ',')) == es + [[]]
  {
    if es == [] {
      SplitNone("\n", ',');
      TrimAllSpace("\n");
      assert ["\n"][1..] == [];
    } else {
      assert es == [es[0]] + es[1..];
      Assoc([es[0]], es[1..], [[]]);
      var head := "\n    " + es[0];
      ItemTrimmed(es[0]);
      SplitStep(head, Body(es[1..]), ',');
      TrimAllCons(head, Split(Body(es[1..]), ','));
      BodyItems(es[1..]);
    }
  }

  lemma BodyRead(es: seq<string>)
    requires Names(es)
    ensures Items(Body(es)) == es
  {
    BodyItems(es);
    assert (es + [[]])[..|es|] == es;
  }

  lemma CharPosAt(inner: string, rest: string)
    requires '}' !in inner
    ensures CharPos(inner + ("}" + rest), '}') == |inner|
  {
    CharPosConcat(inner, rest, '}');
    Assoc(inner, "}", rest);
  }

  lemma Inside(a: string, word: string, inner: string, rest: string)
    ensures var t := a + (word + (inner + ("}" + rest)));
      && t[|a| + |word|..] == inner + ("}" + rest)
      && t[|a| + |word|..|a| + |word| + |inner|] == inner
      && t[|a| + |word| + |inner| + 1..] == rest
  {
  }

  /** Where the macro opens and closes, part by part. */
  lemma CloseIs(a: string, word: string, inner: string, rest: string)
    requires Find(a + (word + (inner + ("}" + rest))), word) == Some(|a|) && '}' !in inner
    ensures CloseAt(a + (word + (inner + ("}" + rest))), word) == Some((|a| + |word|, |a| + |word| + |inner|))
  {
    Inside(a, word, inner, rest);
    CharPosAt(inner, rest);
  }

  lemma ItemsIs(a: string, word: string, inner: string, rest: string)
    requires Find(a + (word + (inner + ("}" + rest))), word) == Some(|a|) && '}' !in inner
    ensures ItemsAfter(a + (word + (inner + ("}" + rest))), word) == Items(inner)
  {
    CloseIs(a, word, inner, rest);
    Inside(a, word, inner, rest);
  }

  lemma ReadLaid(heads: string, word: string, body: string)
    requires '{' !in heads && word != [] && word[|word| - 1] == '{' && '{' !in word[..|word| - 1]
    requires '}' !in body
    ensures ItemsAfter(Laid(heads, word, body), word) == Items("\n" + body)
  {
    assert Laid(heads, word, body) == heads + (word + (("\n" + body) + ("}" + "\n")));
    FindByBrace(heads, word, ("\n" + body) + ("}" + "\n"));
    ItemsIs(heads, word, "\n" + body, "\n");
  }

  lemma {:induction false} EntriesHaveNoBrace(es: seq<string>)
    requires Names(es)
    ensures '}' !in Entries(es)
  {
    if es != [] {
      var m := es[|es| - 1];
      assert Name(m) && '}' !in m;
      EntriesHaveNoBrace(es[..|es| - 1]);
    }
  }

  lemma HeadPlain(m: string, first: bool)
    requires Name(m)
    ensures NoMarks(HeadLine(m, first))
  {
    assert NoMarks(m) by {
      assert !NameChar('/') && !NameChar('"');
    }
    assert NoMarks(USE_JOBS);
  }

  lemma EntryPlain(m: string)
    requires Name(m)
    ensures NoMarks(EntryLine(m))
  {
    assert NoMarks(m) by {
      assert !NameChar('/') && !NameChar('"');
    }
  }

  lemma {:induction false} PlainParts(es: seq<string>)
    requires Names(es)
    ensures NoMarks(Heads(es)) && NoMarks(Entries(es))
  {
    if es != [] {
      HeadPlain(es[|es| - 1], |es| == 1);
      EntryPlain(es[|es| - 1]);
      PlainParts(es[..|es| - 1]);
    }
  }

  /** A generated file has no comments. */
  lemma LayoutPlain(es: seq<string>)
    requires Names(es)
    ensures Visible(Layout(es)) == Layout(es)
  {
    PlainParts(es);
    MacroPlain();
    LaidPlain(Heads(es), MACRO, Entries(es));
    PlainVisible(Layout(es));
  }

  lemma MacroPlain()
    ensures NoMarks(MACRO)
  {
    assert NoMarks(MACRO_NAME);
  }

  lemma LaidPlain(heads: string, word: string, body: string)
    requires NoMarks(heads) && NoMarks(word) && NoMarks(body)
    ensures NoMarks(Laid(heads, word, body))
  {
  }

  /** The macro lists the migrations, one entry each, in order of addition. */
  lemma MacroLists(es: seq<string>)
    requires Names(es)
    ensures MacroEntries(Layout(es)) == es
  {
    HeadsHaveNoBrace(es);
    MacroFacts();
    EntriesHaveNoBrace(es);
    ReadLaid(Heads(es), MACRO, Entries(es));
    BodyIsEntries(es);
    BodyRead(es);
    LayoutPlain(es);
  }

  // ---------------------------------------------------------------- the declarations

  function NewestFirst(es: seq<string>): seq<string> {
    if es == [] then [] else [es[|es| - 1]] + NewestFirst(es[..|es| - 1])
  }

  lemma ModDeclares(m: string)
    requires Name(m)
    ensures var line := "mod " + (m + ";");
      '\n' !in line && StripCR(line) == line && DeclaredBy(line) == [m]
  {
    var line := "mod " + (m + ";");
    assert '\n' !in m by {
      assert !NameChar('\n');
    }
    assert line[|line| - 1] == ';' && line[0] == 'm' && USE_LINE[0] == 'u';
    assert line[0..4] == "mod ";
    assert line[4..|line| - 1] == m;
  }

  lemma UseDeclares()
    ensures '\n' !in USE_LINE && StripCR(USE_LINE) == USE_LINE && DeclaredBy(USE_LINE) == [JOBS]
    ensures USE_JOBS == USE_LINE + "\n"
  {
  }

  lemma DeclaredStep(line: string, lines: seq<string>)
    ensures DeclaredIn([line] + lines) == DeclaredBy(line) + DeclaredIn(lines)
  {
    assert ([line] + lines)[1..] == lines;
  }

  lemma LineThen(line: string, rest: string)
    requires '\n' !in line && StripCR(line) == line
    ensures DeclaredIn(Lines(line + "\n" + rest)) == DeclaredBy(line) + DeclaredIn(Lines(rest))
  {
    LinesStep(line, rest);
    DeclaredStep(line, Lines(rest));
  }

  lemma EmptyDeclares()
    ensures DeclaredBy([]) == []
  {
    assert |USE_LINE| > 0;
  }

  lemma BlankLine(rest: string)
    ensures DeclaredIn(Lines("\n" + rest)) == DeclaredIn(Lines(rest))
  {
    assert [] + "\n" + rest == "\n" + rest;
    EmptyDeclares();
    LineThen([], rest);
  }

  lemma JobsDeclares(first: bool, rest: string)
    ensures DeclaredIn(Lines(HeadLine(JOBS, first) + rest)) == [JOBS] + DeclaredIn(Lines(rest))
  {
    var more := if first then "\n" + rest else rest;
    UseDeclares();
    assert HeadLine(JOBS, first) + rest == USE_LINE + "\n" + more;
    LineThen(USE_LINE, more);
    if first {
      BlankLine(rest);
    }
  }

  lemma HeadDeclares(m: string, first: bool, rest: string)
    requires Name(m)
    ensures DeclaredIn(Lines(HeadLine(m, first) + rest)) == [m] + DeclaredIn(Lines(rest))
  {
    if m == JOBS {
      JobsDeclares(first, rest);
    } else {
      ModDeclares(m);
      assert HeadLine(m, first) + rest == "mod " + (m + ";") + "\n" + ("\n" + rest);
      LineThen("mod " + (m + ";"), "\n" + rest);
      BlankLine(rest);
    }
  }

  lemma {:induction false} HeadsDeclare(es: seq<string>)
    requires Names(es)
    ensures DeclaredIn(Lines(Heads(es))) == NewestFirst(es)
  {
    if es != [] {
      HeadDeclares(es[|es| - 1], |es| == 1, Heads(es[..|es| - 1]));
      HeadsDeclare(es[..|es| - 1]);
    }
  }

  /** Each entry is declared once in front of the macro, the newest first. */
  lemma DeclaresEntries(es: seq<string>)
    requires Names(es)
    ensures Declared(Layout(es)) == NewestFirst(es)
  {
    HeadsHaveNoBrace(es);
    MacroFacts();
    MacroFound(Heads(es), MACRO, Entries(es));
    HeadsDeclare(es);
    LayoutPlain(es);
  }

  /** EVERY RUN from no file, with any commands, accepted or refused: the macro lists exactly the
      planned migrations in order of addition, and what is declared in front of it is the same list,
      newest first. */
  lemma RunReadsBack(commands: seq<Command>)
    requires ValidCommands(commands)
    ensures var d, es := Run(Dir(None, {}), commands), PlanRun(START, commands).es;
      if es == [] then d.modRs == None
      else d.modRs.Some? && MacroEntries(d.modRs.value) == es && Declared(d.modRs.value) == NewestFirst(es)
  {
    RunFollowsPlan(START, commands);
    var es := PlanRun(START, commands).es;
    MacroLists(es);
    DeclaresEntries(es);
  }
}
