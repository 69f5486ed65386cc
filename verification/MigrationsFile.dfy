/** The migrations module file that `migrate new`, the resource generators and `jobs init` keep
    extending (rapina-cli/src/commands/migrate.rs, jobs.rs, codegen.rs). */
module MigrationsFile {
  import opened Wrappers
  import opened Text

  const MACRO_NAME := "rapina::migrations!"
  const MACRO := MACRO_NAME + " {"
  const JOBS := "create_rapina_jobs"
  const USE_JOBS := "use rapina::jobs::create_rapina_jobs;\n"

  // ---------------------------------------------------------------- text edits

  /** Head lines, the macro, its entries, the closing brace. */
  function Laid(heads: string, word: string, body: string): string {
    heads + (word + ("\n" + (body + "}\n")))
  }

  function ModLine(m: string): string {
    "mod " + (m + ";\n\n")
  }

  function EntryLine(m: string): string {
    "    " + (m + ",\n")
  }

  /** The entry goes in front of the last closing brace after `word`. */
  function InsertEntry(content: string, word: string, m: string): string {
    match Find(content, word)
    case None => content
    case Some(start) =>
      match RFindChar(content[start..], '}')
      case None => content
      case Some(brace) => content[..start + brace] + EntryLine(m) + content[start + brace..]
  }

  function AddToMigrationsMacro(content: string, m: string): string {
    InsertEntry(content, MACRO, m)
  }

  function UpdateModRs(file: Option<string>, m: string): string {
    match file
    case Some(content) =>
      if Contains(content, MACRO_NAME) then AddToMigrationsMacro(ModLine(m) + content, m)
      else content + ("mod " + (m + ";\n"))
    case None => Laid(ModLine(m), MACRO, EntryLine(m))
  }

  predicate IsAlreadyConfigured(content: string) {
    Contains(content, JOBS)
  }

  function InjectIntoExisting(content: string): string {
    AddToMigrationsMacro(USE_JOBS + content, JOBS)
  }

  function FreshModRs(): string {
    Laid(USE_JOBS + "\n", MACRO, EntryLine(JOBS))
  }

  function InitJobs(file: Option<string>): string {
    match file
    case Some(content) => if IsAlreadyConfigured(content) then content else InjectIntoExisting(content)
    case None => FreshModRs()
  }

  // ---------------------------------------------------------------- names

  predicate NameChar(c: char) {
    'a' <= c <= 'z' || '0' <= c <= '9' || c == '_'
  }

  predicate Name(s: string) {
    s != [] && forall i :: 0 <= i < |s| ==> NameChar(s[i])
  }

  datatype NewError = EmptyName | BadChar(c: char) | EdgeUnderscore | AlreadyExists(file: string)

  function FirstBad(name: string): (r: Option<char>)
    ensures r.None? ==> forall i :: 0 <= i < |name| ==> NameChar(name[i])
  {
    if name == [] then None
    else if !NameChar(name[0]) then Some(name[0])
    else FirstBad(name[1..])
  }

  function ValidateName(name: string): (r: Result<(), NewError>)
    ensures r.Ok? ==> Name(name)
  {
    if name == [] then Err(EmptyName)
    else if FirstBad(name).Some? then Err(BadChar(FirstBad(name).value))
    else if name[0] == '_' || name[|name| - 1] == '_' then Err(EdgeUnderscore)
    else Ok(())
  }

  lemma {:induction false} FirstBadAt(name: string) returns (i: nat)
    requires FirstBad(name).Some?
    ensures i < |name| && name[i] == FirstBad(name).value && !NameChar(name[i])
    ensures forall j :: 0 <= j < i ==> NameChar(name[j])
  {
    i := 0;
    if NameChar(name[0]) {
      var k := FirstBadAt(name[1..]);
      i := k + 1;
      assert forall j :: 0 < j < i ==> name[j] == name[1..][j - 1];
    }
  }

  /** A name is accepted exactly when it is not empty, holds lower-case letters, digits and underscores
      only, and neither starts nor ends with an underscore; the first other character is named. */
  lemma NameAcceptedIff(name: string)
    ensures var r := ValidateName(name);
      && (r.Ok? <==>
            && name != "" && name[0] != '_' && name[|name| - 1] != '_'
            && forall i :: 0 <= i < |name| ==> 'a' <= name[i] <= 'z' || '0' <= name[i] <= '9' || name[i] == '_')
      && (r == Err(EmptyName) <==> name == "")
      && (r.Err? && r.error.BadChar? ==>
            exists i :: 0 <= i < |name| && name[i] == r.error.c
                        && !('a' <= name[i] <= 'z' || '0' <= name[i] <= '9' || name[i] == '_')
                        && forall j :: 0 <= j < i ==> NameChar(name[j]))
  {
    if FirstBad(name).Some? {
      var i := FirstBadAt(name);
    }
  }

  /** `%Y%m%d_%H%M%S`. */
  predicate Timestamp(ts: string) {
    forall i :: 0 <= i < |ts| ==> '0' <= ts[i] <= '9' || ts[i] == '_'
  }

  function ModuleName(ts: string, name: string): string {
    "m" + (ts + ("_" + name))
  }

  lemma ModuleNameIsName(ts: string, name: string)
    requires Timestamp(ts) && Name(name)
    ensures Name(ModuleName(ts, name)) && ModuleName(ts, name) != JOBS
  {
    assert ModuleName(ts, name)[0] == 'm' && JOBS[0] == 'c';
  }

  // ---------------------------------------------------------------- the commands

  /** `Generate` is the migration that the resource generators write: it overwrites a file of the
      same name without asking. */
  datatype Command = New(ts: string, name: string) | Generate(ts: string, plural: string) | Jobs

  datatype Dir = Dir(modRs: Option<string>, files: set<string>)

  function Add(d: Dir, m: string): Dir {
    Dir(Some(UpdateModRs(d.modRs, m)), d.files + {m})
  }

  function Step(d: Dir, c: Command): Dir {
    match c
    case New(ts, name) =>
      if ValidateName(name).Err? || ModuleName(ts, name) in d.files then d else Add(d, ModuleName(ts, name))
    case Generate(ts, plural) => Add(d, ModuleName(ts, "create_" + plural))
    case Jobs => d.(modRs := Some(InitJobs(d.modRs)))
  }

  function Run(d: Dir, commands: seq<Command>): Dir
    decreases |commands|
  {
    if commands == [] then d else Run(Step(d, commands[0]), commands[1..])
  }

  class MigrationsDir {
    var modRs: Option<string>
    var files: set<string>

    ghost function Value(): Dir
      reads this
    {
      Dir(modRs, files)
    }

    method UpdateMod(m: string)
      modifies this`modRs
      ensures modRs == Some(UpdateModRs(old(modRs), m))
    {
      if modRs.Some? {
        var content := modRs.value;
        if Contains(content, MACRO_NAME) {
          var updated := ModLine(m) + content;
          updated := AddToMigrationsMacro(updated, m);
          modRs := Some(updated);
        } else {
          modRs := Some(content + ("mod " + (m + ";\n")));
        }
      } else {
        modRs := Some(Laid(ModLine(m), MACRO, EntryLine(m)));
      }
    }

    method NewMigration(ts: string, name: string) returns (r: Result<(), NewError>)
      modifies this
      ensures Value() == Step(old(Value()), New(ts, name))
      ensures r.Err? ==> Value() == old(Value())
      ensures r == if ValidateName(name).Err? then ValidateName(name)
                   else if ModuleName(ts, name) in old(files) then Err(AlreadyExists(ModuleName(ts, name)))
                   else Ok(())
    {
      r := ValidateName(name);
      if r.Err? {
        return;
      }
      var m := ModuleName(ts, name);
      if m in files {
        return Err(AlreadyExists(m));
      }
      files := files + {m};
      UpdateMod(m);
    }

    method CreateMigrationFile(ts: string, plural: string)
      modifies this
      ensures Value() == Step(old(Value()), Generate(ts, plural))
    {
      var m := ModuleName(ts, "create_" + plural);
      files := files + {m};
      UpdateMod(m);
    }

    method Init()
      modifies this
      ensures Value() == Step(old(Value()), Jobs)
    {
      if modRs.Some? {
        if IsAlreadyConfigured(modRs.value) {
          return;
        }
        modRs := Some(InjectIntoExisting(modRs.value));
      } else {
        modRs := Some(FreshModRs());
      }
    }
  }

  // ---------------------------------------------------------------- the layout of the file

  /** A file begun by `jobs init` has a blank line after its import. */
  function HeadLine(m: string, first: bool): string {
    if m == JOBS then (if first then USE_JOBS + "\n" else USE_JOBS) else ModLine(m)
  }

  /** The last addition comes first. */
  function Heads(es: seq<string>): string {
    if es == [] then [] else HeadLine(es[|es| - 1], |es| == 1) + Heads(es[..|es| - 1])
  }

  function Entries(es: seq<string>): string {
    if es == [] then [] else Entries(es[..|es| - 1]) + EntryLine(es[|es| - 1])
  }

  function Layout(es: seq<string>): string {
    Laid(Heads(es), MACRO, Entries(es))
  }

  predicate Names(es: seq<string>) {
    forall i :: 0 <= i < |es| ==> Name(es[i])
  }

  lemma MacroFacts()
    ensures |MACRO_NAME| < |MACRO| && MACRO[..|MACRO_NAME|] == MACRO_NAME
    ensures MACRO[|MACRO| - 1] == '{' && '{' !in MACRO[..|MACRO| - 1]
  {
    assert MACRO[..|MACRO| - 1] == MACRO_NAME + " ";
  }

  lemma UseFacts()
    ensures '{' !in USE_JOBS && Name(JOBS)
  {
  }

  lemma HeadHasNoBrace(m: string, first: bool)
    requires Name(m)
    ensures '{' !in HeadLine(m, first)
  {
    UseFacts();
    assert '{' !in m;
  }

  lemma {:induction false} HeadsHaveNoBrace(es: seq<string>)
    requires Names(es)
    ensures '{' !in Heads(es)
  {
    if es != [] {
      HeadHasNoBrace(es[|es| - 1], |es| == 1);
      HeadsHaveNoBrace(es[..|es| - 1]);
    }
  }

  /** The macro is found where the first brace says. */
  lemma FindByBrace(front: string, word: string, rest: string)
    requires '{' !in front && word != [] && word[|word| - 1] == '{' && '{' !in word[..|word| - 1]
    ensures Find(front + (word + rest), word) == Some(|front|)
  {
    var s := front + (word + rest);
    assert s[|front|..|front| + |word|] == word;
    forall j | 0 <= j < |front| ensures !HasAt(s, word, j) {
      if j + |word| <= |s| {
        var k := j + |word| - 1;
        assert s[j..j + |word|][|word| - 1] == s[k];
        if k >= |front| {
          assert s[k] == word[..|word| - 1][k - |front|];
        }
      }
    }
    FindIs(s, word, |front|);
  }

  lemma RFindLast(a: string)
    ensures RFindChar(a + "}\n", '}') == Some(|a|)
  {
    var s := a + "}\n";
    assert s[|s| - 1] == '\n' && s[..|s| - 1] == a + "}";
    assert RFindChar(a + "}", '}') == Some(|a|);
  }

  lemma Regrouped(heads: string, word: string, body: string, entry: string)
    ensures Laid(heads, word, body)[|heads|..] == word + "\n" + body + "}\n"
    ensures var at := |heads| + |word + "\n" + body|;
      Laid(heads, word, body)[..at] + entry + Laid(heads, word, body)[at..] == Laid(heads, word, body + entry)
  {
    var at := |heads| + |word + "\n" + body|;
    assert Laid(heads, word, body)[..at] == heads + (word + ("\n" + body));
    assert Laid(heads, word, body)[at..] == "}\n";
  }

  /** Adding an entry to a text of head lines without braces, the macro and its entries. */
  lemma AddEntry(heads: string, word: string, body: string, m: string)
    requires '{' !in heads && word != [] && word[|word| - 1] == '{' && '{' !in word[..|word| - 1]
    ensures InsertEntry(Laid(heads, word, body), word, m) == Laid(heads, word, body + EntryLine(m))
  {
    FindByBrace(heads, word, "\n" + (body + "}\n"));
    Regrouped(heads, word, body, EntryLine(m));
    RFindLast(word + "\n" + body);
  }

  lemma LayoutHasMacro(es: seq<string>)
    ensures Contains(Layout(es), MACRO_NAME)
  {
    MacroFacts();
    HasMacroName(Heads(es), MACRO, MACRO_NAME, "\n" + (Entries(es) + "}\n"));
  }

  lemma HasMacroName(front: string, word: string, name: string, rest: string)
    requires |name| <= |word| && word[..|name|] == name
    ensures Contains(front + (word + rest), name)
  {
    var s := front + (word + rest);
    assert s[|front|..|front| + |name|] == name;
    assert HasAt(s, name, |front|);
  }

  lemma EntriesSnoc(es: seq<string>, m: string)
    ensures Entries(es + [m]) == Entries(es) + EntryLine(m)
  {
    assert (es + [m])[..|es|] == es;
  }

  lemma HeadsSnoc(es: seq<string>, m: string)
    requires es != []
    ensures Heads(es + [m]) == HeadLine(m, false) + Heads(es)
  {
    assert (es + [m])[..|es|] == es;
  }

  lemma OneMoreHead(h: string, heads: string, word: string, body: string)
    ensures h + Laid(heads, word, body) == Laid(h + heads, word, body)
  {
  }

  /** One more head line and one more entry, whichever command adds them. */
  lemma LayoutGrows(es: seq<string>, m: string)
    requires es != [] && Names(es) && Name(m)
    ensures AddToMigrationsMacro(HeadLine(m, false) + Layout(es), m) == Layout(es + [m])
  {
    MacroFacts();
    HeadHasNoBrace(m, false);
    HeadsHaveNoBrace(es);
    OneMoreHead(HeadLine(m, false), Heads(es), MACRO, Entries(es));
    AddEntry(HeadLine(m, false) + Heads(es), MACRO, Entries(es), m);
    EntriesSnoc(es, m);
    HeadsSnoc(es, m);
  }

  function FileOf(es: seq<string>): Option<string> {
    if es == [] then None else Some(Layout(es))
  }

  lemma UpdateKeepsLayout(es: seq<string>, m: string)
    requires Names(es) && Name(m) && m != JOBS
    ensures UpdateModRs(FileOf(es), m) == Layout(es + [m])
  {
    if es == [] {
      OneEntry(m);
      assert es + [m] == [m];
    } else {
      LayoutHasMacro(es);
      LayoutGrows(es, m);
    }
  }

  lemma OneEntry(m: string)
    ensures Layout([m]) == Laid(HeadLine(m, true), MACRO, EntryLine(m))
  {
    var es := [m];
    assert es[..0] == [];
    assert Entries(es) == [] + EntryLine(m) && [] + EntryLine(m) == EntryLine(m);
    assert Heads(es) == HeadLine(m, true) + [] && HeadLine(m, true) + [] == HeadLine(m, true);
  }

  // ---------------------------------------------------------------- files written by hand

  lemma FindBehind(front: string, content: string, word: string)
    requires front != [] && front[|front| - 1] == '\n' && '\n' !in word && '{' !in front
    requires word != [] && word[|word| - 1] == '{'
    ensures Find(front + content, word)
         == match Find(content, word) case None => None case Some(i) => Some(|front| + i)
  {
    var s := front + content;
    forall j | 0 <= j < |front| ensures !HasAt(s, word, j) {
      if j + |word| <= |front| {
        assert s[j..j + |word|][|word| - 1] == front[j + |word| - 1];
      } else if j + |word| <= |s| {
        assert s[j..j + |word|][|front| - 1 - j] == front[|front| - 1];
      }
    }
    forall j | |front| <= j ensures HasAt(s, word, j) <==> HasAt(content, word, j - |front|) {
      if j + |word| <= |s| {
        HasAtWithin(front, content, [], word, j);
        assert front + content + [] == s;
      }
    }
    if Find(content, word).Some? {
      FindIs(s, word, |front| + Find(content, word).value);
    }
  }

  lemma ModLineEnds(m: string)
    requires Name(m)
    ensures ModLine(m) != [] && ModLine(m)[|ModLine(m)| - 1] == '\n' && '{' !in ModLine(m)
  {
    assert '{' !in m;
  }

  lemma MacroOnOneLine()
    ensures '\n' !in MACRO
  {
    assert '\n' !in MACRO_NAME;
  }
}
