/** Blocks in the layout of the printer, of any number of entities each: what the parser reads in them
    and when the editor takes them out. */
module SchemaFiles {
  import opened Wrappers
  import opened Text
  import opened CoreLines
  import opened SchemaSource
  import opened SchemaCodegen
  import opened SchemaCore
  import opened SchemaChunks

  /** One entity of a block: its attribute lines, its name, its field lines. */
  datatype Entry = Entry(attrs: seq<string>, name: string, body: seq<string>)

  predicate IdentChar(c: char) {
    'a' <= c <= 'z' || 'A' <= c <= 'Z' || '0' <= c <= '9' || c == '_'
  }

  predicate Ident(s: string) {
    s != [] && forall i :: 0 <= i < |s| ==> IdentChar(s[i])
  }

  predicate Plain(line: string) {
    CoreLine(line) && '{' !in line && '}' !in line
  }

  predicate PlainAttr(line: string) {
    Plain(line) && StartsWith(line, "#[")
  }

  /** What can stand as the name of an entity: any text that is not read as something else. */
  predicate NameText(s: string) {
    Plain(s) && !StartsWith(s, "#[")
  }

  predicate AllPlain(ls: seq<string>) {
    forall i :: 0 <= i < |ls| ==> Plain(ls[i])
  }

  predicate AllAttrs(ls: seq<string>) {
    forall i :: 0 <= i < |ls| ==> PlainAttr(ls[i])
  }

  predicate EntryOk(e: Entry) {
    NameText(e.name) && AllAttrs(e.attrs) && AllPlain(e.body)
  }

  predicate AllEntries(es: seq<Entry>) {
    forall i :: 0 <= i < |es| ==> EntryOk(es[i])
  }

  function EntryLines(e: Entry): seq<string> {
    e.attrs + ([e.name + " {"] + (e.body + ["}"]))
  }

  function EntriesLines(es: seq<Entry>): seq<string> {
    if es == [] then [] else EntryLines(es[0]) + EntriesLines(es[1..])
  }

  function BlockLines(es: seq<Entry>): seq<string> {
    ["schema! {"] + (EntriesLines(es) + ["}"])
  }

  /** The entity an entry declares. */
  function EntityOf(e: Entry): ParsedEntity {
    Body(e.body, [], ApplyAttrs(e.attrs, NewEntity(e.name))).0
  }

  function EntitiesOf(es: seq<Entry>): seq<ParsedEntity> {
    if es == [] then [] else [EntityOf(es[0])] + EntitiesOf(es[1..])
  }

  // ---------------------------------------------------------------- parsing a block

  lemma {:induction false} AttrLines(attrs: seq<string>, pending: seq<string>, tail: seq<string>)
    requires AllAttrs(attrs)
    ensures NextEntity(attrs + tail, pending) == NextEntity(tail, pending + attrs)
  {
    if attrs == [] {
      assert attrs + tail == tail && pending + attrs == pending;
    } else {
      var a := attrs[0];
      assert PlainAttr(a);
      TrimTight(a);
      assert (attrs + tail)[1..] == attrs[1..] + tail;
      AttrLines(attrs[1..], pending + [a], tail);
      assert pending + [a] + attrs[1..] == pending + attrs;
      assert a[0] == '#' by {
        assert a[0..2][0] == '#';
      }
    }
  }

  lemma DeltaOpens(front: string)
    requires '{' !in front && '}' !in front
    ensures Delta(front + "{") == 1
  {
    DeltaFree(front);
    DeltaConcat(front, "{");
    assert Delta("{") == 1;
  }

  lemma NameLine(name: string)
    requires NameText(name)
    ensures var t := name + " {";
      Trim(t) == t && t != [] && t != "{" && t != "}" && !StartsWith(t, "#[") && EntityName(t) == name
    ensures Delta(name + " {") == 1
  {
    var t := name + " {";
    TrimTight(t);
    assert t[..|t| - 1] == [] + name + " ";
    TrimIs([], name, " ");
    NotAnAttr(name);
    DeltaOpens(name + " ");
    assert name + " " + "{" == t;
  }

  lemma NotAnAttr(name: string)
    requires NameText(name)
    ensures name + " {" != "{" && name + " {" != "}" && !StartsWith(name + " {", "#[")
  {
    var t := name + " {";
    assert t[0] == name[0] && |t| >= 3;
    if |name| >= 2 {
      assert t[0..2] == name[0..2];
    } else {
      assert t[0..2][1] == ' ';
    }
  }

  lemma {:induction false} BodyLines(body: seq<string>, pending: seq<string>, e: ParsedEntity, tail: seq<string>)
    requires AllPlain(body)
    ensures Body(body + (["}"] + tail), pending, e) == (Body(body, pending, e).0, tail)
  {
    var rest := ["}"] + tail;
    if body == [] {
      assert body + rest == rest && rest[1..] == tail;
      TrimTight("}");
    } else {
      assert (body + rest)[1..] == body[1..] + rest;
      var t := body[0];
      assert Plain(t);
      TrimTight(t);
      assert t != "}" by {
        assert '}' !in t;
      }
      if StartsWith(t, "#[") {
        BodyLines(body[1..], pending + [t], e, tail);
      } else {
        BodyLines(body[1..], [], e.(fields := e.fields + FieldsOf(t, pending)), tail);
      }
    }
  }

  lemma EntryParses(e: Entry, tail: seq<string>)
    requires EntryOk(e)
    ensures NextEntity(EntryLines(e) + tail, []) == Ok((Some(EntityOf(e)), tail))
  {
    var nameLine, afterName := e.name + " {", e.body + (["}"] + tail);
    EntryThen(e, tail);
    AttrLines(e.attrs, [], [nameLine] + afterName);
    assert [] + e.attrs == e.attrs;
    NameLine(e.name);
    assert ([nameLine] + afterName)[1..] == afterName;
    BodyLines(e.body, [], ApplyAttrs(e.attrs, NewEntity(e.name)), tail);
  }

  lemma EntryThen(e: Entry, tail: seq<string>)
    ensures EntryLines(e) + tail == e.attrs + ([e.name + " {"] + (e.body + (["}"] + tail)))
  {
    Assoc(e.attrs, [e.name + " {"] + (e.body + ["}"]), tail);
    Assoc([e.name + " {"], e.body + ["}"], tail);
    Assoc(e.body, ["}"], tail);
  }

  lemma BlockEnds()
    ensures EndsInside(["}"]) && Inside(["}"]) == Ok([])
  {
    TrimTight("}");
    assert ["}"][1..] == [];
  }

  lemma {:induction false} EntriesParse(es: seq<Entry>)
    requires AllEntries(es)
    ensures EndsInside(EntriesLines(es) + ["}"])
    ensures Inside(EntriesLines(es) + ["}"]) == Ok(EntitiesOf(es))
  {
    if es == [] {
      assert [] + ["}"] == ["}"];
      BlockEnds();
    } else {
      var more := EntriesLines(es[1..]) + ["}"];
      Assoc(EntryLines(es[0]), EntriesLines(es[1..]), ["}"]);
      EntryParses(es[0], more);
      EntriesParse(es[1..]);
    }
  }

  lemma HeadOpens()
    ensures OpensBlock("schema! {")
  {
    TrimTight("schema! {");
    assert "schema! {"[0..7] == "schema!";
  }

  lemma BlockParses(es: seq<Entry>)
    requires AllEntries(es)
    ensures EndsOutside(BlockLines(es)) && EntitiesIn(BlockLines(es)) == EntitiesOf(es)
  {
    var inner := EntriesLines(es) + ["}"];
    HeadOpens();
    HeadThen("schema! {", inner);
    EntriesParse(es);
  }

  lemma HeadThen(head: string, inner: seq<string>)
    requires OpensBlock(head)
    ensures EndsOutside([head] + inner) == EndsInside(inner) && Outside([head] + inner) == Inside(inner)
  {
    assert ([head] + inner)[1..] == inner;
  }

  // ---------------------------------------------------------------- editing a block

  /** The editor's search text for a name also stands in the line that opens every block. */
  predicate InHead(name: string) {
    EndsWith("schema!", name)
  }

  predicate SomeEnds(es: seq<Entry>, name: string) {
    exists i :: 0 <= i < |es| && EndsWith(es[i].name, name)
  }

  predicate BraceFree(ls: seq<string>) {
    forall i :: 0 <= i < |ls| ==> '{' !in ls[i] && '}' !in ls[i]
  }

  lemma BalancedCons(l: string, ls: seq<string>, depth: int)
    requires depth > 0
    ensures Balanced([l] + ls, depth) == Balanced(ls, depth + Delta(l))
  {
    assert ([l] + ls)[1..] == ls;
  }

  lemma {:induction false} BalancedLevel(ls: seq<string>, depth: int, tail: seq<string>)
    requires depth > 0 && BraceFree(ls)
    ensures Balanced(ls + tail, depth) == Balanced(tail, depth)
  {
    if ls == [] {
      assert ls + tail == tail;
    } else {
      assert ls + tail == [ls[0]] + (ls[1..] + tail);
      BalancedLevel(ls[1..], depth, tail);
      DeltaFree(ls[0]);
      BalancedCons(ls[0], ls[1..] + tail, depth);
    }
  }

  lemma ClosingDelta()
    ensures Delta("}") == -1
  {
  }

  lemma NoBraces(ls: seq<string>)
    requires AllPlain(ls)
    ensures BraceFree(ls)
  {
    forall i | 0 <= i < |ls| ensures '{' !in ls[i] && '}' !in ls[i] {
      assert Plain(ls[i]);
    }
  }

  lemma AttrsArePlain(attrs: seq<string>)
    requires AllAttrs(attrs)
    ensures AllPlain(attrs)
  {
    forall i | 0 <= i < |attrs| ensures Plain(attrs[i]) {
      assert PlainAttr(attrs[i]);
    }
  }

  /** An entry opens one brace and closes it. */
  lemma EntryBalanced(e: Entry, depth: int, tail: seq<string>)
    requires EntryOk(e) && depth > 0
    ensures Balanced(EntryLines(e) + tail, depth) == Balanced(tail, depth)
  {
    var nameLine := e.name + " {";
    EntryThen(e, tail);
    NameLine(e.name);
    ClosingDelta();
    AttrsArePlain(e.attrs);
    NoBraces(e.attrs);
    NoBraces(e.body);
    BalancedLevel(e.attrs, depth, [nameLine] + (e.body + (["}"] + tail)));
    BalancedCons(nameLine, e.body + (["}"] + tail), depth);
    BalancedLevel(e.body, depth + 1, ["}"] + tail);
    BalancedCons("}", tail, depth + 1);
  }

  lemma {:induction false} EntriesBalanced(es: seq<Entry>)
    requires AllEntries(es)
    ensures Balanced(EntriesLines(es) + ["}"], 1)
  {
    if es == [] {
      ClosingDelta();
      assert [] + ["}"] == ["}"] && ["}"] == ["}"] + [];
      BalancedCons("}", [], 1);
    } else {
      EntriesBalanced(es[1..]);
      Assoc(EntryLines(es[0]), EntriesLines(es[1..]), ["}"]);
      EntryBalanced(es[0], 1, EntriesLines(es[1..]) + ["}"]);
    }
  }

  lemma NoBraceNoPattern(line: string, name: string)
    requires '{' !in line
    ensures !Contains(line, name + " {")
  {
    var pattern := name + " {";
    forall i ensures !HasAt(line, pattern, i) {
      if 0 <= i && i + |pattern| <= |line| {
        assert line[i..i + |pattern|][|pattern| - 1] in line;
      }
    }
    ContainsIff(line, pattern);
  }

  /** A line whose only brace is at its end holds the pattern just when it ends with it. */
  lemma PatternAtEnd(front: string, name: string)
    requires '{' !in front
    ensures Contains(front + "{", name + " {") <==> EndsWith(front, name + " ")
  {
    var line, pattern := front + "{", name + " {";
    assert pattern == (name + " ") + "{";
    EndsWithBoth(front, name + " ", '{');
    assert forall k :: 0 <= k < |front| ==> line[k] == front[k] && line[k] != '{';
    forall i ensures HasAt(line, pattern, i) ==> i + |pattern| == |line| {
      if HasAt(line, pattern, i) {
        assert line[i..i + |pattern|] == pattern && pattern[|pattern| - 1] == '{';
        assert line[i + |pattern| - 1] == line[i..i + |pattern|][|pattern| - 1];
      }
    }
    ContainsIff(line, pattern);
  }

  lemma NameLineMentions(entity: string, name: string)
    requires '{' !in entity
    ensures Contains(entity + " {", name + " {") <==> EndsWith(entity, name)
  {
    assert entity + " {" == (entity + " ") + "{";
    PatternAtEnd(entity + " ", name);
    EndsWithBoth(entity, name, ' ');
  }

  lemma HeadLineMentions(name: string)
    ensures Contains("schema! {", name + " {") <==> InHead(name)
  {
    NameLineMentions("schema!", name);
    assert "schema! {" == "schema!" + " {";
  }

  lemma {:induction false} PlainMentions(ls: seq<string>, name: string)
    requires AllPlain(ls)
    ensures !Mentions(ls, name + " {")
  {
    NoBraces(ls);
    forall i | 0 <= i < |ls| ensures !Contains(ls[i], name + " {") {
      NoBraceNoPattern(ls[i], name);
    }
  }

  lemma EntryMentions(e: Entry, name: string)
    requires EntryOk(e)
    ensures Mentions(EntryLines(e), name + " {") <==> EndsWith(e.name, name)
  {
    var pattern, nameLine := name + " {", e.name + " {";
    AttrsArePlain(e.attrs);
    PlainMentions(e.attrs, name);
    PlainMentions(e.body, name);
    NoBraceNoPattern("}", name);
    NameLineMentions(e.name, name);
    MentionsOne(nameLine, pattern);
    MentionsOne("}", pattern);
    MentionsConcat(e.body, ["}"], pattern);
    MentionsConcat([nameLine], e.body + ["}"], pattern);
    MentionsConcat(e.attrs, [nameLine] + (e.body + ["}"]), pattern);
  }

  lemma SomeEndsCons(es: seq<Entry>, name: string)
    requires es != []
    ensures SomeEnds(es, name) <==> EndsWith(es[0].name, name) || SomeEnds(es[1..], name)
  {
    assert forall i :: 0 < i < |es| ==> es[i] == es[1..][i - 1];
    assert forall i :: 0 <= i < |es[1..]| ==> es[1..][i] == es[i + 1];
  }

  lemma {:induction false} EntriesMention(es: seq<Entry>, name: string)
    requires AllEntries(es)
    ensures Mentions(EntriesLines(es), name + " {") <==> SomeEnds(es, name)
  {
    if es != [] {
      assert AllEntries(es[1..]) && EntryOk(es[0]);
      EntriesMention(es[1..], name);
      EntryMentions(es[0], name);
      SomeEndsCons(es, name);
      MentionsConcat(EntryLines(es[0]), EntriesLines(es[1..]), name + " {");
    }
  }

  /** The editor's substring test on a block comes down to a suffix test on its entity names, unless
      the name is a suffix of the word that opens every block. */
  lemma BlockMentions(es: seq<Entry>, name: string)
    requires AllEntries(es)
    ensures Mentions(BlockLines(es), name + " {") <==> InHead(name) || SomeEnds(es, name)
  {
    var pattern := name + " {";
    EntriesMention(es, name);
    HeadLineMentions(name);
    NoBraceNoPattern("}", name);
    MentionsOne("schema! {", pattern);
    MentionsOne("}", pattern);
    MentionsConcat(EntriesLines(es), ["}"], pattern);
    MentionsConcat(["schema! {"], EntriesLines(es) + ["}"], pattern);
  }

  lemma HeadStarts()
    ensures StartsSchemaBlock("schema! {") && Delta("schema! {") == 1
  {
    assert TrimStart("schema! {") == "schema! {";
    assert "schema! {"[0..9] == "schema! {";
    DeltaOpens("schema! ");
    assert "schema! " + "{" == "schema! {";
  }

  lemma BlockBalanced(es: seq<Entry>)
    requires AllEntries(es)
    ensures StartsSchemaBlock(BlockLines(es)[0]) && Balanced(BlockLines(es)[1..], Delta(BlockLines(es)[0]))
  {
    HeadStarts();
    EntriesBalanced(es);
    assert BlockLines(es)[1..] == EntriesLines(es) + ["}"];
  }

  /** A block of entries, printed or written by hand, is a block for parser and editor alike. The parser
      reads its entities; the editor takes it out exactly when one of their names ends with the given
      one, or the word that opens every block does. */
  lemma EntriesBlock(es: seq<Entry>, name: string)
    requires AllEntries(es)
    ensures WellFormed(Block(BlockLines(es))) && EntitiesIn(BlockLines(es)) == EntitiesOf(es)
    ensures Drops(Block(BlockLines(es)), name) <==> InHead(name) || SomeEnds(es, name)
  {
    BlockParses(es);
    BlockBalanced(es);
    BlockMentions(es, name);
  }

  // ---------------------------------------------------------------- a comment in front of an entity

  lemma {:induction false} AttrsPass(attrs: seq<string>, pending: seq<string>, rest: seq<string>, e: ParsedEntity)
    requires AllAttrs(attrs)
    ensures Body(attrs + rest, pending, e) == Body(rest, pending + attrs, e)
  {
    if attrs == [] {
      assert attrs + rest == rest && pending + attrs == pending;
    } else {
      var a := attrs[0];
      assert PlainAttr(a);
      TrimTight(a);
      assert (attrs + rest)[1..] == attrs[1..] + rest;
      assert a != "}" by {
        assert '}' !in a;
      }
      AttrsPass(attrs[1..], pending + [a], rest, e);
      assert pending + [a] + attrs[1..] == pending + attrs;
    }
  }

  /** A name line read where a field is expected is no field, and uses up the attributes before it. */
  lemma NameIsNoField(name: string, pending: seq<string>, rest: seq<string>, e: ParsedEntity)
    requires NameText(name) && ':' !in name
    ensures Body([name + " {"] + rest, pending, e) == Body(rest, [], e)
  {
    var t := name + " {";
    NameLine(name);
    assert ([t] + rest)[1..] == rest;
    assert TrimEndMatchesChar(t, ',') == t;
    assert CharPos(t, ':') == |t| by {
      assert ':' !in t;
    }
    assert e.(fields := e.fields + []) == e;
  }

  /** What the parser makes of an entity behind a line of text such as a comment: the line is its name,
      and its attributes are lost. */
  function NotedEntity(note: string, e: Entry): ParsedEntity {
    Body(e.body, [], NewEntity(note)).0
  }

  lemma NoteTakesName(note: string, e: Entry, tail: seq<string>)
    requires NameText(note) && EntryOk(e) && ':' !in e.name
    ensures NextEntity([note] + (EntryLines(e) + tail), []) == Ok((Some(NotedEntity(note, e)), tail))
  {
    var rest := EntryLines(e) + tail;
    var afterName := e.body + (["}"] + tail);
    TrimTight(note);
    assert note != "{" && note != "}" by {
      assert '{' !in note && '}' !in note;
    }
    assert EntityName(note) == note;
    assert ([note] + rest)[1..] == rest;
    EntryThen(e, tail);
    AttrsPass(e.attrs, [], [e.name + " {"] + afterName, NewEntity(note));
    NameIsNoField(e.name, [] + e.attrs, afterName, NewEntity(note));
    BodyLines(e.body, [], NewEntity(note), tail);
  }

  function NotedBlock(note: string, e: Entry): seq<string> {
    ["schema! {"] + ([note] + (EntryLines(e) + ["}"]))
  }

  /** Such a block is still a block for both: the parser reads one entity named by the comment, and the
      editor takes the block out by the name the entity was given. */
  lemma CommentTakesName(note: string, e: Entry, name: string)
    requires NameText(note) && EntryOk(e) && ':' !in e.name
    ensures WellFormed(Block(NotedBlock(note, e))) && EntitiesIn(NotedBlock(note, e)) == [NotedEntity(note, e)]
    ensures Drops(Block(NotedBlock(note, e)), name) <==> InHead(name) || EndsWith(e.name, name)
  {
    NotedParses(note, e);
    NotedBalanced(note, e);
    NotedMentions(note, e, name);
  }

  lemma NotedParses(note: string, e: Entry)
    requires NameText(note) && EntryOk(e) && ':' !in e.name
    ensures EndsOutside(NotedBlock(note, e)) && EntitiesIn(NotedBlock(note, e)) == [NotedEntity(note, e)]
  {
    var inner := [note] + (EntryLines(e) + ["}"]);
    HeadOpens();
    HeadThen("schema! {", inner);
    NoteTakesName(note, e, ["}"]);
    BlockEnds();
    assert Inside(inner) == Prepend([NotedEntity(note, e)], Ok([]));
    assert [NotedEntity(note, e)] + [] == [NotedEntity(note, e)];
  }

  lemma NotedBalanced(note: string, e: Entry)
    requires NameText(note) && EntryOk(e)
    ensures var ls := NotedBlock(note, e);
      StartsSchemaBlock(ls[0]) && Balanced(ls[1..], Delta(ls[0]))
  {
    HeadStarts();
    assert NotedBlock(note, e)[1..] == [note] + (EntryLines(e) + ["}"]);
    assert BraceFree([note]);
    BalancedLevel([note], 1, EntryLines(e) + ["}"]);
    EntryBalanced(e, 1, ["}"]);
    ClosingDelta();
    BalancedCons("}", [], 1);
    assert ["}"] == ["}"] + [];
  }

  lemma NotedMentions(note: string, e: Entry, name: string)
    requires NameText(note) && EntryOk(e)
    ensures Mentions(NotedBlock(note, e), name + " {") <==> InHead(name) || EndsWith(e.name, name)
  {
    var pattern := name + " {";
    HeadLineMentions(name);
    NoBraceNoPattern(note, name);
    NoBraceNoPattern("}", name);
    EntryMentions(e, name);
    MentionsOne("schema! {", pattern);
    MentionsOne(note, pattern);
    MentionsOne("}", pattern);
    MentionsConcat(EntryLines(e), ["}"], pattern);
    MentionsConcat([note], EntryLines(e) + ["}"], pattern);
    MentionsConcat(["schema! {"], [note] + (EntryLines(e) + ["}"]), pattern);
  }

  // ---------------------------------------------------------------- a block without the blank

  function TightLines(es: seq<Entry>): seq<string> {
    ["schema!{"] + (EntriesLines(es) + ["}"])
  }

  predicate NoneNamedHead(es: seq<Entry>) {
    forall i :: 0 <= i < |es| ==> es[i].name != "schema!"
  }

  lemma LineStarts(l: string)
    requires CoreLine(l) && StartsSchemaBlock(l)
    ensures |l| >= 9 && l[..9] == "schema! {" && l[8] == '{'
  {
    assert TrimStart(l) == l;
    assert l[0..9] == l[..9];
    assert l[8] == l[..9][8];
  }

  lemma PlainStartsNone(ls: seq<string>)
    requires AllPlain(ls)
    ensures NoneStarts(ls)
  {
    forall i | 0 <= i < |ls| ensures !StartsSchemaBlock(ls[i]) {
      assert Plain(ls[i]);
      if StartsSchemaBlock(ls[i]) {
        LineStarts(ls[i]);
      }
    }
  }

  lemma NameStarts(name: string)
    requires NameText(name)
    ensures StartsSchemaBlock(name + " {") ==> name == "schema!"
  {
    var l := name + " {";
    if StartsSchemaBlock(l) {
      LineStarts(l);
      assert forall i :: 0 <= i < |name| ==> l[i] == name[i] && name[i] != '{';
      assert |name| == 7;
      assert name == l[..9][..7];
    }
  }

  lemma {:induction false} EntriesStartNone(es: seq<Entry>)
    requires AllEntries(es) && NoneNamedHead(es)
    ensures NoneStarts(EntriesLines(es))
  {
    if es != [] {
      assert EntryOk(es[0]) && es[0].name != "schema!";
      EntriesStartNone(es[1..]);
      AttrsArePlain(es[0].attrs);
      PlainStartsNone(es[0].attrs);
      PlainStartsNone(es[0].body);
      NameStarts(es[0].name);
      BraceStartsNone();
    }
  }

  lemma BraceStartsNone()
    ensures !StartsSchemaBlock("}") && !StartsSchemaBlock("schema!{")
  {
    assert TrimStart("schema!{") == "schema!{";
  }

  lemma TightOpens()
    ensures OpensBlock("schema!{")
  {
    TrimTight("schema!{");
    assert "schema!{"[0..7] == "schema!";
  }

  /** A block that opens with `schema!{` is a block for the parser alone: the editor never takes it out. */
  lemma TightBlock(es: seq<Entry>, name: string)
    requires AllEntries(es) && NoneNamedHead(es)
    ensures WellFormed(Stretch(TightLines(es))) && EntitiesIn(TightLines(es)) == EntitiesOf(es)
    ensures !Drops(Stretch(TightLines(es)), name)
  {
    var inner := EntriesLines(es) + ["}"];
    TightOpens();
    HeadThen("schema!{", inner);
    EntriesParse(es);
    EntriesStartNone(es);
    BraceStartsNone();
  }
}
