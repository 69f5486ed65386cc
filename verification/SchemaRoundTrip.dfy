/** What `generate_schema_block` prints is what the parser reads, and a forced update of
    `src/entity.rs` is an upsert. */
module SchemaRoundTrip {
  import opened Wrappers
  import opened Text
  import opened CoreLines
  import opened SchemaSource
  import opened SchemaCodegen
  import opened SchemaCore
  import opened SchemaChunks
  import opened SchemaFiles

  /** What can stand as a type in front of the comma that ends a field line. */
  predicate TypeText(s: string) {
    Plain(s) && s[|s| - 1] != ','
  }

  /** What can stand as the name of a field. */
  predicate FieldName(s: string) {
    NameText(s) && ':' !in s
  }

  predicate NoLineMarks(s: string) {
    '{' !in s && '}' !in s && '\n' !in s
  }

  /** What can stand between the parentheses of an attribute. */
  predicate Argument(s: string) {
    Tight(s) && NoLineMarks(s)
  }

  predicate KeyColumn(s: string) {
    Argument(s) && ',' !in s
  }

  /** Names and types that a line of the block can carry. Any list of key columns is allowed, the
      empty one included. */
  predicate ValidSpec(spec: EntitySpec) {
    && NameText(spec.pascal)
    && (forall i :: 0 <= i < |spec.fields| ==> FieldName(spec.fields[i].name))
    && (forall i :: 0 <= i < |spec.relationships| ==> ValidRelation(spec.relationships[i]))
    && (spec.timestamps.Some? ==> Argument(spec.timestamps.value))
    && (spec.primaryKey.Some? ==> AllColumns(spec.primaryKey.value))
  }

  predicate ValidRelation(r: Relationship) {
    FieldName(r.fieldName) && TypeText(r.relatedPascal)
  }

  predicate AllColumns(names: seq<string>) {
    forall i :: 0 <= i < |names| ==> KeyColumn(names[i])
  }

  function Parsed(fields: seq<(string, string)>): seq<ParsedField> {
    seq(|fields|, i requires 0 <= i < |fields| => ParsedField(fields[i].0, None, fields[i].1))
  }

  /** What a reader should get back for a printed entity. */
  function ParsedOf(spec: EntitySpec): ParsedEntity {
    ParsedEntity(
      spec.pascal,
      None,
      spec.primaryKey,
      spec.timestamps != Some("none") && spec.timestamps != Some("updated_at"),
      spec.timestamps != Some("none") && spec.timestamps != Some("created_at"),
      Parsed(AllFields(spec)))
  }

  // ---------------------------------------------------------------- the printed lines

  function FieldText(field: (string, string)): string {
    field.0 + ": " + field.1 + ","
  }

  function FieldTexts(fields: seq<(string, string)>): (r: seq<string>)
    ensures |r| == |fields|
    ensures forall i :: 0 <= i < |r| ==> r[i] == FieldText(fields[i])
  {
    if fields == [] then [] else [FieldText(fields[0])] + FieldTexts(fields[1..])
  }

  function AttrTexts(spec: EntitySpec): seq<string> {
    (if spec.primaryKey.Some? then [PrimaryKeyAttr(spec.primaryKey.value)] else [])
    + (if spec.timestamps.Some? then [TimestampsAttr(spec.timestamps.value)] else [])
  }

  function EntryOf(spec: EntitySpec): Entry {
    Entry(AttrTexts(spec), spec.pascal, FieldTexts(AllFields(spec)))
  }

  function ChunkOf(spec: EntitySpec): Chunk {
    Block(BlockLines([EntryOf(spec)]))
  }

  predicate ValidField(field: (string, string)) {
    FieldName(field.0) && TypeText(field.1)
  }

  predicate AllValidFields(fields: seq<(string, string)>) {
    forall i :: 0 <= i < |fields| ==> ValidField(fields[i])
  }

  predicate WordType(s: string) {
    s != [] && forall i :: 0 <= i < |s| ==> IdentChar(s[i]) || s[i] in {'<', '>'}
  }

  lemma WordTypeIsType(s: string)
    requires WordType(s)
    ensures TypeText(s)
  {
    assert IdentChar(s[0]) || s[0] in {'<', '>'};
    assert IdentChar(s[|s| - 1]) || s[|s| - 1] in {'<', '>'};
  }

  lemma TypeTexts(t: NormalizedType, nullable: bool)
    ensures TypeText(SchemaTypeName(t, nullable))
  {
    assert WordType(SchemaTypeName(t, false));
    assert WordType(SchemaTypeName(t, nullable));
    WordTypeIsType(SchemaTypeName(t, nullable));
  }

  lemma Wrapped(front: string, s: string)
    requires Plain(s) && front != [] && !IsSpace(front[0]) && NoLineMarks(front)
    ensures TypeText(front + s + ">")
  {
    var t := front + s + ">";
    assert t[0] == front[0] && t[|t| - 1] == '>';
  }

  lemma RelatedTexts(r: Relationship)
    requires TypeText(r.relatedPascal)
    ensures TypeText(RelatedType(r))
  {
    match r.kind {
      case BelongsTo(true) => Wrapped("Option<", r.relatedPascal);
      case BelongsTo(false) =>
      case HasMany => Wrapped("Vec<", r.relatedPascal);
    }
  }

  lemma FieldAt(spec: EntitySpec, i: nat)
    requires i < |AllFields(spec)|
    ensures var n := |spec.fields|;
      if i < n then AllFields(spec)[i] == OwnText(spec.fields[i])
      else i - n < |spec.relationships| && AllFields(spec)[i] == RelatedText(spec.relationships[i - n])
  {
  }

  function OwnText(f: FieldInfo): (string, string) {
    (f.name, SchemaTypeName(f.normalizedType, f.nullable))
  }

  function RelatedText(r: Relationship): (string, string) {
    (r.fieldName, RelatedType(r))
  }

  lemma FieldIsValid(spec: EntitySpec, i: nat)
    requires ValidSpec(spec) && i < |AllFields(spec)|
    ensures ValidField(AllFields(spec)[i])
  {
    var n := |spec.fields|;
    FieldAt(spec, i);
    if i < n {
      OwnField(spec.fields[i]);
    } else {
      RelatedField(spec.relationships[i - n]);
    }
  }

  lemma ValidFields(spec: EntitySpec)
    requires ValidSpec(spec)
    ensures AllValidFields(AllFields(spec))
  {
    var fields := AllFields(spec);
    forall i | 0 <= i < |fields| ensures ValidField(fields[i]) {
      FieldIsValid(spec, i);
    }
  }

  lemma OwnField(f: FieldInfo)
    requires FieldName(f.name)
    ensures ValidField(OwnText(f))
  {
    TypeTexts(f.normalizedType, f.nullable);
  }

  lemma RelatedField(r: Relationship)
    requires ValidRelation(r)
    ensures ValidField(RelatedText(r))
  {
    RelatedTexts(r);
  }

  /** An indented line leaves its text as one core line. */
  lemma IndentedLine(indent: string, line: string)
    requires AllSpace(indent) && '\n' !in indent && CoreLine(line)
    ensures Core(indent + line) == [line]
  {
    assert indent + line + [] == indent + line;
    TrimIs(indent, line, []);
    CoreSingle(indent + line);
  }

  lemma FieldTextPlain(field: (string, string))
    requires ValidField(field)
    ensures Plain(FieldText(field)) && !StartsWith(FieldText(field), "#[")
  {
    var t := FieldText(field);
    assert t[0] == field.0[0] && t[|t| - 1] == ',';
    if |field.0| >= 2 {
      assert t[0..2] == field.0[0..2];
    } else {
      assert t[0..2][1] == ':';
    }
    forall c | c in {'{', '}', '\n'} ensures c !in t {
      assert c !in field.0 && c !in field.1 && c !in ": " && c !in ",";
    }
  }

  lemma {:induction false} FieldsCore(fields: seq<(string, string)>)
    requires AllValidFields(fields)
    ensures Core(Join(FieldLines(fields), "\n")) == FieldTexts(fields)
  {
    if fields != [] {
      var lines := FieldLines(fields);
      var indent := "        ";
      assert ValidField(fields[0]);
      FieldTextPlain(fields[0]);
      assert lines[0] == indent + FieldText(fields[0]);
      IndentedLine(indent, FieldText(fields[0]));
      FieldsCore(fields[1..]);
      assert lines[1..] == FieldLines(fields[1..]);
      if |fields| > 1 {
        CoreConcat(lines[0], Join(lines[1..], "\n"));
      } else {
        assert FieldTexts(fields[1..]) == [];
      }
    }
  }

  lemma CallAttr(name: string, inner: string)
    requires Ident(name)
    ensures var a := "#[" + name + "(" + inner + ")]";
      AttrName(a) == name && ParenInner(a) == Some(inner)
  {
    var a := "#[" + name + "(" + inner + ")]";
    assert IdentChar(name[0]) && IdentChar(name[|name| - 1]);
    var tail := "(" + inner + ")]";
    assert a[2..] == name + tail;
    assert StartsWith(a, "#[") && !StartsWith(a[2..], "#[") by {
      assert a[0..2] == "#[";
      assert a[2..][0] == name[0];
      assert "#["[0] == '#';
    }
    assert TrimStartMatches(a, "#[") == name + tail;
    DelimiterAt(name, tail);
    TrimTight(name);
    assert a == ("#[" + name) + ['('] + (inner + ")]");
    CharPosConcat("#[" + name, inner + ")]", '(');
    assert a == ("#[" + name + "(" + inner) + [')'] + "]";
    RFindAt("#[" + name + "(" + inner, "]", ')');
    assert a[|"#[" + name| + 1..|"#[" + name + "(" + inner|] == inner;
  }

  lemma {:induction false} DelimiterAt(name: string, tail: string)
    requires forall i :: 0 <= i < |name| ==> IdentChar(name[i])
    requires tail != [] && tail[0] == '('
    ensures UpToDelimiter(name + tail) == name
  {
    if name == [] {
      assert name + tail == tail;
    } else {
      assert (name + tail)[1..] == name[1..] + tail;
      DelimiterAt(name[1..], tail);
    }
  }

  lemma {:induction false} JoinPlain(names: seq<string>)
    requires AllColumns(names)
    ensures NoLineMarks(Join(names, ", "))
  {
    if names != [] {
      assert KeyColumn(names[0]) && AllColumns(names[1..]);
      JoinPlain(names[1..]);
    }
  }

  lemma CallAttrPlain(name: string, inner: string)
    requires Ident(name) && NoLineMarks(inner)
    ensures PlainAttr("#[" + name + "(" + inner + ")]")
  {
    var a := "#[" + name + "(" + inner + ")]";
    assert a[0..2] == "#[";
    assert a[0] == '#' && a[|a| - 1] == ']';
    assert NoLineMarks(name) by {
      assert !IdentChar('{') && !IdentChar('}') && !IdentChar('\n');
    }
    forall c | c in {'{', '}', '\n'} ensures c !in a {
      assert c !in name && c !in inner && c !in "#[" && c !in "(" && c !in ")]";
    }
  }

  lemma AttrsPlain(spec: EntitySpec)
    requires ValidSpec(spec)
    ensures spec.primaryKey.Some? ==> PlainAttr(PrimaryKeyAttr(spec.primaryKey.value))
    ensures spec.timestamps.Some? ==> PlainAttr(TimestampsAttr(spec.timestamps.value))
  {
    if spec.primaryKey.Some? {
      KeyName();
      JoinPlain(spec.primaryKey.value);
      CallAttrPlain("primary_key", Join(spec.primaryKey.value, ", "));
    }
    if spec.timestamps.Some? {
      TimestampsName();
      CallAttrPlain("timestamps", spec.timestamps.value);
    }
  }

  lemma KeyName()
    ensures Ident("primary_key") && "#[primary_key(" == "#[" + "primary_key" + "("
  {
  }

  lemma TimestampsName()
    ensures Ident("timestamps") && "#[timestamps(" == "#[" + "timestamps" + "("
  {
  }

  lemma PrintedEntry(spec: EntitySpec)
    requires ValidSpec(spec)
    ensures EntryOk(EntryOf(spec))
  {
    AttrsPlain(spec);
    ValidFields(spec);
    forall i | 0 <= i < |AllFields(spec)| ensures Plain(FieldTexts(AllFields(spec))[i]) {
      FieldTextPlain(AllFields(spec)[i]);
    }
  }

  /** A line put behind a newline and an indent. */
  lemma OneMoreLine(front: string, line: string)
    requires CoreLine(line)
    ensures Core(front + ("\n    " + line)) == Core(front) + [line]
  {
    assert front + ("\n    " + line) == front + "\n" + ("    " + line);
    IndentedLine("    ", line);
    CoreConcat(front, "    " + line);
  }

  lemma OptionalLine(front: string, line: Option<string>, printed: string)
    requires line.Some? ==> CoreLine(line.value)
    requires printed == if line.Some? then "\n    " + line.value else ""
    ensures Core(front + printed) == Core(front) + if line.Some? then [line.value] else []
  {
    if line.Some? {
      OneMoreLine(front, line.value);
    } else {
      assert front + printed == front;
    }
  }

  lemma AttrsCore(spec: EntitySpec)
    requires ValidSpec(spec)
    ensures Core("    " + Attrs(spec)) == AttrTexts(spec)
  {
    AttrsPlain(spec);
    var pk := if spec.primaryKey.Some? then Some(PrimaryKeyAttr(spec.primaryKey.value)) else None;
    var ts := if spec.timestamps.Some? then Some(TimestampsAttr(spec.timestamps.value)) else None;
    var a := if pk.Some? then "\n    " + pk.value else "";
    var b := if ts.Some? then "\n    " + ts.value else "";
    OptionalAttrs("    ", pk, ts, a, b);
  }

  lemma OptionalAttrs(indent: string, pk: Option<string>, ts: Option<string>, a: string, b: string)
    requires AllSpace(indent) && '\n' !in indent
    requires pk.Some? ==> CoreLine(pk.value)
    requires ts.Some? ==> CoreLine(ts.value)
    requires a == if pk.Some? then "\n    " + pk.value else ""
    requires b == if ts.Some? then "\n    " + ts.value else ""
    ensures Core(indent + (a + b)) == (if pk.Some? then [pk.value] else []) + (if ts.Some? then [ts.value] else [])
  {
    CoreSingle(indent);
    TrimAllSpace(indent);
    OptionalLine(indent, pk, a);
    OptionalLine(indent + a, ts, b);
    Assoc(indent, a, b);
  }

  lemma SixParts(head: string, attrs: string, name: string, fields: string, inner: string, outer: string)
    ensures Core("\n" + (head + "\n" + (attrs + "\n" + (name + "\n"
              + (fields + "\n" + (inner + "\n" + (outer + "\n")))))))
         == Core(head) + (Core(attrs) + (Core(name) + (Core(fields) + (Core(inner) + Core(outer)))))
  {
    var t1 := outer + "\n";
    var t2 := inner + "\n" + t1;
    var t3 := fields + "\n" + t2;
    var t4 := name + "\n" + t3;
    var t5 := attrs + "\n" + t4;
    CoreEnd(outer);
    CoreConcat(inner, t1);
    CoreConcat(fields, t2);
    CoreConcat(name, t3);
    CoreConcat(attrs, t4);
    CoreConcat(head, t5);
    CoreNewline(head + "\n" + t5);
  }

  lemma BlockShape(attrs: string, pascal: string, fields: string)
    ensures "\nschema! {\n    " + attrs + "\n    " + pascal + " {\n" + fields + "\n    }\n}\n"
         == "\n" + ("schema! {" + "\n" + ("    " + attrs + "\n" + ("    " + (pascal + " {") + "\n"
            + (fields + "\n" + ("    }" + "\n" + ("}" + "\n"))))))
  {
    assert "\n    }\n}\n" == "\n" + ("    }" + "\n" + ("}" + "\n"));
    assert " {\n" == " {" + "\n" && "\n    " == "\n" + "    ";
    assert "\nschema! {\n    " == "\n" + "schema! {" + "\n" + "    ";
  }

  lemma LineCore(line: string)
    requires CoreLine(line)
    ensures Core(line) == [line]
  {
    CoreSingle(line);
    TrimTight(line);
  }

  lemma FixedLines()
    ensures CoreLine("schema! {") && CoreLine("}")
    ensures "    " + "}" == "    }"
  {
  }

  lemma FixedCores()
    ensures Core("schema! {") == ["schema! {"] && Core("    }") == ["}"] && Core("}") == ["}"]
  {
    FixedLines();
    LineCore("schema! {");
    LineCore("}");
    IndentedLine("    ", "}");
  }

  lemma NameCore(pascal: string)
    requires NameText(pascal)
    ensures Core("    " + (pascal + " {")) == [pascal + " {"]
  {
    IndentedLine("    ", pascal + " {");
  }

  lemma Brackets(e: Entry)
    ensures BlockLines([e]) == ["schema! {"] + (e.attrs + ([e.name + " {"] + (e.body + (["}"] + ["}"]))))
  {
    assert [e][1..] == [];
    assert EntriesLines([e]) == EntryLines(e) + [] && EntryLines(e) + [] == EntryLines(e);
    EntryThen(e, ["}"]);
  }

  /** The printed text, read as core lines. */
  lemma PrintedCore(spec: EntitySpec)
    requires ValidSpec(spec)
    ensures Core(GenerateSchemaBlock(spec)) == BlockLines([EntryOf(spec)])
  {
    var fields := Join(FieldLines(AllFields(spec)), "\n");
    BlockShape(Attrs(spec), spec.pascal, fields);
    SixParts("schema! {", "    " + Attrs(spec), "    " + (spec.pascal + " {"), fields, "    }", "}");
    FixedCores();
    NameCore(spec.pascal);
    AttrsCore(spec);
    ValidFields(spec);
    FieldsCore(AllFields(spec));
    Brackets(EntryOf(spec));
  }

  // ---------------------------------------------------------------- the parsed entity

  /** Splitting `name: type` at its colon. */
  lemma SplitField(name: string, ty: string)
    requires FieldName(name) && TypeText(ty)
    ensures var u := name + ": " + ty;
      var n := CharPos(u, ':');
      n < |u| && Trim(u[..n]) == name && Trim(u[n + 1..]) == ty && u[|u| - 1] != ','
  {
    var u := name + ": " + ty;
    assert u == name + [':'] + (" " + ty);
    CharPosConcat(name, " " + ty, ':');
    assert u[|u| - 1] == ty[|ty| - 1];
    assert u[..|name|] == name;
    assert u[|name| + 1..] == " " + ty + [];
    TrimTight(name);
    TrimIs(" ", ty, []);
  }

  lemma FieldTextParsed(field: (string, string))
    requires ValidField(field)
    ensures FieldsOf(FieldText(field), []) == [ParsedField(field.0, None, field.1)]
  {
    var u := field.0 + ": " + field.1;
    SplitField(field.0, field.1);
    CommaDropped(u);
    FieldsAt(FieldText(field), u);
  }

  lemma FieldsAt(t: string, u: string)
    requires TrimEndMatchesChar(t, ',') == u
    ensures var n := CharPos(u, ':');
      n < |u| ==> FieldsOf(t, []) == [ParsedField(Trim(u[..n]), None, Trim(u[n + 1..]))]
  {
    assert ColumnOf([], None) == None;
  }

  lemma CommaDropped(u: string)
    requires u != [] && u[|u| - 1] != ','
    ensures TrimEndMatchesChar(u + ",", ',') == u
  {
    assert (u + ",")[..|u|] == u;
    assert TrimEndMatchesChar(u, ',') == u;
  }

  lemma FieldStep(field: (string, string), rest: seq<string>, e: ParsedEntity)
    requires ValidField(field)
    ensures Body([FieldText(field)] + rest, [], e)
         == Body(rest, [], e.(fields := e.fields + [ParsedField(field.0, None, field.1)]))
  {
    var t := FieldText(field);
    FieldTextPlain(field);
    TrimTight(t);
    FieldTextParsed(field);
    assert t != "}" by {
      assert '}' !in t;
    }
    assert ([t] + rest)[1..] == rest;
  }

  lemma ValidFieldsCons(fields: seq<(string, string)>)
    requires AllValidFields(fields) && fields != []
    ensures ValidField(fields[0]) && AllValidFields(fields[1..])
  {
  }

  lemma FieldsAppend(e: ParsedEntity, fields: seq<(string, string)>)
    requires fields != []
    ensures var e1 := e.(fields := e.fields + [ParsedField(fields[0].0, None, fields[0].1)]);
      e1.(fields := e1.fields + Parsed(fields[1..])) == e.(fields := e.fields + Parsed(fields))
  {
    var f := [ParsedField(fields[0].0, None, fields[0].1)];
    assert f + Parsed(fields[1..]) == Parsed(fields);
    Assoc(e.fields, f, Parsed(fields[1..]));
  }

  lemma {:induction false} FieldsParsed(fields: seq<(string, string)>, e: ParsedEntity)
    requires AllValidFields(fields)
    ensures Body(FieldTexts(fields), [], e) == (e.(fields := e.fields + Parsed(fields)), [])
  {
    if fields == [] {
      assert e.fields + Parsed(fields) == e.fields;
    } else {
      ValidFieldsCons(fields);
      FieldStep(fields[0], FieldTexts(fields[1..]), e);
      FieldsParsed(fields[1..], e.(fields := e.fields + [ParsedField(fields[0].0, None, fields[0].1)]));
      FieldsAppend(e, fields);
    }
  }

  lemma CommaBlank(a: string, b: string)
    ensures a + ", " + b == a + [','] + (" " + b)
  {
  }

  lemma {:induction false} KeySplit(pad: string, names: seq<string>)
    requires AllSpace(pad) && ',' !in pad
    requires AllColumns(names) && names != []
    ensures TrimAll(Split(pad + Join(names, ", "), ',')) == names
    decreases |names|
  {
    var n := names[0];
    assert names == [n] + names[1..];
    assert KeyColumn(n) && AllColumns(names[1..]);
    PaddedName(pad, n);
    if |names| == 1 {
      SplitNone(pad + n, ',');
      TrimAllCons(pad + n, []);
    } else {
      var rest := Join(names[1..], ", ");
      SplitPadded(pad, n, rest);
      TrimAllCons(pad + n, Split(" " + rest, ','));
      KeySplit(" ", names[1..]);
    }
  }

  lemma PaddedName(pad: string, n: string)
    requires AllSpace(pad) && ',' !in pad && KeyColumn(n)
    ensures Trim(pad + n) == n && ',' !in pad + n
  {
    assert pad + n + [] == pad + n;
    TrimIs(pad, n, []);
  }

  lemma SplitPadded(pad: string, n: string, rest: string)
    requires AllSpace(pad) && ',' !in pad && KeyColumn(n)
    ensures Split(pad + (n + ", " + rest), ',') == [pad + n] + Split(" " + rest, ',')
  {
    PaddedName(pad, n);
    CommaBlank(n, rest);
    var blank := " " + rest;
    Regroup(pad, n, blank);
    SplitStep(pad + n, blank, ',');
  }

  lemma Regroup(pad: string, n: string, rest: string)
    ensures pad + (n + [','] + rest) == (pad + n) + [','] + rest
  {
  }

  /** The column list of a `#[primary_key(...)]` attribute, read back. */
  lemma KeyColumns(columns: seq<string>)
    requires AllColumns(columns)
    ensures TrimAll(Split(Join(columns, ", "), ',')) == if columns == [] then [""] else columns
  {
    if columns == [] {
      SplitNone([], ',');
      TrimTight([]);
      assert TrimAll([[]][1..]) == [];
    } else {
      KeySplit([], columns);
      assert [] + Join(columns, ", ") == Join(columns, ", ");
    }
  }

  lemma KeyParsed(columns: seq<string>, e: ParsedEntity)
    requires AllColumns(columns)
    ensures ApplyAttr(PrimaryKeyAttr(columns), e)
         == e.(primaryKey := Some(if columns == [] then [""] else columns))
  {
    KeyName();
    CallAttr("primary_key", Join(columns, ", "));
    KeyColumns(columns);
  }

  lemma TimestampsParsed(ts: string, e: ParsedEntity)
    requires Argument(ts) && e.hasCreatedAt && e.hasUpdatedAt
    ensures ApplyAttr(TimestampsAttr(ts), e)
         == e.(hasCreatedAt := ts != "none" && ts != "updated_at", hasUpdatedAt := ts != "none" && ts != "created_at")
  {
    TimestampsName();
    CallAttr("timestamps", ts);
    TrimTight(ts);
  }

  lemma OneAttr(attr: string, e: ParsedEntity)
    ensures ApplyAttrs([attr], e) == ApplyAttr(attr, e)
  {
    assert [attr][0] == attr && [attr][1..] == [];
  }

  lemma KeyAttrParsed(spec: EntitySpec, e: ParsedEntity)
    requires ValidSpec(spec) && e.primaryKey == None
    ensures ApplyAttrs(if spec.primaryKey.Some? then [PrimaryKeyAttr(spec.primaryKey.value)] else [], e)
         == e.(primaryKey := if spec.primaryKey == Some([]) then Some([""]) else spec.primaryKey)
  {
    if spec.primaryKey.Some? {
      KeyParsed(spec.primaryKey.value, e);
      OneAttr(PrimaryKeyAttr(spec.primaryKey.value), e);
    }
  }

  lemma TimestampsAttrParsed(spec: EntitySpec, e: ParsedEntity)
    requires ValidSpec(spec) && e.hasCreatedAt && e.hasUpdatedAt
    ensures ApplyAttrs(if spec.timestamps.Some? then [TimestampsAttr(spec.timestamps.value)] else [], e)
         == e.(hasCreatedAt := spec.timestamps != Some("none") && spec.timestamps != Some("updated_at"),
               hasUpdatedAt := spec.timestamps != Some("none") && spec.timestamps != Some("created_at"))
  {
    if spec.timestamps.Some? {
      TimestampsParsed(spec.timestamps.value, e);
      OneAttr(TimestampsAttr(spec.timestamps.value), e);
    }
  }

  /** Everything a printed block says comes back, except that a key list with no columns comes
      back as one unnamed column. */
  lemma PrintedEntity(spec: EntitySpec)
    requires ValidSpec(spec)
    ensures EntityOf(EntryOf(spec))
         == ParsedOf(spec).(primaryKey := if spec.primaryKey == Some([]) then Some([""]) else spec.primaryKey)
  {
    var e := NewEntity(spec.pascal);
    var pk := if spec.primaryKey.Some? then [PrimaryKeyAttr(spec.primaryKey.value)] else [];
    var ts := if spec.timestamps.Some? then [TimestampsAttr(spec.timestamps.value)] else [];
    KeyAttrParsed(spec, e);
    TimestampsAttrParsed(spec, ApplyAttrs(pk, e));
    ApplyAttrsConcat(pk, ts, e);
    var e2 := ApplyAttrs(ts, ApplyAttrs(pk, e));
    ValidFields(spec);
    FieldsParsed(AllFields(spec), e2);
    assert e2.fields + Parsed(AllFields(spec)) == Parsed(AllFields(spec));
  }

  lemma {:induction false} ApplyAttrsConcat(a: seq<string>, b: seq<string>, e: ParsedEntity)
    ensures ApplyAttrs(a + b, e) == ApplyAttrs(b, ApplyAttrs(a, e))
  {
    if a == [] {
      assert a + b == b;
    } else {
      assert (a + b)[1..] == a[1..] + b;
      ApplyAttrsConcat(a[1..], b, ApplyAttr(a[0], e));
    }
  }
}
