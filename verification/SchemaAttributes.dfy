/** Entities written by hand with attributes: what each attribute line makes of the entity or the field
    behind it. */
module SchemaAttributes {
  import opened Wrappers
  import opened Text
  import opened CoreLines
  import opened SchemaSource
  import opened SchemaChunks
  import opened SchemaFiles
  import opened SchemaRoundTrip

  // ---------------------------------------------------------------- what is written

  datatype Attr =
    | TableName(table: string)
    | PrimaryKey(columns: seq<string>)
    | Timestamps(mode: string)
    | Unknown(attr: string, inner: string)

  datatype FieldAttr =
    | Column(column: string)
    | Foreign(attr: string, inner: string)

  datatype WrittenField = WrittenField(attrs: seq<FieldAttr>, name: string, typeText: string)

  datatype Written = Written(attrs: seq<Attr>, name: string, fields: seq<WrittenField>)

  function QuotedLine(name: string, x: string): string {
    "#[" + name + " = \"" + x + "\"]"
  }

  function CallLine(name: string, inner: string): string {
    "#[" + name + "(" + inner + ")]"
  }

  function AttrLine(a: Attr): string {
    match a
    case TableName(x) => QuotedLine("table_name", x)
    case PrimaryKey(columns) => CallLine("primary_key", Join(columns, ", "))
    case Timestamps(mode) => CallLine("timestamps", mode)
    case Unknown(name, inner) => CallLine(name, inner)
  }

  function FieldAttrLine(a: FieldAttr): string {
    match a
    case Column(x) => QuotedLine("column", x)
    case Foreign(name, inner) => CallLine(name, inner)
  }

  function AttrLinesOf(attrs: seq<Attr>): (r: seq<string>)
    ensures |r| == |attrs|
    ensures forall i :: 0 <= i < |r| ==> r[i] == AttrLine(attrs[i])
  {
    seq(|attrs|, i requires 0 <= i < |attrs| => AttrLine(attrs[i]))
  }

  function FieldAttrLines(attrs: seq<FieldAttr>): (r: seq<string>)
    ensures |r| == |attrs|
    ensures forall i :: 0 <= i < |r| ==> r[i] == FieldAttrLine(attrs[i])
  {
    seq(|attrs|, i requires 0 <= i < |attrs| => FieldAttrLine(attrs[i]))
  }

  /** The lines of the fields: the attributes of each, then its name, a colon, its type and a comma. */
  function FieldLinesOf(fields: seq<WrittenField>): seq<string> {
    if fields == [] then []
    else
      FieldAttrLines(fields[0].attrs)
      + ([fields[0].name + ": " + fields[0].typeText + ","] + FieldLinesOf(fields[1..]))
  }

  function EntryFor(w: Written): Entry {
    Entry(AttrLinesOf(w.attrs), w.name, FieldLinesOf(w.fields))
  }

  predicate Quotable(x: string) {
    NoLineMarks(x) && '"' !in x
  }

  predicate ValidAttr(a: Attr) {
    match a
    case TableName(x) => Quotable(x)
    case PrimaryKey(columns) => columns != [] && AllColumns(columns)
    case Timestamps(mode) => Argument(mode)
    case Unknown(name, inner) =>
      Ident(name) && name !in {"table_name", "primary_key", "timestamps"} && NoLineMarks(inner)
  }

  predicate ValidFieldAttr(a: FieldAttr) {
    match a
    case Column(x) => Quotable(x)
    case Foreign(name, inner) => Ident(name) && name != "column" && NoLineMarks(inner)
  }

  predicate ValidAttrs(attrs: seq<Attr>) {
    forall i :: 0 <= i < |attrs| ==> ValidAttr(attrs[i])
  }

  predicate ValidFieldAttrs(attrs: seq<FieldAttr>) {
    forall i :: 0 <= i < |attrs| ==> ValidFieldAttr(attrs[i])
  }

  predicate ValidWrittenField(f: WrittenField) {
    FieldName(f.name) && TypeText(f.typeText) && ValidFieldAttrs(f.attrs)
  }

  predicate ValidWrittenFields(fields: seq<WrittenField>) {
    forall i :: 0 <= i < |fields| ==> ValidWrittenField(fields[i])
  }

  predicate ValidWritten(w: Written) {
    NameText(w.name) && ValidAttrs(w.attrs) && ValidWrittenFields(w.fields)
  }

  // ---------------------------------------------------------------- what it means

  /** The last table name decides. */
  function LastTable(attrs: seq<Attr>): Option<string> {
    if attrs == [] then None
    else
      match attrs[|attrs| - 1]
      case TableName(x) => Some(x)
      case _ => LastTable(attrs[..|attrs| - 1])
  }

  /** The last key list decides. */
  function LastKey(attrs: seq<Attr>): Option<seq<string>> {
    if attrs == [] then None
    else
      match attrs[|attrs| - 1]
      case PrimaryKey(columns) => Some(columns)
      case _ => LastKey(attrs[..|attrs| - 1])
  }

  function LastColumn(attrs: seq<FieldAttr>): Option<string> {
    if attrs == [] then None
    else
      match attrs[|attrs| - 1]
      case Column(x) => Some(x)
      case Foreign(_, _) => LastColumn(attrs[..|attrs| - 1])
  }

  predicate FieldMeans(f: ParsedField, w: WrittenField) {
    f.name == w.name && f.typeStr == w.typeText && f.column == LastColumn(w.attrs)
  }

  predicate FieldsMean(fields: seq<ParsedField>, ws: seq<WrittenField>) {
    |fields| == |ws| && forall i :: 0 <= i < |ws| ==> FieldMeans(fields[i], ws[i])
  }

  predicate AttrsMean(e: ParsedEntity, attrs: seq<Attr>) {
    && e.tableName == LastTable(attrs)
    && e.primaryKey == LastKey(attrs)
    && (e.hasCreatedAt <==> Timestamps("none") !in attrs && Timestamps("updated_at") !in attrs)
    && (e.hasUpdatedAt <==> Timestamps("none") !in attrs && Timestamps("created_at") !in attrs)
  }

  predicate Means(e: ParsedEntity, w: Written) {
    e.name == w.name && AttrsMean(e, w.attrs) && FieldsMean(e.fields, w.fields)
  }

  // ---------------------------------------------------------------- one attribute line

  lemma {:induction false} UpTo(front: string, tail: string)
    requires tail != [] && tail[0] in {'(', '=', ']'}
    requires forall i :: 0 <= i < |front| ==> front[i] !in {'(', '=', ']'}
    ensures UpToDelimiter(front + tail) == front
  {
    if front == [] {
      assert front + tail == tail;
    } else {
      assert (front + tail)[0] == front[0] && (front + tail)[1..] == front[1..] + tail;
      UpTo(front[1..], tail);
    }
  }

  lemma MarksDropped(rest: string)
    requires rest != [] && rest[0] != '#'
    ensures TrimStartMatches("#[" + rest, "#[") == rest
  {
    var a := "#[" + rest;
    assert a[0..2] == "#[" && a[2..] == rest;
    assert !StartsWith(rest, "#[") by {
      assert "#["[0] == '#';
      assert |rest| >= 2 ==> rest[0..2][0] == rest[0];
    }
  }

  /** The line `#[name = "x"]` has that name and that value. */
  lemma QuotedAttr(name: string, x: string)
    requires Ident(name) && '"' !in x
    ensures AttrName(QuotedLine(name, x)) == name && QuotedValue(QuotedLine(name, x)) == Some(x)
  {
    assert IdentChar(name[0]) && IdentChar(name[|name| - 1]);
    var tail := "= \"" + (x + "\"]");
    QuotedShape(name, x, tail);
    MarksDropped(name + " " + tail);
    UpTo(name + " ", tail);
    assert name + " " == [] + name + " ";
    TrimIs([], name, " ");
    QuotesFound("#[" + name + " = ", x);
  }

  lemma QuotedShape(name: string, x: string, tail: string)
    requires tail == "= \"" + (x + "\"]")
    ensures QuotedLine(name, x) == "#[" + (name + " " + tail)
    ensures QuotedLine(name, x) == ("#[" + name + " = ") + "\"" + x + "\"" + "]"
  {
    assert " = \"" == " " + "= \"" && " = \"" == " = " + "\"" && "\"]" == "\"" + "]";
  }

  lemma QuotesFound(front: string, x: string)
    requires '"' !in front && '"' !in x
    ensures Between(front + "\"" + x + "\"" + "]", '"', '"') == Some(x)
  {
    var s := front + "\"" + x + "\"" + "]";
    var end := |front| + 1 + |x|;
    assert s == front + ['"'] + (x + "\"" + "]");
    CharPosConcat(front, x + "\"" + "]", '"');
    assert s == (front + "\"" + x) + ['"'] + "]";
    RFindAt(front + "\"" + x, "]", '"');
    assert s[|front| + 1..end] == x;
  }

  lemma QuotedPlain(name: string, x: string)
    requires Ident(name) && Quotable(x)
    ensures PlainAttr(QuotedLine(name, x))
  {
    var a := QuotedLine(name, x);
    assert a[0..2] == "#[" && a[0] == '#' && a[|a| - 1] == ']';
    assert NoLineMarks(name) by {
      assert !IdentChar('{') && !IdentChar('}') && !IdentChar('\n');
    }
    forall c | c in {'{', '}', '\n'} ensures c !in a {
      assert c !in name && c !in x && c !in "#[" && c !in " = \"" && c !in "\"]";
    }
  }

  lemma KnownNames()
    ensures Ident("table_name") && Ident("primary_key") && Ident("timestamps") && Ident("column")
  {
  }

  lemma AttrPlain(a: Attr)
    requires ValidAttr(a)
    ensures PlainAttr(AttrLine(a))
  {
    KnownNames();
    match a {
      case TableName(x) => QuotedPlain("table_name", x);
      case PrimaryKey(columns) =>
        JoinPlain(columns);
        CallAttrPlain("primary_key", Join(columns, ", "));
      case Timestamps(mode) => CallAttrPlain("timestamps", mode);
      case Unknown(name, inner) => CallAttrPlain(name, inner);
    }
  }

  lemma FieldAttrPlain(a: FieldAttr)
    requires ValidFieldAttr(a)
    ensures PlainAttr(FieldAttrLine(a))
  {
    KnownNames();
    match a {
      case Column(x) => QuotedPlain("column", x);
      case Foreign(name, inner) => CallAttrPlain(name, inner);
    }
  }

  /** What one attribute line changes. */
  function Changed(a: Attr, e: ParsedEntity): ParsedEntity {
    match a
    case TableName(x) => e.(tableName := Some(x))
    case PrimaryKey(columns) => e.(primaryKey := Some(columns))
    case Timestamps(mode) =>
      e.(hasCreatedAt := e.hasCreatedAt && mode !in {"none", "updated_at"},
         hasUpdatedAt := e.hasUpdatedAt && mode !in {"none", "created_at"})
    case Unknown(_, _) => e
  }

  lemma TableApplied(x: string, e: ParsedEntity)
    requires Quotable(x)
    ensures ApplyAttr(QuotedLine("table_name", x), e) == e.(tableName := Some(x))
  {
    KnownNames();
    QuotedAttr("table_name", x);
  }

  lemma KeyApplied(columns: seq<string>, e: ParsedEntity)
    requires columns != [] && AllColumns(columns)
    ensures ApplyAttr(CallLine("primary_key", Join(columns, ", ")), e) == e.(primaryKey := Some(columns))
  {
    KnownNames();
    CallAttr("primary_key", Join(columns, ", "));
    KeyColumns(columns);
  }

  lemma TimestampsApplied(mode: string, e: ParsedEntity)
    requires Argument(mode)
    ensures ApplyAttr(CallLine("timestamps", mode), e) == Changed(Timestamps(mode), e)
  {
    KnownNames();
    CallAttr("timestamps", mode);
    TrimTight(mode);
  }

  lemma UnknownApplied(name: string, inner: string, e: ParsedEntity)
    requires ValidAttr(Unknown(name, inner))
    ensures ApplyAttr(CallLine(name, inner), e) == e
  {
    CallAttr(name, inner);
  }

  lemma AttrApplied(a: Attr, e: ParsedEntity)
    requires ValidAttr(a)
    ensures ApplyAttr(AttrLine(a), e) == Changed(a, e)
  {
    match a {
      case TableName(x) => TableApplied(x, e);
      case PrimaryKey(columns) => KeyApplied(columns, e);
      case Timestamps(mode) => TimestampsApplied(mode, e);
      case Unknown(name, inner) => UnknownApplied(name, inner, e);
    }
  }

  lemma ChangedMeans(e: ParsedEntity, init: seq<Attr>, last: Attr)
    requires AttrsMean(e, init)
    ensures AttrsMean(Changed(last, e), init + [last])
  {
    var attrs := init + [last];
    assert attrs[..|attrs| - 1] == init && attrs[|attrs| - 1] == last;
    assert forall a :: a in attrs <==> a in init || a == last;
  }

  predicate Applied(attrs: seq<Attr>, name: string) {
    var e := ApplyAttrs(AttrLinesOf(attrs), NewEntity(name));
    e.name == name && e.fields == [] && AttrsMean(e, attrs)
  }

  lemma NoneApplied(name: string)
    ensures Applied([], name)
  {
    assert AttrLinesOf([]) == [];
  }

  lemma OneMoreApplied(init: seq<Attr>, last: Attr, name: string)
    requires ValidAttr(last) && Applied(init, name)
    ensures Applied(init + [last], name)
  {
    LastApplied(init, last, name);
    ChangedMeans(ApplyAttrs(AttrLinesOf(init), NewEntity(name)), init, last);
  }

  /** The attributes of an entity, one after another. */
  lemma {:induction false} AttrsApplied(attrs: seq<Attr>, name: string)
    requires ValidAttrs(attrs)
    ensures Applied(attrs, name)
  {
    if attrs == [] {
      NoneApplied(name);
    } else {
      var init, last := attrs[..|attrs| - 1], attrs[|attrs| - 1];
      assert attrs == init + [last];
      AttrsApplied(init, name);
      OneMoreApplied(init, last, name);
    }
  }

  lemma LastApplied(init: seq<Attr>, last: Attr, name: string)
    requires ValidAttr(last)
    ensures ApplyAttrs(AttrLinesOf(init + [last]), NewEntity(name))
         == Changed(last, ApplyAttrs(AttrLinesOf(init), NewEntity(name)))
  {
    assert AttrLinesOf(init + [last]) == AttrLinesOf(init) + [AttrLine(last)];
    ApplyAttrsConcat(AttrLinesOf(init), [AttrLine(last)], NewEntity(name));
    OneAttr(AttrLine(last), ApplyAttrs(AttrLinesOf(init), NewEntity(name)));
    AttrApplied(last, ApplyAttrs(AttrLinesOf(init), NewEntity(name)));
  }

  // ---------------------------------------------------------------- one field

  lemma {:induction false} ColumnConcat(a: seq<string>, line: string, column: Option<string>)
    ensures ColumnOf(a + [line], column)
         == if AttrName(line) == "column" then QuotedValue(line) else ColumnOf(a, column)
  {
    if a == [] {
      assert a + [line] == [line] && [line][1..] == [];
    } else {
      assert (a + [line])[0] == a[0] && (a + [line])[1..] == a[1..] + [line];
      ColumnConcat(a[1..], line, if AttrName(a[0]) == "column" then QuotedValue(a[0]) else column);
    }
  }

  lemma {:induction false} ColumnMeans(attrs: seq<FieldAttr>)
    requires ValidFieldAttrs(attrs)
    ensures ColumnOf(FieldAttrLines(attrs), None) == LastColumn(attrs)
  {
    if attrs != [] {
      var init, last := attrs[..|attrs| - 1], attrs[|attrs| - 1];
      ColumnMeans(init);
      assert FieldAttrLines(attrs) == FieldAttrLines(init) + [FieldAttrLine(last)];
      LastDecides(FieldAttrLines(init), last);
    }
  }

  lemma LastDecides(lines: seq<string>, last: FieldAttr)
    requires ValidFieldAttr(last)
    ensures ColumnOf(lines + [FieldAttrLine(last)], None)
         == if last.Column? then Some(last.column) else ColumnOf(lines, None)
  {
    ColumnConcat(lines, FieldAttrLine(last), None);
    OneColumn(last);
  }

  lemma OneColumn(a: FieldAttr)
    requires ValidFieldAttr(a)
    ensures AttrName(FieldAttrLine(a)) == "column" <==> a.Column?
    ensures a.Column? ==> QuotedValue(FieldAttrLine(a)) == Some(a.column)
  {
    KnownNames();
    match a {
      case Column(x) => QuotedAttr("column", x);
      case Foreign(name, inner) => CallAttr(name, inner);
    }
  }

  lemma FieldRead(name: string, ty: string, pending: seq<string>)
    requires FieldName(name) && TypeText(ty)
    ensures FieldsOf(name + ": " + ty + ",", pending) == [ParsedField(name, ColumnOf(pending, None), ty)]
  {
    var u := name + ": " + ty;
    SplitField(name, ty);
    CommaDropped(u);
  }

  /** The lines of one field make one field, and leave no attribute for the next. */
  lemma FieldApplied(f: WrittenField, rest: seq<string>, e: ParsedEntity)
    requires ValidWrittenField(f)
    ensures Body(FieldAttrLines(f.attrs) + ([f.name + ": " + f.typeText + ","] + rest), [], e)
         == Body(rest, [], e.(fields := e.fields + [ParsedField(f.name, LastColumn(f.attrs), f.typeText)]))
  {
    var attrs, line := FieldAttrLines(f.attrs), f.name + ": " + f.typeText + ",";
    forall i | 0 <= i < |attrs| ensures PlainAttr(attrs[i]) {
      FieldAttrPlain(f.attrs[i]);
    }
    AttrsPass(attrs, [], [line] + rest, e);
    assert [] + attrs == attrs;
    FieldTextPlain((f.name, f.typeText));
    TrimTight(line);
    FieldRead(f.name, f.typeText, attrs);
    ColumnMeans(f.attrs);
    assert line != "}" by {
      assert '}' !in line;
    }
    assert ([line] + rest)[0] == line && ([line] + rest)[1..] == rest;
  }

  function FieldsFor(ws: seq<WrittenField>): (r: seq<ParsedField>)
    ensures FieldsMean(r, ws)
  {
    seq(|ws|, i requires 0 <= i < |ws| => ParsedField(ws[i].name, LastColumn(ws[i].attrs), ws[i].typeText))
  }

  lemma {:induction false} FieldsApplied(ws: seq<WrittenField>, e: ParsedEntity)
    requires ValidWrittenFields(ws)
    ensures Body(FieldLinesOf(ws), [], e).0 == e.(fields := e.fields + FieldsFor(ws))
  {
    if ws == [] {
      assert e.fields + FieldsFor(ws) == e.fields;
    } else {
      var f := ParsedField(ws[0].name, LastColumn(ws[0].attrs), ws[0].typeText);
      FieldApplied(ws[0], FieldLinesOf(ws[1..]), e);
      FieldsApplied(ws[1..], e.(fields := e.fields + [f]));
      assert FieldsFor(ws) == [f] + FieldsFor(ws[1..]);
      Assoc(e.fields, [f], FieldsFor(ws[1..]));
    }
  }

  lemma {:induction false} FieldLinesPlain(ws: seq<WrittenField>)
    requires ValidWrittenFields(ws)
    ensures AllPlain(FieldLinesOf(ws))
  {
    if ws != [] {
      var attrs := FieldAttrLines(ws[0].attrs);
      FieldLinesPlain(ws[1..]);
      FieldTextPlain((ws[0].name, ws[0].typeText));
      forall i | 0 <= i < |attrs| ensures Plain(attrs[i]) {
        FieldAttrPlain(ws[0].attrs[i]);
      }
    }
  }

  // ---------------------------------------------------------------- entities and files

  lemma EntryValid(w: Written)
    requires ValidWritten(w)
    ensures EntryOk(EntryFor(w))
  {
    FieldLinesPlain(w.fields);
    forall i | 0 <= i < |w.attrs| ensures PlainAttr(AttrLinesOf(w.attrs)[i]) {
      AttrPlain(w.attrs[i]);
    }
  }

  /** ATTRIBUTES. What is read from an entity written with attributes is what they say. */
  lemma EntityMeans(w: Written)
    requires ValidWritten(w)
    ensures Means(EntityOf(EntryFor(w)), w)
  {
    AttrsApplied(w.attrs, w.name);
    FieldsApplied(w.fields, ApplyAttrs(AttrLinesOf(w.attrs), NewEntity(w.name)));
  }

  function EntriesFor(ws: seq<Written>): seq<Entry> {
    if ws == [] then [] else [EntryFor(ws[0])] + EntriesFor(ws[1..])
  }

  predicate AllValid(ws: seq<Written>) {
    forall i :: 0 <= i < |ws| ==> ValidWritten(ws[i])
  }

  predicate AllMean(es: seq<ParsedEntity>, ws: seq<Written>) {
    |es| == |ws| && forall i :: 0 <= i < |ws| ==> Means(es[i], ws[i])
  }

  lemma {:induction false} EntriesMean(ws: seq<Written>)
    requires AllValid(ws)
    ensures AllEntries(EntriesFor(ws)) && AllMean(EntitiesOf(EntriesFor(ws)), ws)
  {
    if ws != [] {
      assert ValidWritten(ws[0]) && AllValid(ws[1..]);
      EntriesMean(ws[1..]);
      EntryValid(ws[0]);
      EntityMeans(ws[0]);
      assert EntriesFor(ws)[1..] == EntriesFor(ws[1..]);
    }
  }

  /** A file with a block of such entities, between any other parts, is parsed to what stood in front of
      the block, entities that mean what is written, and what stood behind. */
  lemma WrittenFileMeans(text: string, before: seq<Chunk>, ws: seq<Written>, after: seq<Chunk>)
    requires AllValid(ws) && ws != []
    requires IsFile(text, before + [Block(BlockLines(EntriesFor(ws)))] + after)
    ensures exists es ::
      AllMean(es, ws) && ParseSchemaContent(text) == Ok(Entities(before) + es + Entities(after))
  {
    var c := Block(BlockLines(EntriesFor(ws)));
    EntriesMean(ws);
    EntriesBlock(EntriesFor(ws), "");
    OneChunk(c);
    EntitiesConcat(before, [c]);
    EntitiesConcat(before + [c], after);
    ParseFile(text, before + [c] + after);
    assert AllMean(EntitiesIn(c.lines), ws);
  }
}
