/** What a printed entity says, field by field, once it has been read back. */
module SchemaFields {
  import opened Wrappers
  import opened Text
  import opened CoreLines
  import opened SchemaSource
  import opened SchemaCodegen
  import opened SchemaRoundTrip
  import opened SchemaUpsert
  import SchemaChunks

  // ---------------------------------------------------------------- a reader of type texts

  function ScalarNamed(s: string): Option<NormalizedType> {
    if s == "String" then Some(String)
    else if s == "Text" then Some(Text)
    else if s == "i32" then Some(I32)
    else if s == "i64" then Some(I64)
    else if s == "f32" then Some(F32)
    else if s == "f64" then Some(F64)
    else if s == "bool" then Some(Bool)
    else if s == "Uuid" then Some(Uuid)
    else if s == "DateTime" then Some(DateTimeUtc)
    else if s == "NaiveDateTime" then Some(DateTime)
    else if s == "Date" then Some(Date)
    else if s == "Decimal" then Some(Decimal)
    else if s == "Json" then Some(Json)
    else if s == "Vec<u8>" then Some(Bytes)
    else if s == "Time" then Some(Time)
    else None
  }

  /** The column type a type text stands for, and whether it may be null. */
  function ReadType(s: string): Option<(NormalizedType, bool)> {
    if |s| > 8 && s[..7] == "Option<" && s[|s| - 1] == '>' then
      match ScalarNamed(s[7..|s| - 1])
      case Some(t) => Some((t, true))
      case None => None
    else
      match ScalarNamed(s)
      case Some(t) => Some((t, false))
      case None => None
  }

  // ---------------------------------------------------------------- what an entity should say

  predicate ScalarSays(f: ParsedField, info: FieldInfo) {
    f.name == info.name && f.column == None && ReadType(f.typeStr) == Some((info.normalizedType, info.nullable))
  }

  predicate RelatedSays(f: ParsedField, r: Relationship) {
    f.name == r.fieldName && f.column == None &&
    match r.kind
    case BelongsTo(nullable) =>
      f.typeStr == if nullable then "Option<" + r.relatedPascal + ">" else r.relatedPascal
    case HasMany => f.typeStr == "Vec<" + r.relatedPascal + ">"
  }

  predicate FieldsSay(fields: seq<ParsedField>, infos: seq<FieldInfo>, relationships: seq<Relationship>) {
    && |fields| == |infos| + |relationships|
    && (forall i :: 0 <= i < |infos| ==> ScalarSays(fields[i], infos[i]))
    && (forall j :: 0 <= j < |relationships| ==> RelatedSays(fields[|infos| + j], relationships[j]))
  }

  /** The entity has the name, the scalar fields and then the relationships of the specification, each
      with a type text that stands for its type, its key list, and the timestamps it names. */
  predicate Says(e: ParsedEntity, spec: EntitySpec) {
    && e.name == spec.pascal
    && e.tableName == None
    && e.primaryKey == spec.primaryKey
    && (e.hasCreatedAt <==> spec.timestamps !in {Some("none"), Some("updated_at")})
    && (e.hasUpdatedAt <==> spec.timestamps !in {Some("none"), Some("created_at")})
    && FieldsSay(e.fields, spec.fields, spec.relationships)
  }

  predicate AllSay(es: seq<ParsedEntity>, specs: seq<EntitySpec>) {
    |es| == |specs| && forall k :: 0 <= k < |specs| ==> Says(es[k], specs[k])
  }

  // ---------------------------------------------------------------- what it says

  lemma ScalarRead(t: NormalizedType)
    ensures ScalarNamed(SchemaTypeName(t, false)) == Some(t)
    ensures SchemaTypeName(t, false) != "" && SchemaTypeName(t, false)[0] != 'O' && |SchemaTypeName(t, false)| > 1
  {
  }

  lemma Wrapped(s: string)
    ensures var t := "Option<" + s + ">";
      t[..7] == "Option<" && t[|t| - 1] == '>' && t[7..|t| - 1] == s
  {
  }

  lemma TypeRead(t: NormalizedType, nullable: bool)
    ensures ReadType(SchemaTypeName(t, nullable)) == Some((t, nullable))
  {
    var s := SchemaTypeName(t, false);
    ScalarRead(t);
    if nullable {
      Wrapped(s);
      assert SchemaTypeName(t, true) == "Option<" + s + ">";
    } else {
      assert |s| > 8 ==> s[..7][0] == s[0];
    }
  }

  lemma FieldsRead(spec: EntitySpec)
    ensures FieldsSay(Parsed(AllFields(spec)), spec.fields, spec.relationships)
  {
    var fields, n := Parsed(AllFields(spec)), |spec.fields|;
    forall i | 0 <= i < n ensures ScalarSays(fields[i], spec.fields[i]) {
      FieldAt(spec, i);
      TypeRead(spec.fields[i].normalizedType, spec.fields[i].nullable);
    }
    forall j | 0 <= j < |spec.relationships| ensures RelatedSays(fields[n + j], spec.relationships[j]) {
      FieldAt(spec, n + j);
    }
  }

  lemma EntitySays(spec: EntitySpec)
    ensures Says(ParsedOf(spec), spec)
  {
    FieldsRead(spec);
  }

  lemma {:induction false} AllEntitiesSay(specs: seq<EntitySpec>)
    ensures AllSay(ParsedAll(specs), specs)
  {
    if specs != [] {
      AllEntitiesSay(specs[..|specs| - 1]);
      EntitySays(specs[|specs| - 1]);
    }
  }

  /** ROUND TRIP, field by field. What is parsed from a printed file says what the specifications say. */
  lemma PrintedFileSays(header: string, specs: seq<EntitySpec>)
    requires NoBlockLine(Core(header)) && specs != [] && AllRoundTrip(specs)
    ensures var r := ParseSchemaContent(header + PrintAll(specs));
      r.Ok? && AllSay(r.value, specs)
  {
    PrintedFileParses(header, specs);
    AllEntitiesSay(specs);
  }

  /** And so does what is parsed after any run of updates. */
  lemma RunSays(edits: seq<Edit>)
    requires edits != [] && AllEditsRoundTrip(edits)
    ensures RunEdits(None, edits).Some?
    ensures var r := ParseSchemaContent(RunEdits(None, edits).value);
      r.Ok? && AllSay(r.value, RunSpecs([], edits))
  {
    RunParses(edits);
    AllEntitiesSay(RunSpecs([], edits));
  }

  /** A forced update ends the file with an entity that says what its specification says. */
  lemma UpdateSays(text: string, chunks: seq<SchemaChunks.Chunk>, spec: EntitySpec)
    requires SchemaChunks.IsFile(text, chunks) && RoundTrips(spec)
    ensures var r := ParseSchemaContent(UpdatedContent(Some(text), spec, true));
      r.Ok? && r.value != [] && Says(r.value[|r.value| - 1], spec)
  {
    ForcedUpdate(text, chunks, spec);
    EntitySays(spec);
  }
}
