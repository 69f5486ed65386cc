/** The printer and the editor of `schema!` blocks (rapina-cli/src/commands/codegen.rs). */
module SchemaCodegen {
  import opened Wrappers
  import opened Text
  import opened CoreLines

  // ---------------------------------------------------------------- printer

  datatype NormalizedType =
    | String | Text | I32 | I64 | F32 | F64 | Bool | Uuid
    | DateTimeUtc | DateTime | Date | Decimal | Json | Bytes | Time

  function SchemaTypeName(t: NormalizedType, nullable: bool): string {
    var s := match t
      case String => "String"
      case Text => "Text"
      case I32 => "i32"
      case I64 => "i64"
      case F32 => "f32"
      case F64 => "f64"
      case Bool => "bool"
      case Uuid => "Uuid"
      case DateTimeUtc => "DateTime"
      case DateTime => "NaiveDateTime"
      case Date => "Date"
      case Decimal => "Decimal"
      case Json => "Json"
      case Bytes => "Vec<u8>"
      case Time => "Time";
    if nullable then "Option<" + s + ">" else s
  }

  datatype FieldInfo = FieldInfo(name: string, normalizedType: NormalizedType, nullable: bool)

  datatype RelationshipKind = BelongsTo(nullable: bool) | HasMany

  datatype Relationship = Relationship(fieldName: string, relatedPascal: string, kind: RelationshipKind)

  /** The arguments of `generate_schema_block`. */
  datatype EntitySpec = EntitySpec(
    pascal: string,
    fields: seq<FieldInfo>,
    timestamps: Option<string>,
    primaryKey: Option<seq<string>>,
    relationships: seq<Relationship>)

  function RelatedType(r: Relationship): string {
    match r.kind
    case BelongsTo(true) => "Option<" + r.relatedPascal + ">"
    case BelongsTo(false) => r.relatedPascal
    case HasMany => "Vec<" + r.relatedPascal + ">"
  }

  function FieldLine(name: string, typeName: string): string {
    "        " + name + ": " + typeName + ","
  }

  /** Every field of the block, scalar columns before relationships: its name and type text. */
  function AllFields(spec: EntitySpec): seq<(string, string)> {
    seq(|spec.fields|, i requires 0 <= i < |spec.fields| =>
      (spec.fields[i].name, SchemaTypeName(spec.fields[i].normalizedType, spec.fields[i].nullable)))
    + seq(|spec.relationships|, i requires 0 <= i < |spec.relationships| =>
      (spec.relationships[i].fieldName, RelatedType(spec.relationships[i])))
  }

  function FieldLines(fields: seq<(string, string)>): (r: seq<string>)
    ensures |r| == |fields|
  {
    if fields == [] then [] else [FieldLine(fields[0].0, fields[0].1)] + FieldLines(fields[1..])
  }

  function PrimaryKeyAttr(columns: seq<string>): string {
    "#[primary_key(" + Join(columns, ", ") + ")]"
  }

  function TimestampsAttr(ts: string): string {
    "#[timestamps(" + ts + ")]"
  }

  function Attrs(spec: EntitySpec): string {
    (if spec.primaryKey.Some? then "\n    " + PrimaryKeyAttr(spec.primaryKey.value) else "")
    + (if spec.timestamps.Some? then "\n    " + TimestampsAttr(spec.timestamps.value) else "")
  }

  function GenerateSchemaBlock(spec: EntitySpec): string {
    "\nschema! {\n    " + Attrs(spec) + "\n    " + spec.pascal + " {\n"
    + Join(FieldLines(AllFields(spec)), "\n") + "\n    }\n}\n"
  }

  // ---------------------------------------------------------------- editor

  function Count(s: string, c: char): nat {
    if s == [] then 0 else (if s[0] == c then 1 else 0) + Count(s[1..], c)
  }

  function Delta(line: string): int {
    Count(line, '{') - Count(line, '}')
  }

  lemma {:induction false} CountConcat(a: string, b: string, c: char)
    ensures Count(a + b, c) == Count(a, c) + Count(b, c)
  {
    if a == [] {
      assert a + b == b;
    } else {
      assert (a + b)[1..] == a[1..] + b;
      CountConcat(a[1..], b, c);
    }
  }

  lemma {:induction false} CountFree(s: string, c: char)
    requires c !in s
    ensures Count(s, c) == 0
  {
    if s != [] {
      CountFree(s[1..], c);
    }
  }

  lemma DeltaConcat(a: string, b: string)
    ensures Delta(a + b) == Delta(a) + Delta(b)
  {
    CountConcat(a, b, '{');
    CountConcat(a, b, '}');
  }

  lemma DeltaFree(s: string)
    requires '{' !in s && '}' !in s
    ensures Delta(s) == 0
  {
    CountFree(s, '{');
    CountFree(s, '}');
  }

  predicate StartsSchemaBlock(line: string) {
    StartsWith(TrimStart(line), "schema! {")
  }

  /** The lines up to the one that brings the brace depth back to zero, and the rest. */
  function SplitBlock(ls: seq<string>, depth: int): (r: (seq<string>, seq<string>))
    ensures |r.1| <= |ls|
  {
    if depth <= 0 || ls == [] then ([], ls)
    else
      var (block, rest) := SplitBlock(ls[1..], depth + Delta(ls[0]));
      ([ls[0]] + block, rest)
  }

  lemma SplitBlockParts(ls: seq<string>, depth: int)
    ensures SplitBlock(ls, depth).0 + SplitBlock(ls, depth).1 == ls
  {
    if depth > 0 && ls != [] {
      SplitBlockParts(ls[1..], depth + Delta(ls[0]));
    }
  }

  predicate Mentions(ls: seq<string>, pattern: string) {
    exists i :: 0 <= i < |ls| && Contains(ls[i], pattern)
  }

  /** The lines that stay when the blocks mentioning `pattern` go. */
  function RemoveLines(ls: seq<string>, pattern: string): seq<string>
    decreases |ls|
  {
    if ls == [] then []
    else if StartsSchemaBlock(ls[0]) then
      var (block, rest) := SplitBlock(ls[1..], Delta(ls[0]));
      (if Mentions([ls[0]] + block, pattern) then [] else [ls[0]] + block) + RemoveLines(rest, pattern)
    else [ls[0]] + RemoveLines(ls[1..], pattern)
  }

  function RemoveSchemaBlock(content: string, entityName: string): string {
    Collapse(Unlines(RemoveLines(Lines(content), entityName + " {")))
  }

  function UpdatedContent(content: Option<string>, spec: EntitySpec, force: bool): string {
    match content
    case None => "use rapina::prelude::*;\n" + GenerateSchemaBlock(spec)
    case Some(text) =>
      var kept := if force then RemoveSchemaBlock(text, spec.pascal) else text;
      (if Contains(kept, "use rapina::prelude::*") || Contains(kept, "use rapina::schema")
       then "" else "use rapina::schema;\n")
      + TrimEnd(kept) + GenerateSchemaBlock(spec)
  }

  lemma JoinContains(ls: seq<string>, pattern: string)
    requires pattern != [] && '\n' !in pattern
    ensures Contains(Join(ls, "\n"), pattern) <==> Mentions(ls, pattern)
  {
    if ls == [] {
      assert !HasAt([], pattern, 0);
    } else if |ls| == 1 {
      assert Join(ls, "\n") == ls[0];
    } else {
      JoinContains(ls[1..], pattern);
      ContainsAcrossNewline(ls[0], Join(ls[1..], "\n"), pattern);
      assert Mentions(ls, pattern) <==> Contains(ls[0], pattern) || Mentions(ls[1..], pattern) by {
        if Mentions(ls[1..], pattern) {
          var i :| 0 <= i < |ls[1..]| && Contains(ls[1..][i], pattern);
          assert Contains(ls[i + 1], pattern);
        }
        if Mentions(ls, pattern) && !Contains(ls[0], pattern) {
          var i :| 0 <= i < |ls| && Contains(ls[i], pattern);
          assert Contains(ls[1..][i - 1], pattern);
        }
      }
    }
  }

  lemma ContainsAcrossNewline(a: string, b: string, pattern: string)
    requires pattern != [] && '\n' !in pattern
    ensures Contains(a + "\n" + b, pattern) <==> Contains(a, pattern) || Contains(b, pattern)
  {
    forall i
      ensures HasAt(a + "\n" + b, pattern, i) <==> HasAt(a, pattern, i) || HasAt(b, pattern, i - |a| - 1)
    {
      AcrossNewline(a, b, pattern, i);
    }
    ContainsIff(a + "\n" + b, pattern);
    ContainsIff(a, pattern);
    ContainsIff(b, pattern);
    if j :| HasAt(b, pattern, j) {
      assert HasAt(a + "\n" + b, pattern, j + |a| + 1) by {
        AcrossNewline(a, b, pattern, j + |a| + 1);
      }
    }
  }

  lemma AcrossNewline(a: string, b: string, pattern: string, i: int)
    requires pattern != [] && '\n' !in pattern
    ensures HasAt(a + "\n" + b, pattern, i) <==> HasAt(a, pattern, i) || HasAt(b, pattern, i - |a| - 1)
  {
    var s := a + "\n" + b;
    if 0 <= i && i + |pattern| <= |a| {
      HasAtWithin([], a, "\n" + b, pattern, i);
      assert [] + a + ("\n" + b) == s;
    } else if |a| < i && i + |pattern| <= |s| {
      HasAtWithin(a + "\n", b, [], pattern, i);
      assert (a + "\n") + b + [] == s;
    } else if 0 <= i && i + |pattern| <= |s| {
      assert s[i..i + |pattern|][|a| - i] == '\n';
    }
  }

  /** The lines up to the brace that closes the block opened by `line`. */
  method TakeBlock(line: string, lines: seq<string>) returns (block: seq<string>, rest: seq<string>)
    ensures block == [line] + SplitBlock(lines, Delta(line)).0
    ensures rest == SplitBlock(lines, Delta(line)).1
  {
    block, rest := [line], lines;
    var depth := Delta(line);
    ghost var want := SplitBlock(lines, depth);
    while depth > 0 && rest != []
      invariant SplitBlock(rest, depth).1 == want.1
      invariant block + SplitBlock(rest, depth).0 == [line] + want.0
      decreases |rest|
    {
      ghost var after := SplitBlock(rest[1..], depth + Delta(rest[0]));
      assert block + ([rest[0]] + after.0) == block + [rest[0]] + after.0;
      depth := depth + Delta(rest[0]);
      block := block + [rest[0]];
      rest := rest[1..];
    }
    assert SplitBlock(rest, depth).0 == [];
  }

  method CollapseBlankLines(text: string) returns (result: string)
    ensures result == Collapse(text)
  {
    result := text;
    while Contains(result, "\n\n\n")
      invariant Collapse(result) == Collapse(text)
      decreases |result|
    {
      ReplaceShortens(result);
      result := ReplaceTriple(result);
    }
  }

  lemma RemovedStep(ls: seq<string>, pattern: string)
    requires ls != [] && !StartsSchemaBlock(ls[0])
    ensures Unlines(RemoveLines(ls, pattern)) == ls[0] + "\n" + Unlines(RemoveLines(ls[1..], pattern))
  {
    UnlinesConcat([ls[0]], RemoveLines(ls[1..], pattern));
    assert [ls[0]][1..] == [];
    assert Unlines([ls[0]]) == ls[0] + "\n" + [];
  }

  lemma RemovedBlock(ls: seq<string>, pattern: string)
    requires ls != [] && StartsSchemaBlock(ls[0])
    requires pattern != [] && '\n' !in pattern
    ensures var (block, rest) := SplitBlock(ls[1..], Delta(ls[0]));
      var text := Join([ls[0]] + block, "\n");
      Unlines(RemoveLines(ls, pattern))
      == (if Contains(text, pattern) then "" else text + "\n") + Unlines(RemoveLines(rest, pattern))
  {
    var (block, rest) := SplitBlock(ls[1..], Delta(ls[0]));
    var all := [ls[0]] + block;
    JoinContains(all, pattern);
    UnlinesJoin(all);
    UnlinesConcat(if Mentions(all, pattern) then [] else all, RemoveLines(rest, pattern));
  }

  /** The editor: blocks are kept or dropped whole, every other line is kept. */
  method RemoveBlocks(content: string, entityName: string) returns (result: string)
    requires '\n' !in entityName
    ensures result == RemoveSchemaBlock(content, entityName)
  {
    result := "";
    var pattern := entityName + " {";
    var lines := Lines(content);
    ghost var want := Unlines(RemoveLines(lines, pattern));
    while lines != []
      invariant result + Unlines(RemoveLines(lines, pattern)) == want
      decreases |lines|
    {
      var line := lines[0];
      if StartsSchemaBlock(line) {
        RemovedBlock(lines, pattern);
        var block, rest := TakeBlock(line, lines[1..]);
        var text := Join(block, "\n");
        if !Contains(text, pattern) {
          Assoc(result, text + "\n", Unlines(RemoveLines(rest, pattern)));
          result := result + (text + "\n");
        } else {
          Assoc(result, "", Unlines(RemoveLines(rest, pattern)));
          assert result + "" == result;
        }
        lines := rest;
      } else {
        RemovedStep(lines, pattern);
        Assoc(result, line + "\n", Unlines(RemoveLines(lines[1..], pattern)));
        result := result + (line + "\n");
        lines := lines[1..];
      }
    }
    assert result + Unlines([]) == result;
    result := CollapseBlankLines(result);
  }

  /** `src/entity.rs`, absent until the first write. */
  class EntityFile {
    var content: Option<string>

    constructor (content: Option<string>)
      ensures this.content == content
    {
      this.content := content;
    }

    method Update(spec: EntitySpec, force: bool)
      requires '\n' !in spec.pascal
      modifies this
      ensures content == Some(UpdatedContent(old(content), spec, force))
    {
      var block := GenerateSchemaBlock(spec);
      if content.Some? {
        var text := content.value;
        if force {
          text := RemoveBlocks(text, spec.pascal);
        }
        var needsImport := !Contains(text, "use rapina::prelude::*") && !Contains(text, "use rapina::schema");
        var prefix := if needsImport then "use rapina::schema;\n" else "";
        content := Some(prefix + TrimEnd(text) + block);
      } else {
        content := Some("use rapina::prelude::*;\n" + block);
      }
    }
  }
}
