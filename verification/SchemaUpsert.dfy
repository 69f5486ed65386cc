/** The promises of the `schema!` tools over whole files and over runs of updates. */
module SchemaUpsert {
  import opened Wrappers
  import opened Text
  import opened CoreLines
  import opened SchemaSource
  import opened SchemaCodegen
  import opened SchemaCore
  import opened SchemaChunks
  import opened SchemaFiles
  import opened SchemaRoundTrip

  // ---------------------------------------------------------------- files of printed blocks

  lemma WellFormedAppend(chunks: seq<Chunk>, c: Chunk)
    requires AllWellFormed(chunks) && WellFormed(c)
    ensures AllWellFormed(chunks + [c])
  {
  }

  lemma AppendText(text: string, chunks: seq<Chunk>, block: string, c: Chunk)
    requires IsFile(text, chunks) && WellFormed(c)
    requires block != [] && block[0] == '\n' && Core(block) == c.lines
    ensures IsFile(text + block, chunks + [c])
  {
    WellFormedAppend(chunks, c);
    CoreGlue(text, block);
    OneChunk(c);
    FlattenConcat(chunks, [c]);
  }

  predicate RoundTrips(spec: EntitySpec) {
    ValidSpec(spec) && spec.primaryKey != Some([])
  }

  lemma PrintedChunk(spec: EntitySpec)
    requires ValidSpec(spec)
    ensures WellFormed(ChunkOf(spec)) && EntitiesIn(ChunkOf(spec).lines) == [EntityOf(EntryOf(spec))]
  {
    PrintedEntry(spec);
    EntriesBlock([EntryOf(spec)], spec.pascal);
    OneEntity(EntryOf(spec));
  }

  lemma OneEntity(e: Entry)
    ensures EntitiesOf([e]) == [EntityOf(e)]
  {
    assert [e][0] == e && [e][1..] == [];
    assert [EntityOf(e)] + EntitiesOf([]) == [EntityOf(e)];
  }

  /** The editor takes a printed block out for a suffix of its name. */
  lemma PrintedDrops(spec: EntitySpec, name: string)
    requires ValidSpec(spec)
    ensures Drops(ChunkOf(spec), name) <==> InHead(name) || EndsWith(spec.pascal, name)
  {
    var e := EntryOf(spec);
    PrintedEntry(spec);
    EntriesBlock([e], name);
    assert [e][0] == e;
    assert SomeEnds([e], name) <==> EndsWith(e.name, name);
  }

  /** A printed block starts with a newline, so it never joins the text before it. */
  lemma AppendBlock(text: string, chunks: seq<Chunk>, spec: EntitySpec)
    requires IsFile(text, chunks) && ValidSpec(spec)
    ensures IsFile(text + GenerateSchemaBlock(spec), chunks + [ChunkOf(spec)])
    ensures Entities(chunks + [ChunkOf(spec)]) == Entities(chunks) + [EntityOf(EntryOf(spec))]
  {
    PrintedCore(spec);
    PrintedChunk(spec);
    AppendText(text, chunks, GenerateSchemaBlock(spec), ChunkOf(spec));
    OneChunk(ChunkOf(spec));
    EntitiesConcat(chunks, [ChunkOf(spec)]);
  }

  predicate NoBlockLine(lines: seq<string>) {
    forall i :: 0 <= i < |lines| ==> !StartsWith(lines[i], "schema!")
  }

  predicate AllCore(lines: seq<string>) {
    forall i :: 0 <= i < |lines| ==> CoreLine(lines[i])
  }

  lemma StartsOpens(line: string)
    requires CoreLine(line) && StartsSchemaBlock(line)
    ensures StartsWith(line, "schema!")
  {
    LineStarts(line);
    assert line[0..7] == line[..9][..7];
    assert "schema! {"[..7] == "schema!";
  }

  lemma OtherLine(line: string)
    requires CoreLine(line) && !StartsWith(line, "schema!")
    ensures !OpensBlock(line) && !StartsSchemaBlock(line)
  {
    TrimTight(line);
    if StartsSchemaBlock(line) {
      StartsOpens(line);
    }
  }

  lemma {:induction false} OtherLines(lines: seq<string>)
    requires NoBlockLine(lines) && AllCore(lines)
    ensures WellFormed(Stretch(lines)) && EntitiesIn(lines) == []
  {
    if lines != [] {
      OtherLine(lines[0]);
      assert NoBlockLine(lines[1..]) && AllCore(lines[1..]);
      OtherLines(lines[1..]);
    }
  }

  /** Any text without a line that opens a block is a stretch with no entities. */
  lemma HeaderFile(header: string)
    requires NoBlockLine(Core(header))
    ensures IsFile(header, [Stretch(Core(header))]) && Entities([Stretch(Core(header))]) == []
  {
    LinesNoNewline(header);
    CoreOfShape(Lines(header));
    OtherLines(Core(header));
    OneChunk(Stretch(Core(header)));
  }

  function PrintAll(specs: seq<EntitySpec>): string {
    if specs == [] then "" else PrintAll(specs[..|specs| - 1]) + GenerateSchemaBlock(specs[|specs| - 1])
  }

  predicate AllRoundTrip(specs: seq<EntitySpec>) {
    forall i :: 0 <= i < |specs| ==> RoundTrips(specs[i])
  }

  function ParsedAll(specs: seq<EntitySpec>): seq<ParsedEntity> {
    if specs == [] then [] else ParsedAll(specs[..|specs| - 1]) + [ParsedOf(specs[|specs| - 1])]
  }

  function Printed(specs: seq<EntitySpec>): seq<Chunk> {
    if specs == [] then [] else Printed(specs[..|specs| - 1]) + [ChunkOf(specs[|specs| - 1])]
  }

  lemma {:induction false} PrintedEntities(specs: seq<EntitySpec>)
    requires AllRoundTrip(specs)
    ensures Entities(Printed(specs)) == ParsedAll(specs)
  {
    if specs != [] {
      var init, last := specs[..|specs| - 1], specs[|specs| - 1];
      assert RoundTrips(last) && AllRoundTrip(init);
      PrintedEntities(init);
      PrintedChunk(last);
      PrintedEntity(last);
      OneChunk(ChunkOf(last));
      EntitiesConcat(Printed(init), [ChunkOf(last)]);
    }
  }

  lemma {:induction false} PrintedFile(header: string, chunks: seq<Chunk>, specs: seq<EntitySpec>)
    requires IsFile(header, chunks) && AllRoundTrip(specs)
    ensures IsFile(header + PrintAll(specs), chunks + Printed(specs))
  {
    if specs == [] {
      assert header + PrintAll(specs) == header && chunks + Printed(specs) == chunks;
    } else {
      var init, last := specs[..|specs| - 1], specs[|specs| - 1];
      assert RoundTrips(last) && AllRoundTrip(init);
      PrintedFile(header, chunks, init);
      Assoc(header, PrintAll(init), GenerateSchemaBlock(last));
      Assoc(chunks, Printed(init), [ChunkOf(last)]);
      AppendBlock(header + PrintAll(init), chunks + Printed(init), last);
    }
  }

  /** ROUND TRIP. A header followed by any number of printed blocks parses to exactly the printed
      entities, in order, with every field, key list and timestamp flag. */
  lemma PrintedFileParses(header: string, specs: seq<EntitySpec>)
    requires NoBlockLine(Core(header)) && specs != [] && AllRoundTrip(specs)
    ensures ParseSchemaContent(header + PrintAll(specs)) == Ok(ParsedAll(specs))
  {
    var front := [Stretch(Core(header))];
    HeaderFile(header);
    PrintedFile(header, front, specs);
    PrintedEntities(specs);
    EntitiesConcat(front, Printed(specs));
    assert [] + ParsedAll(specs) == ParsedAll(specs);
    ParseFile(header + PrintAll(specs), front + Printed(specs));
  }

  /** A single block comes back exactly when it does not carry an empty column list. */
  lemma RoundTripExactly(spec: EntitySpec)
    requires ValidSpec(spec)
    ensures ParseSchemaContent(GenerateSchemaBlock(spec)) == Ok([ParsedOf(spec)]) <==> spec.primaryKey != Some([])
  {
    BlockParsesAs(spec);
    PrintedEntity(spec);
    SameEntity(EntityOf(EntryOf(spec)), ParsedOf(spec));
  }

  lemma OneChunkParses(text: string, c: Chunk, es: seq<ParsedEntity>)
    requires WellFormed(c) && Core(text) == c.lines && EntitiesIn(c.lines) == es != []
    ensures ParseSchemaContent(text) == Ok(es)
  {
    OneChunk(c);
    ParseFile(text, [c]);
  }

  lemma BlockParsesAs(spec: EntitySpec)
    requires ValidSpec(spec)
    ensures ParseSchemaContent(GenerateSchemaBlock(spec)) == Ok([EntityOf(EntryOf(spec))])
  {
    PrintedCore(spec);
    PrintedChunk(spec);
    OneChunkParses(GenerateSchemaBlock(spec), ChunkOf(spec), [EntityOf(EntryOf(spec))]);
  }

  lemma SameEntity(a: ParsedEntity, b: ParsedEntity)
    ensures [a] == [b] <==> a == b
  {
    assert [a][0] == a && [b][0] == b;
  }

  // ---------------------------------------------------------------- forced updates

  /** What an upsert should keep. */
  function OthersThan(es: seq<ParsedEntity>, name: string): seq<ParsedEntity> {
    if es == [] then []
    else (if es[0].name == name then [] else [es[0]]) + OthersThan(es[1..], name)
  }

  lemma SchemaImport()
    ensures CoreLine("use rapina::schema;") && !StartsWith("use rapina::schema;", "schema!")
    ensures "use rapina::schema;\n" == "use rapina::schema;" + "\n"
  {
  }

  lemma PreludeImport()
    ensures CoreLine("use rapina::prelude::*;") && !StartsWith("use rapina::prelude::*;", "schema!")
    ensures "use rapina::prelude::*;\n" == "use rapina::prelude::*;" + "\n"
  {
  }

  lemma LineInFront(line: string, rest: string, chunks: seq<Chunk>)
    requires IsFile(rest, chunks) && CoreLine(line) && !StartsWith(line, "schema!")
    ensures IsFile(line + "\n" + rest, [Stretch([line])] + chunks)
    ensures EntitiesIn([line]) == [] && Entities([Stretch([line])] + chunks) == Entities(chunks)
  {
    CoreConcat(line, rest);
    LineCore(line);
    OtherLines([line]);
    OneChunk(Stretch([line]));
    FlattenConcat([Stretch([line])], chunks);
    EntitiesConcat([Stretch([line])], chunks);
    assert [] + Entities(chunks) == Entities(chunks);
  }

  /** The chunks that hold entities. */
  function Carriers(chunks: seq<Chunk>): seq<Chunk> {
    if chunks == [] then []
    else (if EntitiesIn(chunks[0].lines) == [] then [] else [chunks[0]]) + Carriers(chunks[1..])
  }

  lemma {:induction false} CarriersConcat(a: seq<Chunk>, b: seq<Chunk>)
    ensures Carriers(a + b) == Carriers(a) + Carriers(b)
  {
    if a == [] {
      assert a + b == b;
    } else {
      assert (a + b)[1..] == a[1..] + b;
      CarriersConcat(a[1..], b);
      Assoc(if EntitiesIn(a[0].lines) == [] then [] else [a[0]], Carriers(a[1..]), Carriers(b));
    }
  }

  lemma CarriersOne(c: Chunk)
    ensures Carriers([c]) == if EntitiesIn(c.lines) == [] then [] else [c]
  {
    assert [c][1..] == [];
    assert Carriers([c]) == (if EntitiesIn(c.lines) == [] then [] else [c]) + Carriers([]);
  }

  lemma {:induction false} CarriersEntities(chunks: seq<Chunk>)
    ensures Entities(Carriers(chunks)) == Entities(chunks)
  {
    if chunks != [] {
      var c := chunks[0];
      CarriersEntities(chunks[1..]);
      OneChunk(c);
      EntitiesConcat(if EntitiesIn(c.lines) == [] then [] else [c], Carriers(chunks[1..]));
    }
  }

  lemma {:induction false} CarriersWithout(chunks: seq<Chunk>, name: string)
    ensures Carriers(Without(chunks, name)) == Without(Carriers(chunks), name)
  {
    if chunks != [] {
      var c := chunks[0];
      CarriersWithout(chunks[1..], name);
      CarriersOne(c);
      WithoutOne(c, name);
      CarriersConcat(if Drops(c, name) then [] else [c], Without(chunks[1..], name));
      WithoutConcat(if EntitiesIn(c.lines) == [] then [] else [c], Carriers(chunks[1..]), name);
    }
  }

  /** What an update makes of the chunks that hold entities. */
  function Updated(chunks: seq<Chunk>, spec: EntitySpec, force: bool): seq<Chunk> {
    (if force then Without(chunks, spec.pascal) else chunks) + [ChunkOf(spec)]
  }

  /** The chunks of the updated file: the edited old ones, perhaps an import line, the new block. */
  lemma UpdateFile(text: string, chunks: seq<Chunk>, spec: EntitySpec, force: bool) returns (after: seq<Chunk>)
    requires IsFile(text, chunks) && ValidSpec(spec)
    ensures IsFile(UpdatedContent(Some(text), spec, force), after)
    ensures Carriers(after) == Updated(Carriers(chunks), spec, force)
  {
    var kept := if force then RemoveSchemaBlock(text, spec.pascal) else text;
    after := chunks;
    if force {
      EditFile(text, chunks, spec.pascal);
      CarriersWithout(chunks, spec.pascal);
      after := Without(chunks, spec.pascal);
    }
    CoreTrimEnd(kept);
    var front := TrimEnd(kept);
    ghost var held := Carriers(after);
    if !(Contains(kept, "use rapina::prelude::*") || Contains(kept, "use rapina::schema")) {
      SchemaImport();
      LineInFront("use rapina::schema;", front, after);
      ImportHoldsNothing("use rapina::schema;", after);
      front, after := "use rapina::schema;\n" + front, [Stretch(["use rapina::schema;"])] + after;
    } else {
      assert "" + front == front;
    }
    AppendBlock(front, after, spec);
    PrintedChunk(spec);
    CarriersOne(ChunkOf(spec));
    CarriersConcat(after, [ChunkOf(spec)]);
    after := after + [ChunkOf(spec)];
  }

  lemma ImportHoldsNothing(line: string, chunks: seq<Chunk>)
    requires EntitiesIn([line]) == []
    ensures Carriers([Stretch([line])] + chunks) == Carriers(chunks)
  {
    CarriersOne(Stretch([line]));
    CarriersConcat([Stretch([line])], chunks);
    assert [] + Carriers(chunks) == Carriers(chunks);
  }

  lemma UpdatedEntities(chunks: seq<Chunk>, spec: EntitySpec, force: bool)
    requires RoundTrips(spec)
    ensures Entities(Updated(Carriers(chunks), spec, force))
         == Entities(if force then Without(chunks, spec.pascal) else chunks) + [ParsedOf(spec)]
  {
    PrintedChunk(spec);
    PrintedEntity(spec);
    OneChunk(ChunkOf(spec));
    CarriersWithout(chunks, spec.pascal);
    CarriersEntities(chunks);
    CarriersEntities(Without(chunks, spec.pascal));
    EntitiesConcat(if force then Without(Carriers(chunks), spec.pascal) else Carriers(chunks), [ChunkOf(spec)]);
  }

  /** UPSERT, in general: a forced update of any file takes out the blocks that mention the new name,
      keeps every other entity in order and puts the new one last. */
  lemma ForcedUpdate(text: string, chunks: seq<Chunk>, spec: EntitySpec)
    requires IsFile(text, chunks) && RoundTrips(spec)
    ensures ParseSchemaContent(UpdatedContent(Some(text), spec, true))
         == Ok(Entities(Without(chunks, spec.pascal)) + [ParsedOf(spec)])
  {
    var after := UpdateFile(text, chunks, spec, true);
    ParseFile(UpdatedContent(Some(text), spec, true), after);
    CarriersEntities(after);
    UpdatedEntities(chunks, spec, true);
  }

  // ---------------------------------------------------------------- files that are refused

  /** A text without a line that opens a block is refused for that. */
  lemma NoBlocksRefused(text: string)
    requires NoBlockLine(Core(text))
    ensures ParseSchemaContent(text) == Err("No schema! blocks found in src/entity.rs")
  {
    HeaderFile(text);
    ParseFile(text, [Stretch(Core(text))]);
  }

  lemma {:induction false} EntriesUnclosed(es: seq<Entry>)
    requires AllEntries(es)
    ensures Inside(EntriesLines(es)) == Err("Unexpected end of schema! block")
  {
    if es != [] {
      EntryParses(es[0], EntriesLines(es[1..]));
      EntriesUnclosed(es[1..]);
    }
  }

  /** A text that ends inside of a block is refused for that, however many entities were read before. */
  lemma UnclosedRefused(text: string, chunks: seq<Chunk>, es: seq<Entry>)
    requires AllWellFormed(chunks) && AllEntries(es)
    requires Core(text) == Flatten(chunks) + (["schema! {"] + EntriesLines(es))
    ensures ParseSchemaContent(text) == Err("Unexpected end of schema! block")
  {
    OutsideCore(Lines(text));
    HeadOpens();
    HeadThen("schema! {", EntriesLines(es));
    EntriesUnclosed(es);
    FlattenThen(chunks, ["schema! {"] + EntriesLines(es));
  }

  lemma {:induction false} FlattenThen(chunks: seq<Chunk>, rest: seq<string>)
    requires AllWellFormed(chunks)
    ensures Outside(Flatten(chunks) + rest) == Prepend(Entities(chunks), Outside(rest))
  {
    if chunks == [] {
      assert Flatten(chunks) + rest == rest;
      PrependNil(Outside(rest));
    } else {
      assert WellFormed(chunks[0]) && AllWellFormed(chunks[1..]);
      FlattenThen(chunks[1..], rest);
      Assoc(chunks[0].lines, Flatten(chunks[1..]), rest);
      OutsideThen(chunks[0].lines, Flatten(chunks[1..]) + rest);
      PrependConcat(EntitiesIn(chunks[0].lines), Entities(chunks[1..]), Outside(rest));
    }
  }

  // ---------------------------------------------------------------- the import line

  lemma ContainsFront(a: string, b: string, p: string)
    requires Contains(a, p)
    ensures Contains(a + b, p)
  {
    var i := Find(a, p).value;
    assert (a + b)[i..i + |p|] == a[i..i + |p|];
    ContainsIff(a + b, p);
    assert HasAt(a + b, p, i);
  }

  /** A text that does not end in white space is not lost with the white space after it. */
  lemma ContainsTrimmed(s: string, p: string)
    requires Contains(s, p) && p != [] && !IsSpace(p[|p| - 1])
    ensures Contains(TrimEnd(s), p)
  {
    var i := Find(s, p).value;
    var after := TrimEndShape(s);
    var k := i + |p| - 1;
    assert s[k] == s[i..i + |p|][|p| - 1];
    assert forall j :: |TrimEnd(s)| <= j < |s| ==> s[j] == after[j - |TrimEnd(s)|] && IsSpace(s[j]);
    assert TrimEnd(s)[i..i + |p|] == s[i..i + |p|];
    assert HasAt(TrimEnd(s), p, i);
    ContainsIff(TrimEnd(s), p);
  }

  lemma StartsItself(a: string, b: string)
    ensures StartsWith(a + b, a) && Contains(a + b, a)
  {
    assert (a + b)[0..|a|] == a;
    assert HasAt(a + b, a, 0);
    ContainsIff(a + b, a);
  }

  lemma ImportNames()
    ensures "use rapina::schema;\n" == "use rapina::schema" + ";\n"
    ensures "use rapina::prelude::*;\n" == "use rapina::prelude::*" + ";\n"
    ensures !IsSpace("use rapina::prelude::*"[|"use rapina::prelude::*"| - 1])
    ensures !IsSpace("use rapina::schema"[|"use rapina::schema"| - 1])
  {
  }

  /** After every update the file has an import of the macro. One it has is kept and not added to; one it
      has not is put in front of everything else. */
  lemma ImportOnce(file: Option<string>, spec: EntitySpec, force: bool)
    ensures var after := UpdatedContent(file, spec, force);
      && (Contains(after, "use rapina::prelude::*") || Contains(after, "use rapina::schema"))
      && match file
         case None => StartsWith(after, "use rapina::prelude::*;\n")
         case Some(text) =>
           var kept := if force then RemoveSchemaBlock(text, spec.pascal) else text;
           if Contains(kept, "use rapina::prelude::*") || Contains(kept, "use rapina::schema")
           then StartsWith(after, TrimEnd(kept))
           else StartsWith(after, "use rapina::schema;\n" + TrimEnd(kept))
  {
    ImportNames();
    match file {
      case None =>
        Added("use rapina::prelude::*", ";\n", GenerateSchemaBlock(spec));
      case Some(text) =>
        var kept := if force then RemoveSchemaBlock(text, spec.pascal) else text;
        ImportCases(kept, "use rapina::prelude::*", "use rapina::schema", "use rapina::schema;\n",
                    GenerateSchemaBlock(spec), UpdatedContent(file, spec, force));
    }
  }

  lemma ImportCases(kept: string, prelude: string, schema: string, line: string, block: string, after: string)
    requires prelude != [] && !IsSpace(prelude[|prelude| - 1]) && schema != [] && !IsSpace(schema[|schema| - 1])
    requires line == schema + ";\n"
    requires after
          == (if Contains(kept, prelude) || Contains(kept, schema) then "" else line) + TrimEnd(kept) + block
    ensures Contains(after, prelude) || Contains(after, schema)
    ensures if Contains(kept, prelude) || Contains(kept, schema) then StartsWith(after, TrimEnd(kept))
            else StartsWith(after, line + TrimEnd(kept))
  {
    if Contains(kept, prelude) {
      Kept(kept, prelude, block);
    } else if Contains(kept, schema) {
      Kept(kept, schema, block);
    } else {
      Added(schema, ";\n" + TrimEnd(kept), block);
      Assoc(schema, ";\n", TrimEnd(kept));
    }
  }

  lemma Kept(kept: string, name: string, block: string)
    requires Contains(kept, name) && name != [] && !IsSpace(name[|name| - 1])
    ensures Contains("" + TrimEnd(kept) + block, name) && StartsWith("" + TrimEnd(kept) + block, TrimEnd(kept))
  {
    assert "" + TrimEnd(kept) == TrimEnd(kept);
    ContainsTrimmed(kept, name);
    ContainsFront(TrimEnd(kept), block, name);
    StartsItself(TrimEnd(kept), block);
  }

  lemma Added(name: string, end: string, block: string)
    ensures Contains(name + end + block, name) && StartsWith(name + end + block, name + end)
  {
    StartsItself(name, end);
    ContainsFront(name + end, block, name);
    StartsItself(name + end, block);
  }

  // ---------------------------------------------------------------- when it is an upsert

  predicate AllNamed(es: seq<ParsedEntity>, name: string) {
    forall i :: 0 <= i < |es| ==> es[i].name == name
  }

  predicate NoneNamed(es: seq<ParsedEntity>, name: string) {
    forall i :: 0 <= i < |es| ==> es[i].name != name
  }

  predicate KeptNone(chunks: seq<Chunk>, name: string) {
    forall i :: 0 <= i < |chunks| && !Drops(chunks[i], name) ==> NoneNamed(EntitiesIn(chunks[i].lines), name)
  }

  predicate DroppedAll(chunks: seq<Chunk>, name: string) {
    forall i :: 0 <= i < |chunks| && Drops(chunks[i], name) ==> AllNamed(EntitiesIn(chunks[i].lines), name)
  }

  lemma EndsWithItself(name: string)
    ensures EndsWith(name, name)
  {
    assert name[0..|name|] == name;
  }

  lemma {:induction false} OthersConcat(a: seq<ParsedEntity>, b: seq<ParsedEntity>, name: string)
    ensures OthersThan(a + b, name) == OthersThan(a, name) + OthersThan(b, name)
  {
    if a == [] {
      assert a + b == b;
    } else {
      assert (a + b)[1..] == a[1..] + b;
      OthersConcat(a[1..], b, name);
      Assoc(if a[0].name == name then [] else [a[0]], OthersThan(a[1..], name), OthersThan(b, name));
    }
  }

  /** Nothing is left of entities exactly when all have the name, and everything when none has. */
  lemma {:induction false} OthersOf(es: seq<ParsedEntity>, name: string)
    ensures OthersThan(es, name) == [] <==> AllNamed(es, name)
    ensures NoneNamed(es, name) ==> OthersThan(es, name) == es
    ensures NoneNamed(OthersThan(es, name), name)
  {
    if es != [] {
      OthersOf(es[1..], name);
      assert forall i :: 0 < i < |es| ==> es[i] == es[1..][i - 1];
      assert forall i :: 0 <= i < |es[1..]| ==> es[1..][i] == es[i + 1];
      assert es == [es[0]] + es[1..];
    }
  }

  lemma SameBack(a: seq<ParsedEntity>, b: seq<ParsedEntity>, back: seq<ParsedEntity>)
    ensures a + back == b + back <==> a == b
  {
    if a + back == b + back {
      assert |a| == |b|;
      assert a == (a + back)[..|a|] == (b + back)[..|b|] == b;
    }
  }

  lemma ConditionsCons(chunks: seq<Chunk>, name: string)
    requires chunks != []
    ensures var es := EntitiesIn(chunks[0].lines);
      && (KeptNone(chunks, name)
          <==> (!Drops(chunks[0], name) ==> NoneNamed(es, name)) && KeptNone(chunks[1..], name))
      && (DroppedAll(chunks, name)
          <==> (Drops(chunks[0], name) ==> AllNamed(es, name)) && DroppedAll(chunks[1..], name))
  {
    assert forall i :: 0 < i < |chunks| ==> chunks[i] == chunks[1..][i - 1];
    assert forall i :: 0 <= i < |chunks[1..]| ==> chunks[1..][i] == chunks[i + 1];
  }

  /** If what is kept has none of the name, no kept chunk has. */
  lemma {:induction false} KeptChunks(chunks: seq<Chunk>, name: string)
    requires NoneNamed(Entities(Without(chunks, name)), name)
    ensures KeptNone(chunks, name)
  {
    if chunks != [] {
      var c, more := chunks[0], Without(chunks[1..], name);
      OneChunk(c);
      EntitiesConcat(if Drops(c, name) then [] else [c], more);
      NoneParts(Entities(if Drops(c, name) then [] else [c]), Entities(more), name);
      KeptChunks(chunks[1..], name);
      ConditionsCons(chunks, name);
    }
  }

  lemma NoneParts(a: seq<ParsedEntity>, b: seq<ParsedEntity>, name: string)
    requires NoneNamed(a + b, name)
    ensures NoneNamed(a, name) && NoneNamed(b, name)
  {
    assert forall i :: 0 <= i < |a| ==> (a + b)[i] == a[i];
    assert forall i :: 0 <= i < |b| ==> (a + b)[|a| + i] == b[i];
  }

  lemma {:induction false} DropIsOthers(chunks: seq<Chunk>, name: string)
    requires KeptNone(chunks, name)
    ensures |Entities(Without(chunks, name))| <= |OthersThan(Entities(chunks), name)|
    ensures Entities(Without(chunks, name)) == OthersThan(Entities(chunks), name) <==> DroppedAll(chunks, name)
  {
    if chunks != [] {
      var c, more, rest := chunks[0], Without(chunks[1..], name), Entities(chunks[1..]);
      var es := EntitiesIn(c.lines);
      ConditionsCons(chunks, name);
      DropIsOthers(chunks[1..], name);
      OthersConcat(es, rest, name);
      OthersOf(es, name);
      OneChunk(c);
      EntitiesConcat(if Drops(c, name) then [] else [c], more);
      DropStep(Drops(c, name), es, OthersThan(es, name), Entities(more), OthersThan(rest, name));
    }
  }

  lemma DropStep(drops: bool, es: seq<ParsedEntity>, others: seq<ParsedEntity>, a: seq<ParsedEntity>,
                 b: seq<ParsedEntity>)
    requires |a| <= |b| && (!drops ==> others == es)
    ensures |(if drops then [] else es) + a| <= |others + b|
    ensures (if drops then [] else es) + a == others + b <==> a == b && (drops ==> others == [])
  {
    if drops {
      assert [] + a == a;
      assert others == [] ==> others + b == b;
    } else {
      SameAfter(es, a, b);
    }
  }

  /** The update is a true upsert exactly when every block it takes out holds nothing but entities of
      the name and nothing it leaves holds any: the editor looks for `Name {` in blocks that open with
      `schema! {`, and takes the whole block out. */
  lemma UpsertExactly(text: string, chunks: seq<Chunk>, spec: EntitySpec)
    requires IsFile(text, chunks) && RoundTrips(spec)
    ensures ParseSchemaContent(UpdatedContent(Some(text), spec, true))
         == Ok(OthersThan(Entities(chunks), spec.pascal) + [ParsedOf(spec)])
       <==> DroppedAll(chunks, spec.pascal) && KeptNone(chunks, spec.pascal)
  {
    var n := spec.pascal;
    var kept, others := Entities(Without(chunks, n)), OthersThan(Entities(chunks), n);
    ForcedUpdate(text, chunks, spec);
    SameBack(kept, others, [ParsedOf(spec)]);
    OthersOf(Entities(chunks), n);
    if kept == others {
      KeptChunks(chunks, n);
    }
    if KeptNone(chunks, n) {
      DropIsOthers(chunks, n);
    }
  }

  /** An update of `User` loses a `SuperUser`, and a `Post` that shares its block with a `User`. */
  lemma UserTakesOthers(text: string, names: seq<string>, spec: EntitySpec)
    requires names == ["SuperUser"] || names == ["Post", "User"]
    requires IsFile(text, [Block(BlockLines(Bare(names)))])
    requires RoundTrips(spec) && spec.pascal == "User"
    ensures ParseSchemaContent(UpdatedContent(Some(text), spec, true)) == Ok([ParsedOf(spec)])
  {
    var c := Block(BlockLines(Bare(names)));
    ForcedUpdate(text, [c], spec);
    LastEnds(names, "User");
    BareNames(names);
    EntriesBlock(Bare(names), "User");
    WithoutOne(c, "User");
    assert Entities([]) + [ParsedOf(spec)] == [ParsedOf(spec)];
  }

  /** A block that opens with `schema!{` stays whatever entities it holds, of the new name too: then the
      file has two of that name. */
  lemma TightBlockStays(text: string, es: seq<Entry>, spec: EntitySpec)
    requires AllEntries(es) && NoneNamedHead(es)
    requires IsFile(text, [Stretch(TightLines(es))]) && RoundTrips(spec)
    ensures ParseSchemaContent(UpdatedContent(Some(text), spec, true)) == Ok(EntitiesOf(es) + [ParsedOf(spec)])
  {
    var c := Stretch(TightLines(es));
    ForcedUpdate(text, [c], spec);
    TightBlock(es, spec.pascal);
    WithoutOne(c, spec.pascal);
    OneChunk(c);
  }

  lemma BareNames(names: seq<string>)
    requires names == ["SuperUser"] || names == ["Post", "User"]
    ensures AllEntries(Bare(names))
  {
    BareName("SuperUser");
    BareName("Post");
    BareName("User");
  }

  lemma BareName(name: string)
    requires name == "SuperUser" || name == "Post" || name == "User"
    ensures NameText(name)
  {
    assert |name| >= 2 && name[0..2][0] == name[0];
  }

  /** Entities that are only names. */
  function Bare(names: seq<string>): (r: seq<Entry>)
    ensures |r| == |names|
    ensures forall i :: 0 <= i < |r| ==> r[i] == Entry([], names[i], [])
  {
    seq(|names|, i requires 0 <= i < |names| => Entry([], names[i], []))
  }

  lemma LastEnds(names: seq<string>, name: string)
    requires names == ["SuperUser"] || names == ["Post", "User"]
    requires name == "User"
    ensures SomeEnds(Bare(names), name)
  {
    var last := Bare(names)[|names| - 1].name;
    assert last[|last| - 4..|last|] == name;
    assert EndsWith(last, name);
  }

  /** Running the same forced update again changes nothing in the parse. */
  lemma UpdateTwice(text: string, chunks: seq<Chunk>, spec: EntitySpec)
    requires IsFile(text, chunks) && RoundTrips(spec)
    ensures var once := UpdatedContent(Some(text), spec, true);
      ParseSchemaContent(UpdatedContent(Some(once), spec, true)) == ParseSchemaContent(once)
  {
    var once := UpdatedContent(Some(text), spec, true);
    var after := UpdateFile(text, chunks, spec, true);
    ForcedUpdate(text, chunks, spec);
    ForcedUpdate(once, after, spec);
    UpdatedTwice(Carriers(chunks), spec);
    CarriersWithout(after, spec.pascal);
    CarriersWithout(chunks, spec.pascal);
    CarriersEntities(Without(after, spec.pascal));
    CarriersEntities(Without(chunks, spec.pascal));
  }

  lemma UpdatedTwice(chunks: seq<Chunk>, spec: EntitySpec)
    requires ValidSpec(spec)
    ensures Without(Updated(chunks, spec, true), spec.pascal) == Without(chunks, spec.pascal)
  {
    var n := spec.pascal;
    WithoutConcat(Without(chunks, n), [ChunkOf(spec)], n);
    WithoutAgain(chunks, n);
    WithoutOne(ChunkOf(spec), n);
    PrintedDrops(spec, n);
    EndsWithItself(n);
    assert Without(chunks, n) + [] == Without(chunks, n);
  }

  // ---------------------------------------------------------------- runs of updates

  /** No file yet, or a file in which exactly these chunks hold entities. */
  ghost predicate Holds(content: Option<string>, held: seq<Chunk>) {
    match content
    case None => held == []
    case Some(text) => exists chunks :: IsFile(text, chunks) && Carriers(chunks) == held
  }

  datatype Edit = Edit(spec: EntitySpec, force: bool)

  predicate AllEditsRoundTrip(edits: seq<Edit>) {
    forall i :: 0 <= i < |edits| ==> RoundTrips(edits[i].spec)
  }

  function RunEdits(content: Option<string>, edits: seq<Edit>): Option<string>
    decreases |edits|
  {
    if edits == [] then content
    else RunEdits(Some(UpdatedContent(content, edits[0].spec, edits[0].force)), edits[1..])
  }

  function RunChunks(held: seq<Chunk>, edits: seq<Edit>): seq<Chunk>
    decreases |edits|
  {
    if edits == [] then held else RunChunks(Updated(held, edits[0].spec, edits[0].force), edits[1..])
  }

  lemma FreshHolds(line: string, block: string, c: Chunk)
    requires CoreLine(line) && !StartsWith(line, "schema!")
    requires WellFormed(c) && block != [] && block[0] == '\n' && Core(block) == c.lines && EntitiesIn(c.lines) != []
    ensures Holds(Some(line + "\n" + block), [c])
  {
    assert IsFile([], []);
    LineInFront(line, [], []);
    assert line + "\n" + [] == line + "\n";
    assert [Stretch([line])] + [] == [Stretch([line])];
    AppendText(line + "\n", [Stretch([line])], block, c);
    OnlyLast(Stretch([line]), c);
  }

  lemma OnlyLast(a: Chunk, c: Chunk)
    requires EntitiesIn(a.lines) == [] && EntitiesIn(c.lines) != []
    ensures Carriers([a] + [c]) == [c]
  {
    CarriersOne(a);
    CarriersOne(c);
    CarriersConcat([a], [c]);
    assert [] + [c] == [c];
  }

  lemma FreshFile(spec: EntitySpec)
    requires RoundTrips(spec)
    ensures Holds(Some("use rapina::prelude::*;\n" + GenerateSchemaBlock(spec)), [ChunkOf(spec)])
  {
    PreludeImport();
    PrintedCore(spec);
    PrintedChunk(spec);
    FreshHolds("use rapina::prelude::*;", GenerateSchemaBlock(spec), ChunkOf(spec));
  }

  lemma EditHolds(content: Option<string>, held: seq<Chunk>, edit: Edit)
    requires Holds(content, held) && RoundTrips(edit.spec)
    ensures Holds(Some(UpdatedContent(content, edit.spec, edit.force)), Updated(held, edit.spec, edit.force))
  {
    if content.Some? {
      var chunks :| IsFile(content.value, chunks) && Carriers(chunks) == held;
      var after := UpdateFile(content.value, chunks, edit.spec, edit.force);
    } else {
      FreshFile(edit.spec);
      assert Updated([], edit.spec, edit.force) == [] + [ChunkOf(edit.spec)] == [ChunkOf(edit.spec)];
    }
  }

  /** Over every run of forced and unforced updates, from no file or from any file in which parser and
      editor agree on the blocks, the file holds exactly the blocks the updates describe. */
  lemma {:induction false} RunHolds(content: Option<string>, held: seq<Chunk>, edits: seq<Edit>)
    requires Holds(content, held) && AllEditsRoundTrip(edits)
    ensures Holds(RunEdits(content, edits), RunChunks(held, edits))
    decreases |edits|
  {
    if edits != [] {
      var e := edits[0];
      assert RoundTrips(e.spec) && AllEditsRoundTrip(edits[1..]);
      EditHolds(content, held, e);
      RunHolds(Some(UpdatedContent(content, e.spec, e.force)), Updated(held, e.spec, e.force), edits[1..]);
    }
  }

  function RunSpecs(specs: seq<EntitySpec>, edits: seq<Edit>): seq<EntitySpec>
    decreases |edits|
  {
    if edits == [] then specs else RunSpecs(UpdatedSpecs(specs, edits[0]), edits[1..])
  }

  function NotEnding(specs: seq<EntitySpec>, name: string): seq<EntitySpec> {
    if specs == [] then []
    else
      var last := specs[|specs| - 1];
      NotEnding(specs[..|specs| - 1], name)
      + if InHead(name) || EndsWith(last.pascal, name) then [] else [last]
  }

  lemma {:induction false} PrintedWithout(specs: seq<EntitySpec>, name: string)
    requires AllRoundTrip(specs)
    ensures Without(Printed(specs), name) == Printed(NotEnding(specs, name)) && AllRoundTrip(NotEnding(specs, name))
  {
    if specs != [] {
      var init, last := specs[..|specs| - 1], specs[|specs| - 1];
      assert RoundTrips(last) && AllRoundTrip(init);
      PrintedWithout(init, name);
      PrintedDrops(last, name);
      WithoutSnoc(Printed(init), ChunkOf(last), name);
      PrintedSnoc(NotEnding(init, name), last);
    }
  }

  lemma WithoutSnoc(chunks: seq<Chunk>, c: Chunk, name: string)
    ensures Without(chunks + [c], name) == Without(chunks, name) + if Drops(c, name) then [] else [c]
  {
    WithoutOne(c, name);
    WithoutConcat(chunks, [c], name);
  }

  lemma PrintedSnoc(specs: seq<EntitySpec>, spec: EntitySpec)
    ensures Printed(specs + [spec]) == Printed(specs) + [ChunkOf(spec)]
    ensures Printed(specs + []) == Printed(specs)
  {
    assert (specs + [spec])[..|specs|] == specs && specs + [] == specs;
  }

  /** What an update should make of a list of entities: a forced one takes out those whose name ends
      with the new name. */
  function UpdatedSpecs(specs: seq<EntitySpec>, edit: Edit): seq<EntitySpec> {
    (if edit.force then NotEnding(specs, edit.spec.pascal) else specs) + [edit.spec]
  }

  lemma UpdatedPrinted(specs: seq<EntitySpec>, edit: Edit)
    requires AllRoundTrip(specs) && RoundTrips(edit.spec)
    ensures Updated(Printed(specs), edit.spec, edit.force) == Printed(UpdatedSpecs(specs, edit))
    ensures AllRoundTrip(UpdatedSpecs(specs, edit))
  {
    if edit.force {
      PrintedWithout(specs, edit.spec.pascal);
      UpdatedSnoc(NotEnding(specs, edit.spec.pascal), edit.spec);
    } else {
      UpdatedSnoc(specs, edit.spec);
    }
  }

  lemma UpdatedSnoc(specs: seq<EntitySpec>, spec: EntitySpec)
    requires AllRoundTrip(specs) && RoundTrips(spec)
    ensures Printed(specs) + [ChunkOf(spec)] == Printed(specs + [spec]) && AllRoundTrip(specs + [spec])
  {
    PrintedSnoc(specs, spec);
  }

  lemma {:induction false} RunPrinted(specs: seq<EntitySpec>, edits: seq<Edit>)
    requires AllRoundTrip(specs) && AllEditsRoundTrip(edits)
    ensures RunChunks(Printed(specs), edits) == Printed(RunSpecs(specs, edits)) && AllRoundTrip(RunSpecs(specs, edits))
    decreases |edits|
  {
    if edits != [] {
      assert RoundTrips(edits[0].spec) && AllEditsRoundTrip(edits[1..]);
      UpdatedPrinted(specs, edits[0]);
      RunPrinted(UpdatedSpecs(specs, edits[0]), edits[1..]);
    }
  }

  /** From no file, the file after any run parses to exactly the entities the updates describe. */
  lemma RunParses(edits: seq<Edit>)
    requires edits != [] && AllEditsRoundTrip(edits)
    ensures RunEdits(None, edits).Some?
    ensures ParseSchemaContent(RunEdits(None, edits).value) == Ok(ParsedAll(RunSpecs([], edits)))
  {
    var specs := RunSpecs([], edits);
    RunHolds(None, [], edits);
    RunWrites(None, edits);
    RunPrinted([], edits);
    RunIsLast([], edits);
    PrintedEntities(specs);
    HoldsParses(RunEdits(None, edits).value, Printed(specs));
  }

  lemma HoldsParses(text: string, held: seq<Chunk>)
    requires Holds(Some(text), held)
    ensures ParseSchemaContent(text) == if Entities(held) == [] then Err(NO_BLOCKS) else Ok(Entities(held))
  {
    var chunks :| IsFile(text, chunks) && Carriers(chunks) == held;
    ParseFile(text, chunks);
    CarriersEntities(chunks);
  }

  lemma {:induction false} RunWrites(content: Option<string>, edits: seq<Edit>)
    requires content.Some? || edits != []
    ensures RunEdits(content, edits).Some?
    decreases |edits|
  {
    if edits != [] {
      RunWrites(Some(UpdatedContent(content, edits[0].spec, edits[0].force)), edits[1..]);
    }
  }

  /** The last entity written is the last entity of the file. */
  lemma {:induction false} RunIsLast(specs: seq<EntitySpec>, edits: seq<Edit>)
    requires edits != []
    ensures var r := RunSpecs(specs, edits);
      r != [] && r[|r| - 1] == edits[|edits| - 1].spec
    decreases |edits|
  {
    var next := UpdatedSpecs(specs, edits[0]);
    if |edits| > 1 {
      RunIsLast(next, edits[1..]);
    } else {
      assert RunSpecs(specs, edits) == RunSpecs(next, []) == next;
    }
  }
}
