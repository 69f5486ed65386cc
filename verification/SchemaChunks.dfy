/** Files of `schema!` blocks in any layout: what the parser reads and what the editor leaves. */
module SchemaChunks {
  import opened Wrappers
  import opened Text
  import opened CoreLines
  import opened SchemaSource
  import opened SchemaCodegen
  import opened SchemaCore

  // ---------------------------------------------------------------- lines on which the parser is done

  /** The parser, started outside of a block, is outside again after these lines. */
  predicate EndsOutside(ls: seq<string>)
    decreases |ls|
  {
    ls == [] || if OpensBlock(ls[0]) then EndsInside(ls[1..]) else EndsOutside(ls[1..])
  }

  predicate EndsInside(ls: seq<string>)
    decreases |ls|
  {
    match NextEntity(ls, [])
    case Err(_) => false
    case Ok((None, rest)) => EndsOutside(rest)
    case Ok((Some(e), rest)) => EndsInside(rest)
  }

  /** The entities the parser finds in such lines. */
  function EntitiesIn(ls: seq<string>): seq<ParsedEntity> {
    match Outside(ls)
    case Ok(es) => es
    case Err(_) => []
  }

  lemma {:induction false} BodyThen(ls: seq<string>, pending: seq<string>, e: ParsedEntity, rest: seq<string>)
    requires Body(ls, pending, e).1 != []
    ensures Body(ls + rest, pending, e) == (Body(ls, pending, e).0, Body(ls, pending, e).1 + rest)
  {
    var t := Trim(ls[0]);
    assert (ls + rest)[0] == ls[0] && (ls + rest)[1..] == ls[1..] + rest;
    if t == [] {
      BodyThen(ls[1..], pending, e, rest);
    } else if t == "}" {
    } else if StartsWith(t, "#[") {
      BodyThen(ls[1..], pending + [t], e, rest);
    } else {
      BodyThen(ls[1..], [], e.(fields := e.fields + FieldsOf(t, pending)), rest);
    }
  }

  lemma {:induction false} NextEntityThen(ls: seq<string>, pending: seq<string>, rest: seq<string>)
    requires NextEntity(ls, pending).Ok?
    requires NextEntity(ls, pending).value.0.Some? ==> NextEntity(ls, pending).value.1 != []
    ensures NextEntity(ls + rest, pending)
         == Ok((NextEntity(ls, pending).value.0, NextEntity(ls, pending).value.1 + rest))
  {
    var t := Trim(ls[0]);
    assert (ls + rest)[0] == ls[0] && (ls + rest)[1..] == ls[1..] + rest;
    if t == [] || t == "{" {
      NextEntityThen(ls[1..], pending, rest);
    } else if t == "}" {
    } else if StartsWith(t, "#[") {
      NextEntityThen(ls[1..], pending + [t], rest);
    } else {
      BodyThen(ls[1..], [], ApplyAttrs(pending, NewEntity(EntityName(t))), rest);
    }
  }

  lemma EndsInsideSome(ls: seq<string>)
    requires EndsInside(ls)
    ensures ls != []
  {
  }

  lemma {:induction false} InsideThen(ls: seq<string>, rest: seq<string>)
    requires EndsInside(ls)
    ensures Inside(ls).Ok? && Inside(ls + rest) == Prepend(Inside(ls).value, Outside(rest))
    decreases |ls|
  {
    var (e, more) := NextEntity(ls, []).value;
    if e.Some? {
      EndsInsideSome(more);
      NextEntityThen(ls, [], rest);
      InsideThen(more, rest);
      PrependConcat([e.value], Inside(more).value, Outside(rest));
    } else {
      NextEntityThen(ls, [], rest);
      OutsideThen(more, rest);
    }
  }

  /** What follows such lines is parsed as if it stood alone. */
  lemma {:induction false} OutsideThen(ls: seq<string>, rest: seq<string>)
    requires EndsOutside(ls)
    ensures Outside(ls) == Ok(EntitiesIn(ls)) && Outside(ls + rest) == Prepend(EntitiesIn(ls), Outside(rest))
    decreases |ls|
  {
    if ls == [] {
      assert ls + rest == rest;
      PrependNil(Outside(rest));
    } else {
      assert (ls + rest)[0] == ls[0] && (ls + rest)[1..] == ls[1..] + rest;
      if OpensBlock(ls[0]) {
        InsideThen(ls[1..], rest);
      } else {
        OutsideThen(ls[1..], rest);
      }
    }
  }

  // ---------------------------------------------------------------- lines the editor takes together

  /** The lines bring the brace depth to zero, and no earlier. */
  predicate Balanced(ls: seq<string>, depth: int) {
    if depth <= 0 then ls == [] else ls != [] && Balanced(ls[1..], depth + Delta(ls[0]))
  }

  lemma {:induction false} BalancedSplit(ls: seq<string>, depth: int, rest: seq<string>)
    requires Balanced(ls, depth)
    ensures SplitBlock(ls + rest, depth) == (ls, rest)
  {
    if depth <= 0 {
      assert ls + rest == rest;
    } else {
      assert (ls + rest)[0] == ls[0] && (ls + rest)[1..] == ls[1..] + rest;
      BalancedSplit(ls[1..], depth + Delta(ls[0]), rest);
      assert [ls[0]] + ls[1..] == ls;
    }
  }

  // ---------------------------------------------------------------- files

  /** A block, as the editor takes it, or a stretch of other lines. A stretch may well hold a block the
      editor does not recognise, such as one that opens with `schema!{`. */
  datatype Chunk =
    | Block(lines: seq<string>)
    | Stretch(lines: seq<string>)

  predicate NoneStarts(ls: seq<string>) {
    forall i :: 0 <= i < |ls| ==> !StartsSchemaBlock(ls[i])
  }

  /** Parser and editor agree on where the chunk ends. */
  predicate WellFormed(c: Chunk) {
    EndsOutside(c.lines) &&
    match c
    case Block(ls) => ls != [] && StartsSchemaBlock(ls[0]) && Balanced(ls[1..], Delta(ls[0]))
    case Stretch(ls) => NoneStarts(ls)
  }

  predicate AllWellFormed(chunks: seq<Chunk>) {
    forall i :: 0 <= i < |chunks| ==> WellFormed(chunks[i])
  }

  function Flatten(chunks: seq<Chunk>): seq<string> {
    if chunks == [] then [] else chunks[0].lines + Flatten(chunks[1..])
  }

  /** The text without blank lines and indentation is these chunks. */
  ghost predicate IsFile(text: string, chunks: seq<Chunk>) {
    AllWellFormed(chunks) && Core(text) == Flatten(chunks)
  }

  function Entities(chunks: seq<Chunk>): seq<ParsedEntity> {
    if chunks == [] then [] else EntitiesIn(chunks[0].lines) + Entities(chunks[1..])
  }

  lemma {:induction false} FlattenConcat(a: seq<Chunk>, b: seq<Chunk>)
    ensures Flatten(a + b) == Flatten(a) + Flatten(b)
  {
    if a == [] {
      assert a + b == b;
    } else {
      assert (a + b)[1..] == a[1..] + b;
      FlattenConcat(a[1..], b);
      Assoc(a[0].lines, Flatten(a[1..]), Flatten(b));
    }
  }

  lemma {:induction false} EntitiesConcat(a: seq<Chunk>, b: seq<Chunk>)
    ensures Entities(a + b) == Entities(a) + Entities(b)
  {
    if a == [] {
      assert a + b == b;
    } else {
      assert (a + b)[1..] == a[1..] + b;
      EntitiesConcat(a[1..], b);
      Assoc(EntitiesIn(a[0].lines), Entities(a[1..]), Entities(b));
    }
  }

  lemma OneChunk(c: Chunk)
    ensures Flatten([c]) == c.lines && Entities([c]) == EntitiesIn(c.lines)
  {
    assert [c][1..] == [];
    assert c.lines + Flatten([]) == c.lines && EntitiesIn(c.lines) + Entities([]) == EntitiesIn(c.lines);
  }

  // ---------------------------------------------------------------- parsing a file

  lemma {:induction false} FlattenParses(chunks: seq<Chunk>)
    requires AllWellFormed(chunks)
    ensures Outside(Flatten(chunks)) == Ok(Entities(chunks))
  {
    if chunks != [] {
      assert WellFormed(chunks[0]) && AllWellFormed(chunks[1..]);
      FlattenParses(chunks[1..]);
      OutsideThen(chunks[0].lines, Flatten(chunks[1..]));
    }
  }

  /** A file parses to the entities of its chunks, in order. */
  lemma ParseFile(text: string, chunks: seq<Chunk>)
    requires IsFile(text, chunks)
    ensures ParseSchemaContent(text) == if Entities(chunks) == [] then Err(NO_BLOCKS) else Ok(Entities(chunks))
  {
    OutsideCore(Lines(text));
    FlattenParses(chunks);
  }

  // ---------------------------------------------------------------- editing a file

  /** The editor takes a block out when its text holds the name in front of a blank and a brace. */
  predicate Drops(c: Chunk, name: string) {
    c.Block? && Mentions(c.lines, name + " {")
  }

  function Without(chunks: seq<Chunk>, name: string): seq<Chunk> {
    if chunks == [] then []
    else (if Drops(chunks[0], name) then [] else [chunks[0]]) + Without(chunks[1..], name)
  }

  lemma RemoveHead(head: string, ls: seq<string>, block: seq<string>, rest: seq<string>, pattern: string)
    requires StartsSchemaBlock(head) && SplitBlock(ls, Delta(head)) == (block, rest)
    ensures RemoveLines([head] + ls, pattern)
         == (if Mentions([head] + block, pattern) then [] else [head] + block) + RemoveLines(rest, pattern)
  {
    assert ([head] + ls)[1..] == ls;
  }

  lemma BlockEdited(ls: seq<string>, rest: seq<string>, pattern: string)
    requires WellFormed(Block(ls))
    ensures RemoveLines(ls + rest, pattern) == (if Mentions(ls, pattern) then [] else ls) + RemoveLines(rest, pattern)
  {
    var head, tail := ls[0], ls[1..];
    assert ls == [head] + tail;
    Assoc([head], tail, rest);
    BalancedSplit(tail, Delta(head), rest);
    RemoveHead(head, tail + rest, tail, rest, pattern);
  }

  lemma {:induction false} StretchEdited(ls: seq<string>, rest: seq<string>, pattern: string)
    requires NoneStarts(ls)
    ensures RemoveLines(ls + rest, pattern) == ls + RemoveLines(rest, pattern)
  {
    if ls == [] {
      assert ls + rest == rest;
    } else {
      assert (ls + rest)[0] == ls[0] && (ls + rest)[1..] == ls[1..] + rest;
      StretchEdited(ls[1..], rest, pattern);
      Assoc([ls[0]], ls[1..], RemoveLines(rest, pattern));
      assert [ls[0]] + ls[1..] == ls;
    }
  }

  lemma {:induction false} FlattenEdited(chunks: seq<Chunk>, name: string)
    requires AllWellFormed(chunks)
    ensures RemoveLines(Flatten(chunks), name + " {") == Flatten(Without(chunks, name))
  {
    if chunks != [] {
      var c := chunks[0];
      assert WellFormed(c) && AllWellFormed(chunks[1..]);
      FlattenEdited(chunks[1..], name);
      FlattenConcat(if Drops(c, name) then [] else [c], Without(chunks[1..], name));
      OneChunk(c);
      if c.Block? {
        BlockEdited(c.lines, Flatten(chunks[1..]), name + " {");
      } else {
        StretchEdited(c.lines, Flatten(chunks[1..]), name + " {");
      }
    }
  }

  lemma {:induction false} WithoutWellFormed(chunks: seq<Chunk>, name: string)
    requires AllWellFormed(chunks)
    ensures AllWellFormed(Without(chunks, name))
  {
    if chunks != [] {
      assert WellFormed(chunks[0]);
      WithoutWellFormed(chunks[1..], name);
    }
  }

  /** Removing a name from a file removes exactly the blocks that mention it, whole, and no other line. */
  lemma EditFile(text: string, chunks: seq<Chunk>, name: string)
    requires IsFile(text, chunks) && name != [] && !IsSpace(name[0])
    ensures IsFile(RemoveSchemaBlock(text, name), Without(chunks, name))
  {
    EditSeesCore(text, name);
    FlattenEdited(chunks, name);
    WithoutWellFormed(chunks, name);
  }

  lemma {:induction false} WithoutConcat(a: seq<Chunk>, b: seq<Chunk>, name: string)
    ensures Without(a + b, name) == Without(a, name) + Without(b, name)
  {
    if a == [] {
      assert a + b == b;
    } else {
      assert (a + b)[1..] == a[1..] + b;
      WithoutConcat(a[1..], b, name);
      Assoc(if Drops(a[0], name) then [] else [a[0]], Without(a[1..], name), Without(b, name));
    }
  }

  lemma WithoutOne(c: Chunk, name: string)
    ensures Without([c], name) == if Drops(c, name) then [] else [c]
  {
    assert [c][1..] == [];
    assert Without([c], name) == (if Drops(c, name) then [] else [c]) + Without([], name);
  }

  lemma {:induction false} WithoutAgain(chunks: seq<Chunk>, name: string)
    ensures Without(Without(chunks, name), name) == Without(chunks, name)
  {
    if chunks != [] {
      WithoutAgain(chunks[1..], name);
      WithoutConcat(if Drops(chunks[0], name) then [] else [chunks[0]], Without(chunks[1..], name), name);
      WithoutOne(chunks[0], name);
    }
  }

  // ---------------------------------------------------------------- which texts are such files

  function PutLine(l: string, chunks: seq<Chunk>): seq<Chunk> {
    if chunks != [] && chunks[0].Stretch? then [Stretch([l] + chunks[0].lines)] + chunks[1..]
    else [Stretch([l])] + chunks
  }

  /** The lines as the editor goes through them: its blocks, and the stretches between them. */
  function Segments(ls: seq<string>): seq<Chunk>
    decreases |ls|
  {
    if ls == [] then []
    else if StartsSchemaBlock(ls[0]) then
      var (block, rest) := SplitBlock(ls[1..], Delta(ls[0]));
      [Block([ls[0]] + block)] + Segments(rest)
    else PutLine(ls[0], Segments(ls[1..]))
  }

  lemma PutLineFlat(l: string, chunks: seq<Chunk>)
    ensures Flatten(PutLine(l, chunks)) == [l] + Flatten(chunks)
  {
    if chunks != [] && chunks[0].Stretch? {
      var first := Stretch([l] + chunks[0].lines);
      assert ([first] + chunks[1..])[1..] == chunks[1..];
      Assoc([l], chunks[0].lines, Flatten(chunks[1..]));
    } else {
      assert ([Stretch([l])] + chunks)[1..] == chunks;
    }
  }

  lemma {:induction false} SegmentsFlat(ls: seq<string>)
    ensures Flatten(Segments(ls)) == ls
    decreases |ls|
  {
    if ls != [] {
      if StartsSchemaBlock(ls[0]) {
        var (block, rest) := SplitBlock(ls[1..], Delta(ls[0]));
        var first := Block([ls[0]] + block);
        SplitBlockParts(ls[1..], Delta(ls[0]));
        SegmentsFlat(rest);
        assert ([first] + Segments(rest))[1..] == Segments(rest);
        Assoc([ls[0]], block, rest);
      } else {
        SegmentsFlat(ls[1..]);
        PutLineFlat(ls[0], Segments(ls[1..]));
      }
      assert [ls[0]] + ls[1..] == ls;
    }
  }

  lemma {:induction false} EndsInsideConcat(ls: seq<string>, rest: seq<string>)
    requires EndsInside(ls)
    ensures EndsInside(ls + rest) == EndsOutside(rest)
    decreases |ls|
  {
    var (e, more) := NextEntity(ls, []).value;
    if e.Some? {
      EndsInsideSome(more);
      NextEntityThen(ls, [], rest);
      EndsInsideConcat(more, rest);
    } else {
      NextEntityThen(ls, [], rest);
      EndsOutsideConcat(more, rest);
    }
  }

  lemma {:induction false} EndsOutsideConcat(ls: seq<string>, rest: seq<string>)
    requires EndsOutside(ls)
    ensures EndsOutside(ls + rest) == EndsOutside(rest)
    decreases |ls|
  {
    if ls == [] {
      assert ls + rest == rest;
    } else {
      assert (ls + rest)[0] == ls[0] && (ls + rest)[1..] == ls[1..] + rest;
      if OpensBlock(ls[0]) {
        EndsInsideConcat(ls[1..], rest);
      } else {
        EndsOutsideConcat(ls[1..], rest);
      }
    }
  }

  /** Lines put in front of chunks, into a stretch that stands there already. */
  function PutLines(ls: seq<string>, chunks: seq<Chunk>): seq<Chunk> {
    if ls == [] then chunks
    else if chunks != [] && chunks[0].Stretch? then [Stretch(ls + chunks[0].lines)] + chunks[1..]
    else [Stretch(ls)] + chunks
  }

  lemma {:induction false} StretchSegments(ls: seq<string>, rest: seq<string>)
    requires NoneStarts(ls)
    ensures Segments(ls + rest) == PutLines(ls, Segments(rest))
  {
    if ls == [] {
      assert ls + rest == rest;
    } else {
      assert (ls + rest)[0] == ls[0] && (ls + rest)[1..] == ls[1..] + rest;
      StretchSegments(ls[1..], rest);
      PutMore(ls[0], ls[1..], Segments(rest));
      assert [ls[0]] + ls[1..] == ls;
    }
  }

  lemma PutMore(l: string, ls: seq<string>, chunks: seq<Chunk>)
    ensures PutLine(l, PutLines(ls, chunks)) == PutLines([l] + ls, chunks)
  {
    if ls == [] {
      assert [l] + ls == [l];
    } else if chunks != [] && chunks[0].Stretch? {
      Assoc([l], ls, chunks[0].lines);
      assert ([Stretch(ls + chunks[0].lines)] + chunks[1..])[1..] == chunks[1..];
    } else {
      assert ([Stretch(ls)] + chunks)[1..] == chunks;
    }
  }

  lemma PutLinesWellFormed(ls: seq<string>, chunks: seq<Chunk>)
    requires EndsOutside(ls) && NoneStarts(ls) && AllWellFormed(chunks)
    ensures AllWellFormed(PutLines(ls, chunks))
  {
    if ls != [] && chunks != [] && chunks[0].Stretch? {
      assert WellFormed(chunks[0]);
      EndsOutsideConcat(ls, chunks[0].lines);
      forall i | 0 <= i < |PutLines(ls, chunks)| ensures WellFormed(PutLines(ls, chunks)[i]) {
        if i > 0 {
          assert WellFormed(chunks[i]);
        }
      }
    } else if ls != [] {
      assert WellFormed(Stretch(ls));
    }
  }

  lemma BlockSegments(ls: seq<string>, rest: seq<string>)
    requires WellFormed(Block(ls))
    ensures Segments(ls + rest) == [Block(ls)] + Segments(rest)
  {
    assert (ls + rest)[0] == ls[0] && (ls + rest)[1..] == ls[1..] + rest;
    BalancedSplit(ls[1..], Delta(ls[0]), rest);
    assert [ls[0]] + ls[1..] == ls;
  }

  lemma {:induction false} SegmentsWellFormed(chunks: seq<Chunk>)
    requires AllWellFormed(chunks)
    ensures AllWellFormed(Segments(Flatten(chunks)))
  {
    if chunks != [] {
      var c, rest := chunks[0], Flatten(chunks[1..]);
      assert WellFormed(c) && AllWellFormed(chunks[1..]);
      SegmentsWellFormed(chunks[1..]);
      match c {
        case Block(ls) =>
          BlockSegments(ls, rest);
        case Stretch(ls) =>
          StretchSegments(ls, rest);
          PutLinesWellFormed(ls, Segments(rest));
      }
    }
  }

  /** A text is a file in this sense exactly when the parser is outside again at the end of each of the
      editor's blocks, and of each stretch between them, and those blocks are closed. */
  lemma FileIff(text: string)
    ensures (exists chunks :: IsFile(text, chunks)) <==> AllWellFormed(Segments(Core(text)))
  {
    SegmentsFlat(Core(text));
    if chunks :| IsFile(text, chunks) {
      SegmentsWellFormed(chunks);
    }
    if AllWellFormed(Segments(Core(text))) {
      assert IsFile(text, Segments(Core(text)));
    }
  }
}
