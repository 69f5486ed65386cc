/** The parser and the editor of `schema!` files see only the core of a text. */
module SchemaCore {
  import opened Wrappers
  import opened Text
  import opened CoreLines
  import opened SchemaSource
  import opened SchemaCodegen

  // ---------------------------------------------------------------- parser

  lemma CoreOfHead(ls: seq<string>)
    requires ls != []
    ensures Trim(ls[0]) == [] ==> CoreOf(ls) == CoreOf(ls[1..])
    ensures Trim(ls[0]) != [] ==>
              CoreOf(ls) != [] && CoreOf(ls)[0] == Trim(ls[0]) && CoreOf(ls)[1..] == CoreOf(ls[1..])
    ensures Trim(Trim(ls[0])) == Trim(ls[0])
  {
    TrimTwice(ls[0]);
  }

  lemma {:induction false} BodyCore(ls: seq<string>, pending: seq<string>, e: ParsedEntity)
    ensures var (r, rest) := Body(ls, pending, e);
      Body(CoreOf(ls), pending, e) == (r, CoreOf(rest))
  {
    if ls != [] {
      CoreOfHead(ls);
      var t := Trim(ls[0]);
      if t == [] {
        BodyCore(ls[1..], pending, e);
      } else if t == "}" {
      } else if StartsWith(t, "#[") {
        BodyCore(ls[1..], pending + [t], e);
      } else {
        BodyCore(ls[1..], [], e.(fields := e.fields + FieldsOf(t, pending)));
      }
    }
  }

  lemma {:induction false} NextEntityCore(ls: seq<string>, pending: seq<string>)
    ensures match NextEntity(ls, pending)
            case Err(m) => NextEntity(CoreOf(ls), pending) == Err(m)
            case Ok((e, rest)) => NextEntity(CoreOf(ls), pending) == Ok((e, CoreOf(rest)))
  {
    if ls != [] {
      CoreOfHead(ls);
      var t := Trim(ls[0]);
      if t == [] || t == "{" {
        NextEntityCore(ls[1..], pending);
      } else if t == "}" {
      } else if StartsWith(t, "#[") {
        NextEntityCore(ls[1..], pending + [t]);
      } else {
        BodyCore(ls[1..], [], ApplyAttrs(pending, NewEntity(EntityName(t))));
      }
    }
  }

  lemma {:induction false} OutsideCore(ls: seq<string>)
    ensures Outside(CoreOf(ls)) == Outside(ls)
    decreases |ls|
  {
    if ls != [] {
      CoreOfHead(ls);
      if OpensBlock(ls[0]) {
        InsideCore(ls[1..]);
      } else {
        OutsideCore(ls[1..]);
      }
    }
  }

  lemma {:induction false} InsideCore(ls: seq<string>)
    ensures Inside(CoreOf(ls)) == Inside(ls)
    decreases |ls|
  {
    NextEntityCore(ls, []);
    match NextEntity(ls, [])
    case Err(m) =>
    case Ok((None, rest)) => OutsideCore(rest);
    case Ok((Some(e), rest)) => InsideCore(rest);
  }

  /** Two texts with the same core lines parse alike: indentation, trailing blanks, blank lines
      and line endings never matter. */
  lemma ParseSeesCore(a: string, b: string)
    requires Core(a) == Core(b)
    ensures ParseSchemaContent(a) == ParseSchemaContent(b)
  {
    OutsideCore(Lines(a));
    OutsideCore(Lines(b));
  }

  // ---------------------------------------------------------------- editor

  lemma StartsTrim(line: string)
    ensures StartsSchemaBlock(Trim(line)) == StartsSchemaBlock(line)
  {
    var p := "schema! {";
    var after := TrimEndShape(TrimStart(line));
    var t, s := Trim(line), TrimStart(line);
    var b, a := TrimShape(line);
    assert TrimStart(t) == t;
    if |t| < |p| <= |s| {
      assert IsSpace(s[0..|p|][|p| - 1]);
    } else if |p| <= |t| {
      assert s[0..|p|] == t[0..|p|];
    }
  }

  lemma DeltaTrim(line: string)
    ensures Delta(Trim(line)) == Delta(line)
  {
    var b, a := TrimShape(line);
    DeltaFree(b);
    DeltaFree(a);
    DeltaConcat(b, Trim(line));
    DeltaConcat(b + Trim(line), a);
  }

  lemma ContainsTrim(line: string, pattern: string)
    requires pattern != [] && Tight(pattern)
    ensures Contains(Trim(line), pattern) == Contains(line, pattern)
  {
    var b, a := TrimShape(line);
    var t := Trim(line);
    forall i
      ensures HasAt(line, pattern, i) <==> HasAt(t, pattern, i - |b|)
    {
      if |b| <= i && i + |pattern| <= |b| + |t| {
        HasAtWithin(b, t, a, pattern, i);
      } else if 0 <= i < |b| && i + |pattern| <= |line| {
        assert IsSpace(line[i..i + |pattern|][0]);
      } else if 0 <= i && i + |pattern| <= |line| {
        assert IsSpace(line[i..i + |pattern|][|pattern| - 1]);
      }
    }
    ContainsIff(line, pattern);
    ContainsIff(t, pattern);
    if j :| HasAt(t, pattern, j) {
      assert HasAt(line, pattern, j + |b|);
    }
  }

  lemma CoreOfCons(l: string, ls: seq<string>)
    ensures CoreOf([l] + ls) == Piece(l) + CoreOf(ls)
    ensures CoreOf([l]) == Piece(l)
  {
    assert ([l] + ls)[1..] == ls;
    assert [l][1..] == [];
  }

  lemma SplitBlockCons(l: string, ls: seq<string>, depth: int, block: seq<string>, rest: seq<string>)
    requires depth > 0 && SplitBlock(ls, depth + Delta(l)) == (block, rest)
    ensures SplitBlock([l] + ls, depth) == ([l] + block, rest)
  {
    assert ([l] + ls)[1..] == ls;
  }

  lemma BlankLine(l: string, ls: seq<string>)
    requires Trim(l) == []
    ensures Delta(l) == 0
    ensures CoreOf([l] + ls) == CoreOf(ls)
  {
    DeltaTrim(l);
    DeltaFree([]);
    CoreOfCons(l, ls);
  }

  lemma CoreOfStep(l: string, ls: seq<string>)
    requires Trim(l) != []
    ensures CoreOf([l] + ls) == [Trim(l)] + CoreOf(ls)
  {
    CoreOfCons(l, ls);
  }

  lemma SplitBlockLine(l: string, tail: seq<string>, depth: int, block: seq<string>, rest: seq<string>)
    requires depth > 0 && Trim(l) != []
    requires SplitBlock(CoreOf(tail), depth + Delta(Trim(l))) == (CoreOf(block), CoreOf(rest))
    ensures SplitBlock(CoreOf([l] + tail), depth) == (CoreOf([l] + block), CoreOf(rest))
  {
    SplitBlockCons(Trim(l), CoreOf(tail), depth, CoreOf(block), CoreOf(rest));
    CoreOfStep(l, tail);
    CoreOfStep(l, block);
  }

  lemma SplitBlockStep(l: string, tail: seq<string>, depth: int, block: seq<string>, rest: seq<string>)
    requires depth > 0
    requires SplitBlock(CoreOf(tail), depth + Delta(l)) == (CoreOf(block), CoreOf(rest))
    ensures SplitBlock(CoreOf([l] + tail), depth) == (CoreOf([l] + block), CoreOf(rest))
  {
    if Trim(l) == [] {
      BlankLine(l, tail);
      BlankLine(l, block);
    } else {
      DeltaTrim(l);
      SplitBlockLine(l, tail, depth, block, rest);
    }
  }

  lemma {:induction false} SplitBlockCore(ls: seq<string>, depth: int, block: seq<string>, rest: seq<string>)
    requires SplitBlock(ls, depth) == (block, rest)
    ensures SplitBlock(CoreOf(ls), depth) == (CoreOf(block), CoreOf(rest))
    decreases |ls|
  {
    if depth > 0 && ls != [] {
      var l, tail := ls[0], ls[1..];
      assert ls == [l] + tail;
      var inner := SplitBlock(tail, depth + Delta(l)).0;
      assert SplitBlock(tail, depth + Delta(l)) == (inner, rest) && block == [l] + inner;
      SplitBlockCore(tail, depth + Delta(l), inner, rest);
      SplitBlockStep(l, tail, depth, inner, rest);
    }
  }

  lemma {:induction false} MentionsCore(ls: seq<string>, pattern: string)
    requires pattern != [] && Tight(pattern)
    ensures Mentions(CoreOf(ls), pattern) == Mentions(ls, pattern)
  {
    if ls != [] {
      ContainsTrim(ls[0], pattern);
      MentionsCore(ls[1..], pattern);
      MentionsConcat([ls[0]], ls[1..], pattern);
      MentionsConcat(Piece(ls[0]), CoreOf(ls[1..]), pattern);
      assert [ls[0]] + ls[1..] == ls;
      MentionsOne(ls[0], pattern);
      MentionsOne(Trim(ls[0]), pattern);
    }
  }

  lemma MentionsOne(l: string, pattern: string)
    requires pattern != []
    ensures Mentions([l], pattern) == Contains(l, pattern)
    ensures !Contains([], pattern)
  {
    if Contains(l, pattern) {
      assert Contains([l][0], pattern);
    }
    ContainsIff([], pattern);
  }

  lemma MentionsConcat(a: seq<string>, b: seq<string>, pattern: string)
    ensures Mentions(a + b, pattern) <==> Mentions(a, pattern) || Mentions(b, pattern)
  {
    if i :| 0 <= i < |b| && Contains(b[i], pattern) {
      assert Contains((a + b)[|a| + i], pattern);
    }
    if i :| 0 <= i < |a| && Contains(a[i], pattern) {
      assert Contains((a + b)[i], pattern);
    }
  }

  /** Removing a block commutes with taking the core. */
  lemma {:induction false} RemoveLinesCore(ls: seq<string>, pattern: string)
    requires pattern != [] && Tight(pattern)
    ensures CoreOf(RemoveLines(ls, pattern)) == RemoveLines(CoreOf(ls), pattern)
    decreases |ls|
  {
    if ls != [] {
      CoreOfHead(ls);
      StartsTrim(ls[0]);
      if StartsSchemaBlock(ls[0]) {
        var (block, rest) := SplitBlock(ls[1..], Delta(ls[0]));
        var all := [ls[0]] + block;
        DeltaTrim(ls[0]);
        SplitBlockCore(ls[1..], Delta(ls[0]), block, rest);
        MentionsCore(all, pattern);
        RemoveLinesCore(rest, pattern);
        CoreOfConcat(if Mentions(all, pattern) then [] else all, RemoveLines(rest, pattern));
        CoreOfCons(ls[0], block);
      } else {
        RemoveLinesCore(ls[1..], pattern);
        CoreOfConcat([ls[0]], RemoveLines(ls[1..], pattern));
        CoreOfCons(ls[0], []);
      }
    }
  }

  lemma {:induction false} RemoveLinesNoNewline(ls: seq<string>, pattern: string)
    requires NoNewline(ls)
    ensures NoNewline(RemoveLines(ls, pattern))
    decreases |ls|
  {
    if ls != [] {
      if StartsSchemaBlock(ls[0]) {
        var (block, rest) := SplitBlock(ls[1..], Delta(ls[0]));
        SplitBlockParts(ls[1..], Delta(ls[0]));
        assert NoNewline(rest) by {
          forall i | 0 <= i < |rest| ensures '\n' !in rest[i] {
            assert rest[i] == ls[1 + |block| + i];
          }
        }
        assert NoNewline([ls[0]] + block) by {
          forall i | 0 <= i < |block| ensures '\n' !in block[i] {
            assert block[i] == ls[1 + i];
          }
        }
        RemoveLinesNoNewline(rest, pattern);
      } else {
        RemoveLinesNoNewline(ls[1..], pattern);
      }
    }
  }

  /** The core of an edited text is the edited core, whatever the text. */
  lemma EditSeesCore(content: string, entityName: string)
    requires entityName != [] && !IsSpace(entityName[0])
    ensures Core(RemoveSchemaBlock(content, entityName)) == RemoveLines(Core(content), entityName + " {")
  {
    var pattern := entityName + " {";
    var ls := Lines(content);
    CoreCollapse(Unlines(RemoveLines(ls, pattern)));
    LinesNoNewline(content);
    RemoveLinesNoNewline(ls, pattern);
    CoreUnlines(RemoveLines(ls, pattern));
    RemoveLinesCore(ls, pattern);
  }
}
