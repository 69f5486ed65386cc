/** The core of a text: its lines, trimmed, with the blank ones dropped. The parser and the
    editor of `schema!` files turn out to see nothing else of a file. */
module CoreLines {
  import opened Text

  function Piece(l: string): seq<string> {
    if Trim(l) == [] then [] else [Trim(l)]
  }

  function CoreOf(ls: seq<string>): seq<string> {
    if ls == [] then [] else Piece(ls[0]) + CoreOf(ls[1..])
  }

  function Core(s: string): seq<string> {
    CoreOf(Lines(s))
  }

  /** What a core consists of. */
  predicate CoreLine(l: string) {
    l != [] && Tight(l) && '\n' !in l
  }

  lemma {:induction false} CoreOfConcat(a: seq<string>, b: seq<string>)
    ensures CoreOf(a + b) == CoreOf(a) + CoreOf(b)
  {
    if a == [] {
      assert a + b == b;
    } else {
      assert (a + b)[1..] == a[1..] + b;
      CoreOfConcat(a[1..], b);
    }
  }

  lemma {:induction false} CoreOfShape(ls: seq<string>)
    requires NoNewline(ls)
    ensures forall i :: 0 <= i < |CoreOf(ls)| ==> CoreLine(CoreOf(ls)[i])
  {
    if ls != [] {
      CoreOfShape(ls[1..]);
      var b, a := TrimShape(ls[0]);
      assert '\n' !in Trim(ls[0]);
    }
  }

  lemma TrimStripCR(l: string)
    ensures Trim(StripCR(l)) == Trim(l)
  {
    var s := StripCR(l);
    if s != l {
      var w := ['\r'];
      assert l == s + w && AllSpace(w);
      TrimAnyEnd(s, w);
    }
  }

  lemma TrimAnyEnd(s: string, w: string)
    requires AllSpace(w)
    ensures Trim(s + w) == Trim(s)
  {
    var b, a := TrimShape(s);
    assert s + w == b + Trim(s) + (a + w);
    TrimIs(b, Trim(s), a + w);
  }

  lemma CoreSingle(l: string)
    requires '\n' !in l
    ensures Core(l) == Piece(l)
  {
    LinesLast(l);
    if l == [] {
      assert Trim(l) == [];
    } else {
      assert [l][1..] == [];
      assert CoreOf([l]) == Piece(l) + CoreOf([]);
    }
  }

  lemma CoreStep(head: string, rest: string)
    requires '\n' !in head
    ensures Core(head + "\n" + rest) == Piece(head) + Core(rest)
  {
    LinesStep(head, rest);
    TrimStripCR(head);
    assert Lines(head + "\n" + rest)[1..] == Lines(rest);
  }

  lemma Regroup(a: string, b: string, c: string)
    ensures a + "\n" + b + "\n" + c == a + "\n" + (b + "\n" + c)
    ensures a + "\n" + b + c == a + "\n" + (b + c)
  {
  }

  /** The core of a text is composed at every newline. */
  lemma {:induction false} CoreConcat(a: string, b: string)
    ensures Core(a + "\n" + b) == Core(a) + Core(b)
    decreases |a|
  {
    if '\n' in a {
      var head, tail := CutLine(a);
      Regroup(head, tail, b);
      CoreStep(head, tail);
      CoreStep(head, tail + "\n" + b);
      CoreConcat(tail, b);
      Assoc(Piece(head), Core(tail), Core(b));
    } else {
      CoreStep(a, b);
      CoreSingle(a);
    }
  }

  lemma CoreNewline(b: string)
    ensures Core("\n" + b) == Core(b)
  {
    assert [] + "\n" + b == "\n" + b;
    CoreConcat([], b);
  }

  /** A text that starts with a newline never joins the line before it. */
  lemma CoreGlue(a: string, b: string)
    requires b != [] && b[0] == '\n'
    ensures Core(a + b) == Core(a) + Core(b)
  {
    var rest := b[1..];
    assert b == "\n" + rest;
    assert a + b == a + "\n" + rest;
    CoreConcat(a, rest);
    CoreNewline(rest);
  }

  lemma CoreEnd(a: string)
    ensures Core(a + "\n") == Core(a)
  {
    assert a + "\n" + [] == a + "\n";
    CoreConcat(a, []);
  }

  /** A white space character at the end of a text is not in its core. */
  lemma {:induction false} CoreSpaceEnd(a: string, c: char)
    requires IsSpace(c)
    ensures Core(a + [c]) == Core(a)
    decreases |a|
  {
    if c == '\n' {
      CoreEnd(a);
    } else if '\n' in a {
      var head, tail := CutLine(a);
      Regroup(head, tail, [c]);
      CoreStep(head, tail);
      CoreStep(head, tail + [c]);
      CoreSpaceEnd(tail, c);
    } else {
      TrimAnyEnd(a, [c]);
      CoreSingle(a);
      CoreSingle(a + [c]);
    }
  }

  lemma {:induction false} CoreTrimEnd(s: string)
    ensures Core(TrimEnd(s)) == Core(s)
  {
    if s != [] && IsSpace(s[|s| - 1]) {
      CoreTrimEnd(s[..|s| - 1]);
      CoreSpaceEnd(s[..|s| - 1], s[|s| - 1]);
      assert s == s[..|s| - 1] + [s[|s| - 1]];
    }
  }

  lemma {:induction false} CoreUnlines(ls: seq<string>)
    requires NoNewline(ls)
    ensures Core(Unlines(ls)) == CoreOf(ls)
  {
    if ls != [] {
      CoreConcat(ls[0], Unlines(ls[1..]));
      CoreSingle(ls[0]);
      CoreUnlines(ls[1..]);
    }
  }

  // ---------------------------------------------------------------- blank-line collapse

  /** `str::replace("\n\n\n", "\n\n")`: every non-overlapping occurrence, left to right. */
  function ReplaceTriple(s: string): (r: string)
    ensures |r| <= |s|
  {
    if s == [] then []
    else if StartsWith(s, "\n\n\n") then "\n\n" + ReplaceTriple(s[3..])
    else [s[0]] + ReplaceTriple(s[1..])
  }

  lemma {:induction false} ReplaceShortens(s: string)
    requires Contains(s, "\n\n\n")
    ensures |ReplaceTriple(s)| < |s|
    decreases |s|
  {
    var i := Find(s, "\n\n\n").value;
    if i > 0 {
      assert !StartsWith(s, "\n\n\n");
      assert HasAt(s[1..], "\n\n\n", i - 1);
      ReplaceShortens(s[1..]);
    }
  }

  /** The loop at the end of `remove_schema_block`. */
  function Collapse(s: string): (r: string)
    ensures !Contains(r, "\n\n\n")
    decreases |s|
  {
    if Contains(s, "\n\n\n") then
      ReplaceShortens(s);
      Collapse(ReplaceTriple(s))
    else s
  }

  lemma CoreNewlines(x: string, r: string)
    ensures Core(x + ("\n\n" + r)) == Core(x) + Core(r)
    ensures Core(x + ("\n\n\n" + r)) == Core(x) + Core(r)
  {
    assert x + ("\n\n" + r) == x + "\n" + ("\n" + r);
    assert x + ("\n\n\n" + r) == x + "\n" + ("\n" + ("\n" + r));
    CoreConcat(x, "\n" + r);
    CoreConcat(x, "\n" + ("\n" + r));
    CoreNewline("\n" + r);
    CoreNewline(r);
  }

  lemma {:induction false} CoreReplace(x: string, s: string)
    ensures Core(x + ReplaceTriple(s)) == Core(x + s)
    decreases |s|
  {
    if s == [] {
    } else if StartsWith(s, "\n\n\n") {
      var rest := s[3..];
      assert s == "\n\n\n" + rest;
      CoreNewlines(x, rest);
      CoreNewlines(x, ReplaceTriple(rest));
      assert Core(ReplaceTriple(rest)) == Core(rest) by {
        CoreReplace([], rest);
        assert [] + ReplaceTriple(rest) == ReplaceTriple(rest) && [] + rest == rest;
      }
    } else {
      var c, rest := s[0], s[1..];
      CoreReplace(x + [c], rest);
      assert s == [c] + rest;
      Assoc(x, [c], rest);
      Assoc(x, [c], ReplaceTriple(rest));
    }
  }

  /** Collapsing blank lines changes no core line, whatever the text. */
  lemma {:induction false} CoreCollapse(s: string)
    ensures Core(Collapse(s)) == Core(s)
    decreases |s|
  {
    if Contains(s, "\n\n\n") {
      ReplaceShortens(s);
      CoreCollapse(ReplaceTriple(s));
      CoreReplace([], s);
      assert [] + s == s && [] + ReplaceTriple(s) == ReplaceTriple(s);
    }
  }
}
