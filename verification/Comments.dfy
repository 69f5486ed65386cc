/** What of a Rust text is code: comments and string literals blanked out, character for character. */
module Comments {
  import opened Text

  /** A white-space character that the code looked for never holds. */
  const BLANK := '\t'

  /** Block comments nest. */
  datatype Mode = Code | LineComment | BlockComment(depth: nat) | Quoted

  /** The next one or two characters: how many, whether they are code, and what follows them. */
  datatype Token = Token(size: nat, shown: bool, next: Mode)

  predicate Pair(s: string, a: char, b: char) {
    |s| >= 2 && s[0] == a && s[1] == b
  }

  function NextToken(mode: Mode, s: string): (t: Token)
    requires s != []
    ensures 1 <= t.size <= 2 && t.size <= |s| && (t.shown ==> t.size == 1)
  {
    match mode
    case Code =>
      if Pair(s, '/', '/') then Token(2, false, LineComment)
      else if Pair(s, '/', '*') then Token(2, false, BlockComment(0))
      else if s[0] == '"' then Token(1, false, Quoted)
      else Token(1, true, Code)
    case LineComment =>
      if s[0] == '\n' then Token(1, true, Code) else Token(1, false, LineComment)
    case BlockComment(depth) =>
      if Pair(s, '*', '/') then Token(2, false, if depth == 0 then Code else BlockComment(depth - 1))
      else if Pair(s, '/', '*') then Token(2, false, BlockComment(depth + 1))
      else Token(1, false, mode)
    case Quoted =>
      if s[0] == '\\' && |s| >= 2 then Token(2, false, Quoted)
      else Token(1, false, if s[0] == '"' then Code else Quoted)
  }

  function Blanks(n: nat): (r: string)
    ensures |r| == n && forall i :: 0 <= i < n ==> r[i] == BLANK
  {
    seq(n, i => BLANK)
  }

  function Blanked(mode: Mode, s: string): (r: string)
    ensures |r| == |s|
    ensures forall i :: 0 <= i < |s| ==> r[i] == s[i] || r[i] == BLANK
    decreases |s|
  {
    if s == [] then []
    else
      var t := NextToken(mode, s);
      (if t.shown then [s[0]] else Blanks(t.size)) + Blanked(t.next, s[t.size..])
  }

  /** The text with its comments and string literals blanked out. */
  function Visible(text: string): (r: string)
    ensures |r| == |text|
    ensures forall i :: 0 <= i < |text| ==> r[i] == text[i] || r[i] == BLANK
  {
    Blanked(Code, text)
  }

  predicate Shown(c: char) {
    c != BLANK && c != '\n'
  }

  /** A text that cannot complete a mark begun before it. */
  predicate Fresh(y: string) {
    y != [] ==> y[0] !in {'/', '*'}
  }

  lemma FirstToken(mode: Mode, s: string, k: nat, y: string)
    requires 0 < k < |s| && Fresh(y) && NextToken(mode, s).size <= k
    ensures NextToken(mode, s[..k] + y) == NextToken(mode, s)
  {
    var r := s[..k] + y;
    assert r[0] == s[0];
    if k >= 2 {
      assert r[1] == s[1];
    } else if y != [] {
      assert r[1] == y[0];
    }
  }

  lemma TokenThen(mode: Mode, s: string)
    requires s != []
    ensures var t := NextToken(mode, s);
      Blanked(mode, s)[t.size..] == Blanked(t.next, s[t.size..])
  {
  }

  lemma HiddenToken(mode: Mode, s: string, i: nat)
    requires i < |s|
    ensures i < NextToken(mode, s).size && !NextToken(mode, s).shown ==> Blanked(mode, s)[i] == BLANK
  {
  }

  lemma ShownToken(mode: Mode, s: string, k: nat)
    requires k < |s| && Shown(Blanked(mode, s)[k]) && k > 0
    ensures NextToken(mode, s).size <= k
  {
    HiddenToken(mode, s, k);
  }

  lemma FirstShown(mode: Mode, s: string)
    requires s != [] && Shown(Blanked(mode, s)[0])
    ensures mode == Code && Blanked(mode, s)[0] == s[0]
  {
    HiddenToken(mode, s, 0);
  }

  lemma SameFront(mode: Mode, s: string, r: string)
    requires s != [] && r != [] && r[0] == s[0] && NextToken(mode, r) == NextToken(mode, s)
    ensures var t := NextToken(mode, s);
      Blanked(mode, r) == Blanked(mode, s)[..t.size] + Blanked(t.next, r[t.size..])
  {
  }

  /** Cut in front of a character of code, a text goes on as code. */
  lemma {:induction false} CutShown(mode: Mode, s: string, k: nat, y: string)
    requires k < |s| && Shown(Blanked(mode, s)[k]) && Fresh(y)
    ensures Blanked(mode, s[..k] + y) == Blanked(mode, s)[..k] + Blanked(Code, y)
    decreases |s|
  {
    if k == 0 {
      FirstShown(mode, s);
      assert s[..0] + y == y;
    } else {
      var t := NextToken(mode, s);
      TokenThen(mode, s);
      ShownToken(mode, s, k);
      CutTwice(Blanked(mode, s), t.size, k);
      CutShown(t.next, s[t.size..], k - t.size, y);
      FirstToken(mode, s, k, y);
      SameFront(mode, s, s[..k] + y);
      CutLater(s, t.size, k, y);
      Assoc(Blanked(mode, s)[..t.size], Blanked(mode, s)[t.size..][..k - t.size], Blanked(Code, y));
    }
  }

  lemma CutTwice(s: string, n: nat, k: nat)
    requires n <= k < |s|
    ensures s[..k] == s[..n] + s[n..][..k - n] && s[k] == s[n..][k - n]
  {
  }

  lemma CutLater(s: string, n: nat, k: nat, y: string)
    requires n <= k <= |s|
    ensures (s[..k] + y)[n..] == s[n..][..k - n] + y
  {
  }

  /** A blank in front of a character of code is code. */
  lemma {:induction false} BlankShown(mode: Mode, s: string, k: nat)
    requires 0 < k < |s| && s[k - 1] == ' ' && Shown(Blanked(mode, s)[k])
    ensures Blanked(mode, s)[k - 1] == ' '
    decreases |s|
  {
    var t, b := NextToken(mode, s), Blanked(mode, s);
    var n := t.size;
    TokenThen(mode, s);
    ShownToken(mode, s, k);
    assert b[k] == b[n..][k - n];
    if n < k {
      BlankShown(t.next, s[n..], k - n);
      assert b[k - 1] == b[n..][k - 1 - n];
    } else {
      FirstShown(t.next, s[n..]);
      assert t.next == Code && s[n - 1] == ' ';
      assert t.shown;
    }
  }

  predicate NoMarks(x: string) {
    '/' !in x && '"' !in x
  }

  lemma {:induction false} PlainShown(x: string, y: string)
    requires NoMarks(x)
    ensures Blanked(Code, x + y) == x + Blanked(Code, y)
  {
    if x == [] {
      assert x + y == y;
    } else {
      var s := x + y;
      assert s[0] == x[0] && s[1..] == x[1..] + y;
      PlainShown(x[1..], y);
      Assoc([x[0]], x[1..], Blanked(Code, y));
      assert [x[0]] + x[1..] == x;
    }
  }

  /** A line comment ends with its line. */
  lemma {:induction false} LineBlanked(note: string, y: string)
    requires '\n' !in note
    ensures Blanked(LineComment, note + ("\n" + y)) == Blanks(|note|) + ("\n" + Blanked(Code, y))
  {
    if note == [] {
      assert note + ("\n" + y) == "\n" + y && ("\n" + y)[1..] == y;
      assert Blanks(0) + ("\n" + Blanked(Code, y)) == "\n" + Blanked(Code, y);
    } else {
      var s := note + ("\n" + y);
      assert s[0] == note[0] && s[1..] == note[1..] + ("\n" + y);
      LineBlanked(note[1..], y);
      assert Blanks(|note|) == Blanks(1) + Blanks(|note| - 1);
      Assoc(Blanks(1), Blanks(|note| - 1), "\n" + Blanked(Code, y));
    }
  }

  lemma CommentBlanked(x: string, note: string, y: string)
    requires NoMarks(x) && '\n' !in note
    ensures Visible(x + ("//" + (note + ("\n" + y)))) == x + (Blanks(|note| + 2) + ("\n" + Blanked(Code, y)))
  {
    var tail := note + ("\n" + y);
    PlainShown(x, "//" + tail);
    assert ("//" + tail)[2..] == tail;
    LineBlanked(note, y);
    assert Blanks(|note| + 2) == Blanks(2) + Blanks(|note|);
    Assoc(Blanks(2), Blanks(|note|), "\n" + Blanked(Code, y));
  }

  lemma PlainVisible(x: string)
    requires NoMarks(x)
    ensures Visible(x) == x
  {
    PlainShown(x, []);
    assert x + [] == x;
  }

  /** A line put in front of a text leaves what is code in it as it is. */
  lemma VisibleBehind(front: string, text: string)
    requires NoMarks(front)
    ensures Visible(front + text) == front + Visible(text)
  {
    PlainShown(front, text);
  }

  /** Code put in front of a character of code is code, and the rest stays as it was. */
  lemma VisiblePut(text: string, k: nat, e: string)
    requires k < |text| && Shown(Visible(text)[k]) && text[k] !in {'/', '*'}
    requires NoMarks(e) && Fresh(e) && e != []
    ensures Visible(text[..k] + (e + text[k..])) == Visible(text)[..k] + (e + Visible(text)[k..])
  {
    CutShown(Code, text, k, e + text[k..]);
    PlainShown(e, text[k..]);
    VisibleFrom(text, k);
  }

  lemma VisibleFrom(text: string, k: nat)
    requires k < |text| && Shown(Visible(text)[k]) && text[k] !in {'/', '*'}
    ensures Visible(text)[k..] == Blanked(Code, text[k..])
  {
    CutShown(Code, text, k, text[k..]);
    assert text[..k] + text[k..] == text;
    Rest(Visible(text), k, Blanked(Code, text[k..]));
  }

  lemma Rest(v: string, k: nat, w: string)
    requires k <= |v| && v == v[..k] + w
    ensures v[k..] == w
  {
  }

  /** What is code up to a closing brace does not depend on what follows the brace. */
  lemma VisibleUpTo(text: string, k: nat, z: string)
    requires k < |text| && Visible(text)[k] == '}'
    ensures |Visible(text[..k + 1] + z)| > k
    ensures Visible(text[..k + 1] + z)[..k + 1] == Visible(text)[..k + 1]
  {
    var v, y := Visible(text), "}" + z;
    assert text[..k + 1] + z == text[..k] + y;
    CutShown(Code, text, k, y);
    PlainShown("}", z);
    UpTo(v, k, "}", Blanked(Code, z));
  }

  lemma UpTo(v: string, k: nat, c: string, z: string)
    requires k < |v| && c == [v[k]]
    ensures |v[..k] + (c + z)| > k && (v[..k] + (c + z))[..k + 1] == v[..k + 1]
  {
  }
}
