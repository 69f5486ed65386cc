/** What the parser of AGENTS.md finds in any text, told by positions: the first begin marker, the first
    arrow behind it, two words in between, and the first end marker of the file. */
module AgentsFound {
  import opened Wrappers
  import opened Text
  import opened AgentsBlock

  predicate FirstFrom(s: string, p: string, from: nat, at: nat) {
    from <= at && HasAt(s, p, at) && forall j :: from <= j < at ==> !HasAt(s, p, j)
  }

  predicate Word(s: string) {
    s != "" && forall i :: 0 <= i < |s| ==> !IsSpace(s[i])
  }

  /** A line cut into its first two words and what stands around them. */
  datatype Cut = Cut(indent: string, first: string, gap: string, second: string, rest: string)

  predicate CutsInto(s: string, c: Cut) {
    && s == c.indent + (c.first + (c.gap + (c.second + c.rest)))
    && AllSpace(c.indent) && Word(c.first) && AllSpace(c.gap) && c.gap != "" && Word(c.second)
    && (c.rest != "" ==> IsSpace(c.rest[0]))
  }

  /** The line from `at` to `after` without its marks, which may be repeated. */
  function Inner(source: string, begin: string, at: nat, after: nat): string
    requires at <= after <= |source| && begin != ""
  {
    TrimEndMatches(TrimStartMatches(source[at..after], begin), " -->")
  }

  /** A header line stands at `at`, ends behind its arrow at `after`, and is cut into its words. */
  predicate HeaderStands(source: string, begin: string, at: nat, after: nat, c: Cut) {
    && begin != "" && FirstFrom(source, begin, 0, at)
    && after >= 3 && FirstFrom(source, "-->", at, after - 3)
    && CutsInto(Inner(source, begin, at, after), c)
  }

  ghost predicate HasHeader(source: string, begin: string) {
    exists at, after, c :: HeaderStands(source, begin, at, after, c)
  }

  lemma {:induction false} TrimStartCut(s: string) returns (blank: string)
    ensures s == blank + TrimStart(s) && AllSpace(blank)
    ensures TrimStart(s) != "" ==> !IsSpace(TrimStart(s)[0])
  {
    if s != "" && IsSpace(s[0]) {
      var b := TrimStartCut(s[1..]);
      blank := [s[0]] + b;
    } else {
      blank := "";
    }
  }

  lemma {:induction false} SpacePosIs(s: string)
    ensures forall i :: 0 <= i < SpacePos(s) ==> !IsSpace(s[i])
    ensures SpacePos(s) < |s| ==> IsSpace(s[SpacePos(s)])
  {
    if s != "" && !IsSpace(s[0]) {
      SpacePosIs(s[1..]);
    }
  }

  lemma WordRead(blank: string, w: string, rest: string)
    requires AllSpace(blank) && Word(w) && (rest != "" ==> IsSpace(rest[0]))
    ensures NextWord(blank + (w + rest)) == (w, rest)
  {
    TrimStartPad(blank, w + rest);
    assert (w + rest)[0] == w[0];
    SpaceAfter(w, rest);
    assert (w + rest)[..|w|] == w && (w + rest)[|w|..] == rest;
  }

  lemma WordCut(t: string)
    requires t != "" ==> !IsSpace(t[0])
    ensures var n := SpacePos(t);
      && t == t[..n] + t[n..] && (t[n..] != "" ==> IsSpace(t[n..][0]))
      && (t[..n] != "" ==> Word(t[..n]))
  {
    SpacePosIs(t);
  }

  lemma NextWordCut(s: string) returns (blank: string)
    ensures var (w, rest) := NextWord(s);
      && s == blank + (w + rest) && AllSpace(blank) && (rest != "" ==> IsSpace(rest[0]))
      && (w != "" ==> Word(w))
  {
    blank := TrimStartCut(s);
    WordCut(TrimStart(s));
  }

  lemma CutRead(s: string, c: Cut)
    requires CutsInto(s, c)
    ensures NextWord(s).0 == c.first && NextWord(NextWord(s).1).0 == c.second
  {
    WordRead(c.indent, c.first, c.gap + (c.second + c.rest));
    WordRead(c.gap, c.second, c.rest);
  }

  lemma GapStands(gap: string, second: string, rest: string)
    requires Word(second) && IsSpace((gap + (second + rest))[0])
    ensures gap != ""
  {
    assert (second + rest)[0] == second[0];
    assert "" + (second + rest) == second + rest;
  }

  lemma CutExists(s: string) returns (c: Cut)
    requires NextWord(s).0 != "" && NextWord(NextWord(s).1).0 != ""
    ensures CutsInto(s, c)
  {
    var indent := NextWordCut(s);
    var (first, more) := NextWord(s);
    var gap := NextWordCut(more);
    var (second, rest) := NextWord(more);
    c := Cut(indent, first, gap, second, rest);
    GapStands(gap, second, rest);
  }

  lemma FindIs(s: string, p: string, at: nat)
    requires FirstFrom(s, p, 0, at)
    ensures Find(s, p) == Some(at)
  {
  }

  lemma HasAtTail(s: string, p: string, from: nat, j: nat)
    requires from <= |s|
    ensures HasAt(s[from..], p, j) <==> HasAt(s, p, from + j)
  {
    if from + j + |p| <= |s| {
      assert s[from..][j..j + |p|] == s[from + j..from + j + |p|];
    }
  }

  lemma FirstInTail(s: string, p: string, from: nat, at: nat)
    requires from <= |s| && FirstFrom(s, p, from, at)
    ensures Find(s[from..], p) == Some(at - from)
  {
    HasAtTail(s, p, from, at - from);
    forall j | 0 <= j < at - from ensures !HasAt(s[from..], p, j) {
      HasAtTail(s, p, from, j);
    }
    FindIs(s[from..], p, at - from);
  }

  lemma TailFirst(s: string, p: string, from: nat, n: nat)
    requires from <= |s| && Find(s[from..], p) == Some(n)
    ensures FirstFrom(s, p, from, from + n)
  {
    HasAtTail(s, p, from, n);
    forall j | from <= j < from + n ensures !HasAt(s, p, j) {
      HasAtTail(s, p, from, j - from);
    }
  }

  lemma LineWords(line: string, begin: string, c: Cut)
    requires begin != "" && CutsInto(TrimEndMatches(TrimStartMatches(line, begin), " -->"), c)
    ensures HeaderWords(line, begin) == (c.first, c.second) && c.first != "" && c.second != ""
  {
    CutRead(TrimEndMatches(TrimStartMatches(line, begin), " -->"), c);
  }

  /** The words of the header are read from its line. */
  lemma HeaderIsLocated(source: string, begin: string, at: nat, after: nat, c: Cut)
    requires HeaderStands(source, begin, at, after, c)
    ensures LocateHeader(source, begin) == FoundAt(at, after, (c.first, c.second))
  {
    FindIs(source, begin, at);
    FirstInTail(source, "-->", at, after - 3);
    var tail, line := source[at..], source[at..after];
    assert tail[..|line|] == line;
    LineWords(line, begin, c);
    LocatedFrom(source, begin, at, tail, line, (c.first, c.second));
  }

  lemma LocatedStands(source: string, begin: string) returns (at: nat, after: nat, c: Cut)
    requires begin != "" && LocateHeader(source, begin).FoundAt?
    ensures HeaderStands(source, begin, at, after, c)
  {
    at := Find(source, begin).value;
    var tail := source[at..];
    var n := Find(tail, "-->").value;
    after := at + n + 3;
    TailFirst(source, "-->", at, n);
    assert tail[..n + 3] == source[at..after];
    c := CutExists(Inner(source, begin, at, after));
  }

  lemma LocatedIff(source: string, begin: string)
    requires begin != ""
    ensures LocateHeader(source, begin).FoundAt? <==> HasHeader(source, begin)
  {
    if LocateHeader(source, begin).FoundAt? {
      var at, after, c := LocatedStands(source, begin);
    }
    if HasHeader(source, begin) {
      var at, after, c :| HeaderStands(source, begin, at, after, c);
      HeaderIsLocated(source, begin, at, after, c);
    }
  }

  lemma MarkedFoundIff(source: string, begin: string, end: string)
    requires begin != ""
    ensures ParseMarked(source, begin, end) != NoBlock <==> HasHeader(source, begin) && Contains(source, end)
  {
    LocatedIff(source, begin);
  }

  /** FOUND. A block is found exactly when a header with two words stands in the text, and an end marker
      anywhere. */
  lemma BlockFoundIff(source: string)
    ensures ParseAgentsBlock(source) != NoBlock
       <==> && HasHeader(source, "<!-- BEGIN:rapina-agent-rules ")
            && Contains(source, "<!-- END:rapina-agent-rules -->")
  {
    MarkedFoundIff(source, BEGIN, END);
  }

  /** `raw` without one newline at its end. */
  predicate Stripped(raw: string, body: string) {
    raw == body + "\n" || (raw == body && (body == "" || body[|body| - 1] != '\n'))
  }

  /** What a block says when its header ends at `after` and its end marker stands at `e`. */
  predicate Says(source: string, end: string, at: nat, after: nat, c: Cut, e: nat, b: ParsedBlock)
    requires after <= e && e + |end| <= |source|
  {
    var from := if after < e && source[after] == '\n' then after + 1 else after;
    var behind := e + |end|;
    && b.storedVersion == TrimStartMatches(c.first, "v")
    && b.storedHash == TrimStartMatches(c.second, "sha256:")
    && Stripped(source[from..e], b.body)
    && b.beginPos == at
    && b.endPos == if behind < |source| && source[behind] == '\n' then behind + 1 else behind
  }

  lemma StrippedIs(raw: string)
    ensures Stripped(raw, StripNewline(raw))
  {
    if raw != "" {
      assert raw == raw[..|raw| - 1] + [raw[|raw| - 1]];
    }
  }

  lemma BodySays(source: string, end: string, at: nat, after: nat, c: Cut, e: nat)
    requires at <= after <= |source| && Find(source, end) == Some(e) && e < |source| && source[e] != '\n'
    ensures var r := ParseBody(source, FoundAt(at, after, (c.first, c.second)), end);
      if e < after then r == Panics else r.Parsed? && Says(source, end, at, after, c, e, r.block)
  {
    if after <= e {
      StrippedIs(source[SkipNewline(source, after)..e]);
    }
  }

  lemma MarkedSays(source: string, begin: string, end: string, at: nat, after: nat, c: Cut, e: nat)
    requires HeaderStands(source, begin, at, after, c)
    requires end != "" && end[0] != '\n' && FirstFrom(source, end, 0, e)
    ensures var r := ParseMarked(source, begin, end);
      if e < after then r == Panics else r.Parsed? && Says(source, end, at, after, c, e, r.block)
  {
    HeaderIsLocated(source, begin, at, after, c);
    FindIs(source, end, e);
    assert source[e] == source[e..e + |end|][0];
    BodySays(source, end, at, after, c, e);
  }

  /** THE BLOCK. What is found is told by the positions of the header, its two words and the end marker. */
  lemma BlockSays(source: string, at: nat, after: nat, c: Cut, e: nat)
    requires HeaderStands(source, "<!-- BEGIN:rapina-agent-rules ", at, after, c)
    requires FirstFrom(source, "<!-- END:rapina-agent-rules -->", 0, e)
    ensures var r := ParseAgentsBlock(source);
      if e < after then r == Panics
      else r.Parsed? && Says(source, "<!-- END:rapina-agent-rules -->", at, after, c, e, r.block)
  {
    MarkerFacts();
    MarkedSays(source, BEGIN, END, at, after, c, e);
  }
}
