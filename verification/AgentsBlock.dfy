/** The marker block of AGENTS.md (rapina-cli/src/commands/agents.rs): printed with a hash, and
    found again inside arbitrary text. Printer and parser take the two markers as parameters, so
    that the proofs see what they need of a marker and not its text. */
module AgentsBlock {
  import opened Wrappers
  import opened Text

  const BEGIN := "<!-- BEGIN:rapina-agent-rules "
  const END := "<!-- END:rapina-agent-rules -->"

  // ---------------------------------------------------------------- printing

  function Middle(version: string, hash: string): string {
    "v" + version + (" sha256:" + hash)
  }

  function Header(begin: string, version: string, hash: string): string {
    begin + (Middle(version, hash) + " -->")
  }

  function Marked(begin: string, end: string, version: string, hash: string, content: string): string {
    Header(begin, version, hash) + ("\n" + (content + ("\n" + (end + "\n"))))
  }

  function Block(version: string, hash: string, content: string): string {
    Marked(BEGIN, END, version, hash, content)
  }

  // ---------------------------------------------------------------- parsing

  function TrimEndMatches(s: string, p: string): string
    requires p != []
  {
    if |s| < |p| then s
    else if EndsWith(s, p) then TrimEndMatches(s[..|s| - |p|], p)
    else s
  }

  function SpacePos(s: string): (n: nat)
    ensures n <= |s|
  {
    if s == [] || IsSpace(s[0]) then 0 else 1 + SpacePos(s[1..])
  }

  /** The next item of `str::split_whitespace` and what is left; an empty word when there is none. */
  function NextWord(s: string): (string, string) {
    var t := TrimStart(s);
    var n := SpacePos(t);
    (t[..n], t[n..])
  }

  datatype ParsedBlock = ParsedBlock(
    storedVersion: string, storedHash: string, body: string, beginPos: nat, endPos: nat)

  /** `Panics`: the slice between the markers starts after its end. */
  datatype ParseOutcome = NoBlock | Panics | Parsed(block: ParsedBlock)

  function SkipNewline(s: string, at: nat): (r: nat)
    requires at <= |s|
    ensures at <= r <= |s|
  {
    if at < |s| && s[at] == '\n' then at + 1 else at
  }

  function StripNewline(s: string): string {
    if s != [] && s[|s| - 1] == '\n' then s[..|s| - 1] else s
  }

  /** The first two words of a header line without its marks. */
  function HeaderWords(line: string, begin: string): (string, string)
    requires begin != []
  {
    var first := NextWord(TrimEndMatches(TrimStartMatches(line, begin), " -->"));
    (first.0, NextWord(first.1).0)
  }

  /** A header line found: where it starts and ends, and its version and hash words. */
  datatype Found = NoHeader | FoundAt(at: nat, after: nat, words: (string, string))

  function LocateHeader(source: string, begin: string): (r: Found)
    requires begin != []
    ensures r.FoundAt? ==> Find(source, begin) == Some(r.at) && r.at <= r.after <= |source|
  {
    match Find(source, begin)
    case None => NoHeader
    case Some(at) =>
      var tail := source[at..];
      match Find(tail, "-->")
      case None => NoHeader
      case Some(lineEnd) =>
        var words := HeaderWords(tail[..lineEnd + 3], begin);
        if words.0 == [] || words.1 == [] then NoHeader else FoundAt(at, at + lineEnd + 3, words)
  }

  function ParseBody(source: string, header: Found, end: string): ParseOutcome
    requires header.FoundAt? ==> header.at <= header.after <= |source|
  {
    match header
    case NoHeader => NoBlock
    case FoundAt(at, after, words) =>
      var bodyStart := SkipNewline(source, after);
      match Find(source, end)
      case None => NoBlock
      case Some(endMarker) =>
        if bodyStart > endMarker then Panics
        else Parsed(ParsedBlock(
          TrimStartMatches(words.0, "v"),
          TrimStartMatches(words.1, "sha256:"),
          StripNewline(source[bodyStart..endMarker]),
          at,
          SkipNewline(source, endMarker + |end|)))
  }

  function ParseMarked(source: string, begin: string, end: string): ParseOutcome
    requires begin != []
  {
    ParseBody(source, LocateHeader(source, begin), end)
  }

  function ParseAgentsBlock(source: string): ParseOutcome {
    ParseMarked(source, BEGIN, END)
  }

  // ---------------------------------------------------------------- first occurrences

  /** No occurrence of `p` starts within `a` when `rest` follows it. */
  ghost predicate NoStart(a: string, rest: string, p: string) {
    forall j :: 0 <= j < |a| ==> !HasAt(a + rest, p, j)
  }

  lemma NoStartConcat(a: string, b: string, rest: string, p: string)
    requires NoStart(a, b + rest, p) && NoStart(b, rest, p)
    ensures NoStart(a + b, rest, p)
  {
    assert a + (b + rest) == a + b + rest;
    forall j | 0 <= j < |a + b| ensures !HasAt(a + b + rest, p, j) {
      if j >= |a| {
        if j + |p| <= |a + b + rest| {
          HasAtWithin(a, b + rest, [], p, j);
          assert a + (b + rest) + [] == a + b + rest;
        }
        assert !HasAt(b + rest, p, j - |a|);
      }
    }
  }

  /** The character after `a` can only start an occurrence, never continue one. */
  lemma NoStartFree(a: string, rest: string, p: string)
    requires !Contains(a, p) && rest != []
    requires forall k :: 1 <= k < |p| ==> p[k] != rest[0]
    ensures NoStart(a, rest, p)
  {
    ContainsIff(a, p);
    forall j | 0 <= j < |a| ensures !HasAt(a + rest, p, j) {
      if j + |p| <= |a| {
        HasAtWithin([], a, rest, p, j);
        assert [] + a + rest == a + rest;
        assert !HasAt(a, p, j);
      } else if j + |p| <= |a + rest| {
        assert (a + rest)[j..j + |p|][|a| - j] == rest[0];
      }
    }
  }

  lemma NoStartChar(a: string, rest: string, p: string)
    requires p != [] && p[0] !in a
    ensures NoStart(a, rest, p)
  {
    forall j | 0 <= j < |a| ensures !HasAt(a + rest, p, j) {
      if j + |p| <= |a + rest| {
        assert (a + rest)[j..j + |p|][0] == a[j];
      }
    }
  }

  lemma FindAfter(a: string, p: string, rest: string)
    requires NoStart(a, p + rest, p)
    ensures Find(a + (p + rest), p) == Some(|a|)
  {
    assert (a + (p + rest))[|a|..|a| + |p|] == p;
    FindIs(a + (p + rest), p, |a|);
  }

  /** An occurrence before a position is an occurrence in the text up to it. */
  lemma FreeBefore(s: string, p: string, n: nat)
    requires n <= |s|
    requires forall j :: 0 <= j < n ==> !HasAt(s, p, j)
    requires p != []
    ensures !Contains(s[..n], p)
  {
    forall j ensures !HasAt(s[..n], p, j) {
      if 0 <= j && j + |p| <= n {
        assert s[..n][j..j + |p|] == s[j..j + |p|];
        assert !HasAt(s, p, j);
      }
    }
    ContainsIff(s[..n], p);
  }

  // ---------------------------------------------------------------- the header line

  predicate LabelChar(c: char) {
    'a' <= c <= 'z' || 'A' <= c <= 'Z' || '0' <= c <= '9' || c in {'.', '-', '+'}
  }

  predicate Label(s: string) {
    s != [] && forall i :: 0 <= i < |s| ==> LabelChar(s[i])
  }

  predicate HexDigit(c: char) {
    '0' <= c <= '9' || 'a' <= c <= 'f'
  }

  predicate Hex(s: string) {
    s != [] && forall i :: 0 <= i < |s| ==> HexDigit(s[i])
  }

  /** A version text as Cargo allows it; the `v` in front is the printer's. */
  predicate Version(s: string) {
    Label(s) && s[0] != 'v'
  }

  lemma MiddleChars(version: string, hash: string)
    requires Version(version) && Hex(hash)
    ensures '<' !in Middle(version, hash) && '>' !in Middle(version, hash)
    ensures Middle(version, hash) != [] && Middle(version, hash)[0] == 'v'
  {
    assert !LabelChar('<') && !LabelChar('>') && !HexDigit('<') && !HexDigit('>');
    assert '<' !in version && '>' !in version && '<' !in hash && '>' !in hash;
  }

  lemma TrimStartOnce(p: string, s: string)
    requires p != [] && !StartsWith(s, p)
    ensures TrimStartMatches(p + s, p) == s
  {
    assert (p + s)[0..|p|] == p && (p + s)[|p|..] == s;
  }

  lemma TrimEndOnce(s: string, p: string)
    requires p != [] && !EndsWith(s, p)
    ensures TrimEndMatches(s + p, p) == s
  {
    assert (s + p)[|s|..|s| + |p|] == p && (s + p)[..|s|] == s;
  }

  lemma {:induction false} SpaceAfter(w: string, rest: string)
    requires forall i :: 0 <= i < |w| ==> !IsSpace(w[i])
    requires rest != [] ==> IsSpace(rest[0])
    ensures SpacePos(w + rest) == |w|
  {
    if w == [] {
      assert w + rest == rest;
    } else {
      assert (w + rest)[1..] == w[1..] + rest;
      SpaceAfter(w[1..], rest);
    }
  }

  lemma OneWord(w: string, rest: string)
    requires w != [] && forall i :: 0 <= i < |w| ==> !IsSpace(w[i])
    requires rest != [] ==> IsSpace(rest[0])
    ensures NextWord(w + rest) == (w, rest)
  {
    SpaceAfter(w, rest);
    assert TrimStart(w + rest) == w + rest;
    assert (w + rest)[..|w|] == w && (w + rest)[|w|..] == rest;
  }

  lemma TwoWords(a: string, b: string)
    requires a != [] && b != []
    requires forall i :: 0 <= i < |a| ==> !IsSpace(a[i])
    requires forall i :: 0 <= i < |b| ==> !IsSpace(b[i])
    ensures NextWord(a + (" " + b)) == (a, " " + b) && NextWord(" " + b) == (b, [])
  {
    OneWord(a, " " + b);
    OneWord(b, []);
    assert b + [] == b;
    assert (" " + b)[1..] == b;
    assert TrimStart(" " + b) == TrimStart(b);
  }

  lemma MiddleParts(version: string, hash: string)
    requires Version(version) && Hex(hash)
    ensures var a, b := "v" + version, "sha256:" + hash;
      && Middle(version, hash) == a + (" " + b)
      && (forall i :: 0 <= i < |a| ==> !IsSpace(a[i]))
      && (forall i :: 0 <= i < |b| ==> !IsSpace(b[i]))
  {
    var a, b := "v" + version, "sha256:" + hash;
    assert Middle(version, hash) == a + (" " + b) by {
      assert " sha256:" == " " + "sha256:";
    }
    assert forall i :: 0 <= i < |version| ==> a[i + 1] == version[i];
    assert forall i :: 0 <= i < |hash| ==> b[i + 7] == hash[i];
    forall i | 0 <= i < |a| ensures !IsSpace(a[i]) {
      if i > 0 {
        assert LabelChar(version[i - 1]);
      }
    }
    forall i | 0 <= i < |b| ensures !IsSpace(b[i]) {
      if i >= 7 {
        assert HexDigit(hash[i - 7]);
      }
    }
  }

  lemma MiddleWords(version: string, hash: string)
    requires Version(version) && Hex(hash)
    ensures var first := NextWord(Middle(version, hash));
      first.0 == "v" + version && NextWord(first.1).0 == "sha256:" + hash
  {
    MiddleParts(version, hash);
    TwoWords("v" + version, "sha256:" + hash);
  }

  lemma VersionRead(version: string)
    requires Version(version)
    ensures TrimStartMatches("v" + version, "v") == version
  {
    assert !StartsWith(version, "v") by {
      assert version[0..1][0] == version[0];
    }
    TrimStartOnce("v", version);
  }

  lemma HashRead(hash: string)
    requires Hex(hash)
    ensures TrimStartMatches("sha256:" + hash, "sha256:") == hash
  {
    assert !StartsWith(hash, "sha256:") by {
      if |hash| >= 7 {
        assert hash[0..7][0] == hash[0];
        assert HexDigit(hash[0]);
      }
    }
    TrimStartOnce("sha256:", hash);
  }

  // ---------------------------------------------------------------- markers

  /** A marker starts with a bracket and holds no other bracket and no newline. */
  predicate Marker(p: string) {
    && |p| > 5 && p[0] == '<' && '\n' !in p
    && forall k :: 1 <= k < |p| ==> p[k] != '<'
  }

  predicate Markers(begin: string, end: string) {
    Marker(begin) && Marker(end) && '>' !in begin && begin[5] != end[5]
  }

  lemma BeginIsMarker()
    ensures Marker(BEGIN) && '>' !in BEGIN && BEGIN[5] == 'B'
  {
  }

  lemma EndIsMarker()
    ensures Marker(END) && END[5] == 'E'
  {
  }

  lemma MarkerFacts()
    ensures Markers(BEGIN, END)
  {
    BeginIsMarker();
    EndIsMarker();
  }

  predicate ClearOf(before: string, begin: string, end: string) {
    !Contains(before, begin) && !Contains(before, end)
  }

  predicate Clear(before: string) {
    ClearOf(before, BEGIN, END)
  }

  // ---------------------------------------------------------------- the header inside a text

  /** The header line, read back. */
  lemma HeaderRead(begin: string, version: string, hash: string)
    requires Marker(begin) && Version(version) && Hex(hash)
    ensures HeaderWords(Header(begin, version, hash), begin) == ("v" + version, "sha256:" + hash)
  {
    var middle := Middle(version, hash);
    MiddleChars(version, hash);
    assert !StartsWith(middle + " -->", begin) by {
      if |middle + " -->"| >= |begin| {
        assert (middle + " -->")[0..|begin|][0] == 'v';
      }
    }
    TrimStartOnce(begin, middle + " -->");
    assert !EndsWith(middle, " -->") by {
      var k := |middle| - 4;
      if k >= 0 {
        assert middle[k..k + 4][3] in middle;
      }
    }
    TrimEndOnce(middle, " -->");
    MiddleWords(version, hash);
  }

  lemma ArrowAfter(h: string, rest: string)
    requires '>' !in h
    ensures Find(h + ("-->" + rest), "-->") == Some(|h|)
  {
    var arrow := "-->";
    assert NoStart(h, arrow + rest, arrow) by {
      forall j | 0 <= j < |h| ensures !HasAt(h + (arrow + rest), arrow, j) {
        assert (h + (arrow + rest))[j..j + 3][2] == if j + 2 < |h| then h[j + 2] else '-';
      }
    }
    FindAfter(h, arrow, rest);
  }

  lemma HeaderEnd(begin: string, version: string, hash: string, rest: string)
    requires Marker(begin) && '>' !in begin && Version(version) && Hex(hash)
    ensures Find(Header(begin, version, hash) + rest, "-->") == Some(|Header(begin, version, hash)| - 3)
  {
    MiddleChars(version, hash);
    var h := begin + Middle(version, hash) + " ";
    assert h + ("-->" + rest) == Header(begin, version, hash) + rest;
    ArrowAfter(h, rest);
  }

  lemma HeaderBrackets(begin: string, version: string, hash: string, j: nat)
    requires Marker(begin) && Version(version) && Hex(hash) && 1 <= j < |Header(begin, version, hash)|
    ensures Header(begin, version, hash)[j] != '<'
  {
    var middle := Middle(version, hash);
    MiddleChars(version, hash);
    if |begin| <= j < |begin| + |middle| {
      assert Header(begin, version, hash)[j] == middle[j - |begin|];
    }
  }

  lemma HeaderHasNoEnd(begin: string, end: string, version: string, hash: string, rest: string)
    requires Markers(begin, end) && Version(version) && Hex(hash)
    ensures NoStart(Header(begin, version, hash), rest, end)
  {
    var h := Header(begin, version, hash);
    forall j | 0 <= j < |h| ensures !HasAt(h + rest, end, j) {
      if j + |end| <= |h + rest| {
        if j == 0 {
          assert (h + rest)[0..|end|][5] == begin[5];
        } else {
          HeaderBrackets(begin, version, hash, j);
          assert (h + rest)[j..j + |end|][0] == h[j];
        }
      }
    }
  }

  lemma BeginFound(before: string, begin: string, version: string, hash: string, rest: string)
    requires Marker(begin) && !Contains(before, begin)
    ensures Find(before + (Header(begin, version, hash) + rest), begin) == Some(|before|)
  {
    var tail := Middle(version, hash) + " -->" + rest;
    NoStartFree(before, begin + tail, begin);
    FindAfter(before, begin, tail);
    assert before + (Header(begin, version, hash) + rest) == before + (begin + tail);
  }

  lemma FirstPart(h: string, rest: string)
    ensures (h + rest)[..|h|] == h
  {
  }

  lemma LastPart(before: string, tail: string)
    ensures (before + tail)[|before|..] == tail
  {
  }

  lemma LocatedFrom(source: string, begin: string, at: nat, tail: string, h: string, words: (string, string))
    requires begin != [] && Find(source, begin) == Some(at) && source[at..] == tail
    requires |h| >= 3 && Find(tail, "-->") == Some(|h| - 3) && tail[..|h|] == h
    requires HeaderWords(h, begin) == words && words.0 != [] && words.1 != []
    ensures LocateHeader(source, begin) == FoundAt(at, at + |h|, words)
  {
  }

  /** Where the header stands, whatever follows it. */
  lemma HeaderLocated(before: string, begin: string, version: string, hash: string, rest: string)
    requires Marker(begin) && '>' !in begin && Version(version) && Hex(hash) && !Contains(before, begin)
    ensures var h := Header(begin, version, hash);
      LocateHeader(before + (h + rest), begin)
      == FoundAt(|before|, |before| + |h|, ("v" + version, "sha256:" + hash))
  {
    var h := Header(begin, version, hash);
    BeginFound(before, begin, version, hash, rest);
    LastPart(before, h + rest);
    FirstPart(h, rest);
    HeaderEnd(begin, version, hash, rest);
    HeaderRead(begin, version, hash);
    LocatedFrom(before + (h + rest), begin, |before|, h + rest, h, ("v" + version, "sha256:" + hash));
  }

  // ---------------------------------------------------------------- a block inside a text

  function BlockTail(content: string, end: string, after: string): string {
    "\n" + (content + ("\n" + (end + ("\n" + after))))
  }

  lemma TailHasNoEnd(content: string, p: string, after: string)
    requires Marker(p) && !Contains(content, p)
    ensures NoStart("\n" + (content + "\n"), p + ("\n" + after), p)
  {
    var tail := p + ("\n" + after);
    NoStartChar("\n", tail, p);
    NoStartFree(content, "\n" + tail, p);
    NoStartConcat(content, "\n", tail, p);
    Assoc(content, "\n", tail);
    NoStartChar("\n", content + "\n" + tail, p);
    NoStartConcat("\n", content + "\n", tail, p);
  }

  /** The first end marker of a text with a block is the block's own. */
  lemma FirstMarker(p: string, before: string, h: string, content: string, after: string)
    requires Marker(p) && !Contains(before, p) && !Contains(content, p)
    requires h != [] && h[0] == '<' && NoStart(h, BlockTail(content, p, after), p)
    ensures Find(before + (h + BlockTail(content, p, after)), p) == Some(|before| + |h| + 1 + |content| + 1)
  {
    var inner, tail := "\n" + (content + "\n"), p + ("\n" + after);
    assert inner + tail == BlockTail(content, p, after);
    TailHasNoEnd(content, p, after);
    NoStartConcat(h, inner, tail, p);
    Assoc(h, inner, tail);
    NoStartFree(before, h + (inner + tail), p);
    NoStartConcat(before, h + inner, tail, p);
    FindAfter(before + (h + inner), p, "\n" + after);
    Assoc(before, h + inner, tail);
  }

  lemma EndFound(before: string, begin: string, end: string, version: string, hash: string, content: string,
                 after: string)
    requires Markers(begin, end) && Version(version) && Hex(hash)
    requires !Contains(before, end) && !Contains(content, end)
    ensures var h := Header(begin, version, hash);
      Find(before + (h + BlockTail(content, end, after)), end) == Some(|before| + |h| + 1 + |content| + 1)
  {
    var h := Header(begin, version, hash);
    assert h[0] == begin[0];
    HeaderHasNoEnd(begin, end, version, hash, BlockTail(content, end, after));
    FirstMarker(end, before, h, content, after);
  }

  lemma BodySlice(before: string, h: string, content: string, p: string, after: string)
    ensures var s := before + (h + BlockTail(content, p, after));
      var bodyStart := |before| + |h| + 1;
      var m := bodyStart + |content| + 1;
      && SkipNewline(s, |before| + |h|) == bodyStart
      && m + |p| <= |s| && StripNewline(s[bodyStart..m]) == content
      && SkipNewline(s, m + |p|) == m + |p| + 1
  {
    var s := before + (h + BlockTail(content, p, after));
    var m := |before| + |h| + 1 + |content| + 1;
    assert s[|before| + |h| + 1..m] == content + "\n";
    assert (content + "\n")[..|content|] == content;
    assert s[m + |p|] == '\n';
  }

  lemma BlockLayout(before: string, h: string, content: string, p: string, after: string)
    ensures before + (h + ("\n" + (content + ("\n" + (p + "\n"))))) + after
         == before + (h + BlockTail(content, p, after))
    ensures |h + ("\n" + (content + ("\n" + (p + "\n"))))| == |h| + 1 + |content| + 1 + |p| + 1
  {
  }

  /** The body starts at `bodyStart`, the end marker stands at `endMarker`, and `b` is what they give. */
  predicate BodyAt(source: string, after: nat, end: string, bodyStart: nat, endMarker: nat, b: ParsedBlock) {
    && b.beginPos <= after <= |source| && bodyStart == SkipNewline(source, after)
    && Find(source, end) == Some(endMarker) && bodyStart <= endMarker
    && StripNewline(source[bodyStart..endMarker]) == b.body
    && SkipNewline(source, endMarker + |end|) == b.endPos
  }

  lemma BodyFrom(source: string, after: nat, w0: string, w1: string, end: string, bodyStart: nat, endMarker: nat,
                 b: ParsedBlock)
    requires BodyAt(source, after, end, bodyStart, endMarker, b)
    requires TrimStartMatches(w0, "v") == b.storedVersion && TrimStartMatches(w1, "sha256:") == b.storedHash
    ensures ParseBody(source, FoundAt(b.beginPos, after, (w0, w1)), end) == Parsed(b)
  {
  }

  lemma BodyStands(before: string, begin: string, end: string, version: string, hash: string, content: string,
                   after: string) returns (bodyStart: nat, endMarker: nat, b: ParsedBlock)
    requires Markers(begin, end) && Version(version) && Hex(hash)
    requires !Contains(before, end) && !Contains(content, end)
    ensures var h := Header(begin, version, hash);
      && b == ParsedBlock(version, hash, content, |before|, |before| + (|h| + 1 + |content| + 1 + |end| + 1))
      && BodyAt(before + (h + BlockTail(content, end, after)), |before| + |h|, end, bodyStart, endMarker, b)
  {
    var h := Header(begin, version, hash);
    bodyStart := |before| + |h| + 1;
    endMarker := bodyStart + |content| + 1;
    b := ParsedBlock(version, hash, content, |before|, |before| + (|h| + 1 + |content| + 1 + |end| + 1));
    EndFound(before, begin, end, version, hash, content, after);
    BodySlice(before, h, content, end, after);
  }

  lemma BodyParses(before: string, begin: string, end: string, version: string, hash: string, content: string,
                   after: string)
    requires Markers(begin, end) && Version(version) && Hex(hash)
    requires !Contains(before, end) && !Contains(content, end)
    ensures var h := Header(begin, version, hash);
      ParseBody(before + (h + BlockTail(content, end, after)),
                FoundAt(|before|, |before| + |h|, ("v" + version, "sha256:" + hash)), end)
      == Parsed(ParsedBlock(version, hash, content, |before|, |before| + (|h| + 1 + |content| + 1 + |end| + 1)))
  {
    var h := Header(begin, version, hash);
    var bodyStart, endMarker, b := BodyStands(before, begin, end, version, hash, content, after);
    VersionRead(version);
    HashRead(hash);
    BodyFrom(before + (h + BlockTail(content, end, after)), |before| + |h|, "v" + version, "sha256:" + hash, end,
             bodyStart, endMarker, b);
  }

  lemma LaidParses(before: string, begin: string, end: string, version: string, hash: string, content: string,
                   after: string)
    requires Markers(begin, end) && Version(version) && Hex(hash)
    requires ClearOf(before, begin, end) && !Contains(content, end)
    ensures var h := Header(begin, version, hash);
      ParseMarked(before + (h + BlockTail(content, end, after)), begin, end)
      == Parsed(ParsedBlock(version, hash, content, |before|, |before| + (|h| + 1 + |content| + 1 + |end| + 1)))
  {
    HeaderLocated(before, begin, version, hash, BlockTail(content, end, after));
    BodyParses(before, begin, end, version, hash, content, after);
  }

  lemma MarkedParses(before: string, begin: string, end: string, version: string, hash: string, content: string,
                     after: string)
    requires Markers(begin, end) && Version(version) && Hex(hash)
    requires ClearOf(before, begin, end) && !Contains(content, end)
    ensures ParseMarked(before + Marked(begin, end, version, hash, content) + after, begin, end)
         == Parsed(ParsedBlock(version, hash, content, |before|,
                               |before| + |Marked(begin, end, version, hash, content)|))
  {
    BlockLayout(before, Header(begin, version, hash), content, end, after);
    LaidParses(before, begin, end, version, hash, content, after);
  }

  /** ROUND TRIP. A block between a text without markers and any text at all is found, and gives
      back its version, hash and content; the positions delimit exactly the printed block. */
  lemma BlockParses(before: string, version: string, hash: string, content: string, after: string)
    requires Version(version) && Hex(hash) && Clear(before) && !Contains(content, END)
    ensures ParseAgentsBlock(before + Block(version, hash, content) + after)
         == Parsed(ParsedBlock(version, hash, content, |before|, |before| + |Block(version, hash, content)|))
  {
    MarkerFacts();
    MarkedParses(before, BEGIN, END, version, hash, content, after);
  }

  lemma StrayEnd(before: string, rest: string, p: string) returns (m: nat)
    requires Contains(before, p)
    ensures Find(before + rest, p) == Some(m) && m + |p| <= |before| && (p != [] ==> m < |before|)
  {
    var i := Find(before, p).value;
    HasAtWithin([], before, rest, p, i);
    assert [] + before + rest == before + rest;
    m := Find(before + rest, p).value;
  }

  lemma MarkedPanics(before: string, begin: string, end: string, version: string, hash: string, content: string,
                     after: string)
    requires Markers(begin, end) && Version(version) && Hex(hash)
    requires !Contains(before, begin) && Contains(before, end)
    ensures ParseMarked(before + Marked(begin, end, version, hash, content) + after, begin, end) == Panics
  {
    var h, tail := Header(begin, version, hash), BlockTail(content, end, after);
    BlockLayout(before, h, content, end, after);
    HeaderLocated(before, begin, version, hash, tail);
    var m := StrayEnd(before, h + tail, end);
  }

  /** In front of an intact block, a stray end marker makes the parse panic. */
  lemma StrayEndPanics(before: string, version: string, hash: string, content: string, after: string)
    requires Version(version) && Hex(hash) && !Contains(before, BEGIN) && !Contains(content, END)
    ensures ParseAgentsBlock(before + Block(version, hash, content) + after) == Panics <==> Contains(before, END)
  {
    MarkerFacts();
    if Contains(before, END) {
      MarkedPanics(before, BEGIN, END, version, hash, content, after);
    } else {
      MarkedParses(before, BEGIN, END, version, hash, content, after);
    }
  }

  // ---------------------------------------------------------------- when the parser panics

  /** The header line runs past the first end marker. */
  predicate Overrun(source: string, begin: string, end: string)
    requires begin != []
  {
    var header := LocateHeader(source, begin);
    header.FoundAt? && Find(source, end).Some? && Find(source, end).value < header.after
  }

  lemma BodyPanicsIff(source: string, header: Found, end: string)
    requires header.FoundAt? ==> header.at <= header.after <= |source|
    requires Marker(end)
    ensures ParseBody(source, header, end) == Panics
       <==> header.FoundAt? && Find(source, end).Some? && Find(source, end).value < header.after
  {
    if Find(source, end).Some? {
      var m := Find(source, end).value;
      assert source[m] == source[m..m + |end|][0];
    }
  }

  /** PANICS. On any text at all the parse panics exactly when the header line found runs past the
      first end marker. */
  lemma PanicsIff(source: string)
    ensures ParseAgentsBlock(source) == Panics <==> Overrun(source, BEGIN, END)
  {
    MarkerFacts();
    BodyPanicsIff(source, LocateHeader(source, BEGIN), END);
  }

  lemma NoOverlap(front: string, x: string, p: string)
    requires front != [] && front[|front| - 1] !in p
    ensures |x| < |p| ==> !EndsWith(front + x, p)
  {
    var s := front + x;
    if |x| < |p| <= |s| {
      assert s[|s| - |p|..|s| - |p| + |p|][|p| - |x| - 1] == front[|front| - 1];
    }
  }

  /** Trimming marks off the end never reaches behind a character that the mark does not hold. */
  lemma {:induction false} TrimEndKeeps(front: string, x: string, p: string) returns (y: string)
    requires p != [] && front != [] && front[|front| - 1] !in p
    ensures TrimEndMatches(front + x, p) == front + y
    decreases |x|
  {
    var s := front + x;
    if |s| >= |p| && EndsWith(s, p) {
      NoOverlap(front, x, p);
      assert s[..|s| - |p|] == front + x[..|x| - |p|];
      y := TrimEndKeeps(front, x[..|x| - |p|], p);
    } else {
      y := x;
    }
  }

  lemma MiddleThen(version: string, hash: string, rest: string)
    requires Version(version) && Hex(hash) && rest != [] && IsSpace(rest[0])
    ensures var first := NextWord(Middle(version, hash) + rest);
      first.0 == "v" + version && NextWord(first.1).0 == "sha256:" + hash
  {
    var a, b := "v" + version, "sha256:" + hash;
    MiddleParts(version, hash);
    assert Middle(version, hash) + rest == a + (" " + (b + rest));
    OneWord(a, " " + (b + rest));
    OneWord(b, rest);
    assert (" " + (b + rest))[1..] == b + rest;
    assert TrimStart(" " + (b + rest)) == TrimStart(b + rest);
  }

  /** A header line that goes on over other lines is read like the printed one. */
  lemma LongHeaderRead(begin: string, version: string, hash: string, more: string)
    requires Marker(begin) && Version(version) && Hex(hash)
    ensures HeaderWords(begin + (Middle(version, hash) + ("\n" + more)), begin) == ("v" + version, "sha256:" + hash)
  {
    var middle := Middle(version, hash);
    var text := middle + ("\n" + more);
    MiddleChars(version, hash);
    assert !StartsWith(text, begin) by {
      if |text| >= |begin| {
        assert text[0..|begin|][0] == 'v';
      }
    }
    TrimStartOnce(begin, text);
    assert text == (middle + "\n") + more;
    var y := TrimEndKeeps(middle + "\n", more, " -->");
    assert (middle + "\n") + y == middle + ("\n" + y);
    MiddleThen(version, hash, "\n" + y);
  }

  /** A begin line without its arrow, up to the arrow of the end marker. */
  function OpenLine(begin: string, version: string, hash: string, body: string, endFront: string): string {
    begin + (Middle(version, hash) + ("\n" + (body + ("\n" + endFront))))
  }

  lemma NoArrow(a: string, rest: string)
    requires '>' !in a && a != [] && a[|a| - 1] == '\n'
    ensures NoStart(a, rest, "-->")
  {
    forall j | 0 <= j < |a| ensures !HasAt(a + rest, "-->", j) {
      if j + 3 <= |a + rest| {
        if j + 2 < |a| {
          assert (a + rest)[j..j + 3][2] == a[j + 2];
        } else {
          assert (a + rest)[j..j + 3][|a| - 1 - j] == '\n';
        }
      }
    }
  }

  lemma OpenLineArrow(begin: string, version: string, hash: string, body: string, endFront: string, after: string)
    requires Marker(begin) && '>' !in begin && Version(version) && Hex(hash)
    requires !Contains(body, "-->") && '>' !in endFront
    ensures var line := OpenLine(begin, version, hash, body, endFront);
      Find(line + ("-->" + after), "-->") == Some(|line|)
  {
    MiddleChars(version, hash);
    var arrow, head := "-->", begin + (Middle(version, hash) + "\n");
    var rest := arrow + after;
    var tail := "\n" + endFront;
    assert '>' !in tail;
    assert NoStart(tail, rest, arrow) by {
      forall j | 0 <= j < |tail| ensures !HasAt(tail + rest, arrow, j) {
        if j + 3 <= |tail + rest| {
          assert (tail + rest)[j..j + 3][2] == if j + 2 < |tail| then tail[j + 2] else '-';
        }
      }
    }
    NoStartFree(body, tail + rest, arrow);
    NoStartConcat(body, tail, rest, arrow);
    assert '>' !in head;
    NoArrow(head, (body + tail) + rest);
    NoStartConcat(head, body + tail, rest, arrow);
    assert head + (body + tail) == OpenLine(begin, version, hash, body, endFront);
    FindAfter(head + (body + tail), arrow, after);
  }

  lemma OpenLineLocated(before: string, begin: string, version: string, hash: string, body: string, endFront: string,
                        after: string)
    requires Marker(begin) && '>' !in begin && Version(version) && Hex(hash) && !Contains(before, begin)
    requires !Contains(body, "-->") && '>' !in endFront
    ensures var h := OpenLine(begin, version, hash, body, endFront) + "-->";
      LocateHeader(before + (h + after), begin)
      == FoundAt(|before|, |before| + |h|, ("v" + version, "sha256:" + hash))
  {
    var line := OpenLine(begin, version, hash, body, endFront);
    var h, more := line + "-->", body + ("\n" + endFront) + "-->";
    OpenLineArrow(begin, version, hash, body, endFront, after);
    Assoc(line, "-->", after);
    assert h == begin + (Middle(version, hash) + ("\n" + more));
    LongHeaderRead(begin, version, hash, more);
    var rest := Middle(version, hash) + ("\n" + more) + after;
    assert h + after == begin + rest;
    NoStartFree(before, begin + rest, begin);
    FindAfter(before, begin, rest);
    LastPart(before, h + after);
    FirstPart(h, after);
    LocatedFrom(before + (h + after), begin, |before|, h + after, h, ("v" + version, "sha256:" + hash));
  }

  lemma EndParts()
    ensures '>' !in END[..|END| - 3] && END == END[..|END| - 3] + "-->"
  {
  }

  lemma EndWithin(before: string, line: string, end: string, endFront: string, after: string)
    requires end == endFront + "-->" && EndsWith(line, endFront)
    ensures Find(before + ((line + "-->") + after), end).Some?
    ensures Find(before + ((line + "-->") + after), end).value <= |before| + |line| - |endFront|
  {
    var s, k := before + ((line + "-->") + after), |line| - |endFront|;
    assert line == line[..k] + endFront by {
      assert line[k..k + |endFront|] == endFront;
    }
    assert s == (before + line[..k]) + (end + after);
    assert s[|before| + k..|before| + k + |end|] == end;
    assert HasAt(s, end, |before| + k);
  }

  lemma OpenLineEnds(begin: string, version: string, hash: string, body: string, endFront: string)
    ensures EndsWith(OpenLine(begin, version, hash, body, endFront), endFront)
  {
    var line := OpenLine(begin, version, hash, body, endFront);
    var front := begin + (Middle(version, hash) + ("\n" + (body + "\n")));
    assert line == front + endFront;
    assert line[|front|..|front| + |endFront|] == endFront;
  }

  /** A begin line that has lost its arrow: with no other arrow in the body the parse panics, though
      nothing is wrong in front of the block. */
  lemma LostArrowPanics(before: string, version: string, hash: string, body: string, after: string)
    requires Version(version) && Hex(hash) && !Contains(before, BEGIN) && !Contains(body, "-->")
    ensures var line := BEGIN + (Middle(version, hash) + ("\n" + (body + ("\n" + END))));
      ParseAgentsBlock(before + (line + after)) == Panics
  {
    var endFront := END[..|END| - 3];
    var line := OpenLine(BEGIN, version, hash, body, endFront);
    EndParts();
    BeginIsMarker();
    OpenLineLocated(before, BEGIN, version, hash, body, endFront, after);
    OpenLineEnds(BEGIN, version, hash, body, endFront);
    EndWithin(before, line, END, endFront, after);
    WholeLine(BEGIN, version, hash, body, endFront, "-->");
    PanicsIff(before + ((line + "-->") + after));
  }

  lemma WholeLine(begin: string, version: string, hash: string, body: string, endFront: string, arrow: string)
    ensures OpenLine(begin, version, hash, body, endFront) + arrow
         == begin + (Middle(version, hash) + ("\n" + (body + ("\n" + (endFront + arrow)))))
  {
  }

  // ---------------------------------------------------------------- what a parsed block says of its text

  lemma MarkedShape(source: string, begin: string, end: string)
    requires begin != [] && end != [] && ParseMarked(source, begin, end).Parsed?
    ensures var b := ParseMarked(source, begin, end).block;
      b.beginPos < b.endPos <= |source| && ClearOf(source[..b.beginPos], begin, end)
  {
    var at := Find(source, begin).value;
    FreeBefore(source, begin, at);
    FreeBefore(source, end, at);
  }

  /** Whatever text a block was found in, there is no marker in front of it. */
  lemma ParsedShape(source: string)
    requires ParseAgentsBlock(source).Parsed?
    ensures var b := ParseAgentsBlock(source).block;
      b.beginPos < b.endPos <= |source| && Clear(source[..b.beginPos])
  {
    MarkerFacts();
    MarkedShape(source, BEGIN, END);
  }
}
