/** New migrations and `jobs init` on module files of any text: when the macro really lists them. */
module MigrationsByHand {
  import opened Wrappers
  import opened Text
  import opened Comments
  import opened MigrationsFile
  import opened MigrationsRuns
  import opened MigrationsRead
  import opened MigrationsList

  // ---------------------------------------------------------------- the exact condition

  function ListOf(text: string): Span {
    SpanOf(text, MACRO)
  }

  /** The macro is written with one blank and a brace and is closed, no brace stands behind its own,
      not even in a comment, and its last item, if any, has its comma. */
  predicate Ready(content: string) {
    var list := ListOf(content);
    list.Span? && '}' !in list.rest && CommaLast(list.inner)
  }

  function ItemsOfSpan(span: Span): seq<string> {
    if span.Span? then Items(span.inner) else []
  }

  lemma ListedItems(text: string, word: string)
    ensures ItemsAfter(Visible(text), word) == ItemsOfSpan(SpanOf(text, word))
  {
  }

  function ItemsThere(span: Span, m: string): seq<string>
    requires span.Span?
  {
    if '}' in span.rest then Items(span.inner) else Items(span.inner + EntryLine(m))
  }

  lemma ListedAt(text: string, word: string, span: Span, m: string)
    requires Name(m) && MacroWord(word) && SpanOf(text, word) == span && span.Span?
    ensures ItemsAfter(Visible(InsertEntry(text, word, m)), word) == ItemsThere(span, m)
  {
    ItemsAfterInsert(text, word, span.from, span.close, m);
  }

  /** Behind new head lines, what the macro lists once an entry has been added. */
  lemma ListedBehind(front: string, content: string, word: string, span: Span, m: string)
    requires Name(m) && HeadOnly(front) && MacroWord(word) && SpanOf(content, word) == span && span.Span?
    ensures ItemsAfter(Visible(InsertEntry(front + content, word, m)), word) == ItemsThere(span, m)
  {
    ListBehind(front, content, word);
    ListedAt(front + content, word, Moved(span, |front|), m);
  }

  lemma ListedAfter(front: string, content: string, m: string)
    requires Name(m) && HeadOnly(front) && ListOf(content).Span?
    ensures MacroEntries(AddToMigrationsMacro(front + content, m)) == ItemsThere(ListOf(content), m)
    ensures MacroEntries(content) == Items(ListOf(content).inner)
  {
    MacroIsWord();
    ListedItems(content, MACRO);
    ListedBehind(front, content, MACRO, ListOf(content), m);
  }

  /** Behind new head lines an entry is listed exactly when the file is ready for it. */
  lemma ListedIff(front: string, content: string, m: string)
    requires Name(m) && HeadOnly(front)
    ensures (ListOf(content).Span?
             && MacroEntries(AddToMigrationsMacro(front + content, m)) == MacroEntries(content) + [m])
       <==> Ready(content)
  {
    if ListOf(content).Span? {
      ListedAfter(front, content, m);
      GrowsIff(ListOf(content).inner, m);
    }
  }

  lemma ModLineIsHead(m: string)
    requires Name(m)
    ensures HeadOnly(ModLine(m))
  {
    ModLineEnds(m);
    assert NoMarks(m) by {
      assert !NameChar('/') && !NameChar('"');
    }
  }

  /** Only a file that mentions the macro can list anything. */
  lemma ListMentions(content: string)
    requires ListOf(content).Span?
    ensures Contains(content, MACRO) && Contains(content, MACRO_NAME)
  {
    MacroIsWord();
    MacroFacts();
    WordMentioned(content, MACRO, MACRO_NAME);
  }

  lemma WordMentioned(content: string, word: string, name: string)
    requires SpanOf(content, word).Span? && BLANK !in word
    requires |name| < |word| && word[..|name|] == name
    ensures Contains(content, word) && Contains(content, name)
  {
    var i := Find(Visible(content), word).value;
    WordShown(content, word, i);
    PrefixAt(content, word, name, i);
  }

  lemma PrefixAt(text: string, word: string, name: string, i: nat)
    requires HasAt(text, word, i) && |name| < |word| && word[..|name|] == name
    ensures HasAt(text, name, i) && Contains(text, word) && Contains(text, name)
  {
    assert word == text[i..i + |word|];
    assert text[i..i + |name|] == text[i..i + |word|][..|name|] == word[..|name|];
    assert HasAt(text, name, i);
    ContainsIff(text, word);
    ContainsIff(text, name);
  }

  /** Whatever the file holds, a new migration is listed by a macro that is closed, after the entries
      that were there, exactly when the file is ready for it. */
  lemma MigrationListedIff(content: string, m: string)
    requires Name(m)
    ensures (ListOf(content).Span? && MacroEntries(UpdateModRs(Some(content), m)) == MacroEntries(content) + [m])
       <==> Ready(content)
  {
    if ListOf(content).Span? {
      ListMentions(content);
      ModLineIsHead(m);
      ListedIff(ModLine(m), content, m);
    }
  }

  lemma PutBehind(front: string, content: string, c: nat, e: string)
    requires c <= |content|
    ensures PutBefore(front + content, |front| + c, e) == front + PutBefore(content, c, e)
  {
    assert (front + content)[..|front| + c] == front + content[..c];
  }

  lemma PlacedAt(text: string, word: string, span: Span, m: string, put: string)
    requires Name(m) && MacroWord(word) && SpanOf(text, word) == span && span.Span?
    requires span.close <= |text| && put == PutBefore(text, span.close, EntryLine(m))
    ensures InsertEntry(text, word, m) == put <==> '}' !in span.rest
  {
    PlacedIff(text, word, span.from, span.close, m);
  }

  lemma PlacedBehind(front: string, content: string, word: string, span: Span, close: nat, m: string)
    requires Name(m) && MacroWord(word) && SpanOf(front + content, word) == span && span.Span?
    requires close <= |content| && span.close == |front| + close
    ensures InsertEntry(front + content, word, m) == front + PutBefore(content, close, EntryLine(m))
       <==> '}' !in span.rest
  {
    PutBehind(front, content, close, EntryLine(m));
    PlacedAt(front + content, word, span, m, front + PutBefore(content, close, EntryLine(m)));
  }

  lemma CloseWithin(text: string, word: string)
    requires SpanOf(text, word).Span?
    ensures SpanOf(text, word).close < |text|
  {
  }

  /** The entry line stands right before the brace that closes the macro exactly when the macro is
      found and closed, and no brace stands behind that, not even in a comment. */
  lemma EntryPlacedIff(content: string, m: string)
    requires Contains(content, MACRO_NAME) && Name(m)
    ensures var list := ListOf(content);
      (list.Span? && list.close <= |content|
       && UpdateModRs(Some(content), m) == ModLine(m) + PutBefore(content, list.close, EntryLine(m)))
      <==> (list.Span? && '}' !in list.rest)
  {
    MacroIsWord();
    ModLineIsHead(m);
    var list := ListOf(content);
    if list.Span? {
      CloseWithin(content, MACRO);
      ListBehind(ModLine(m), content, MACRO);
      PlacedBehind(ModLine(m), content, MACRO, Moved(list, |ModLine(m)|), list.close, m);
    }
  }

  /** What follows the closing brace does not change the list. */
  lemma ListLonger(closed: string, tail: string, word: string)
    requires SpanOf(closed, word).Span? && MacroWord(word)
    ensures var span := SpanOf(closed, word);
      SpanOf(closed + tail, word) == span.(rest := span.rest + tail)
  {
    var (f, c) := CloseAt(Visible(closed), word).value;
    Halves(closed, c + 1);
    Assoc(closed[..c + 1], closed[c + 1..], tail);
    ListUpTo(closed, word, f, c, closed[c + 1..] + tail);
    assert (closed + tail)[c + 1..] == closed[c + 1..] + tail;
  }

  /** A file written by hand on which it holds, whatever the comment behind the last comma says. */
  lemma CommentedEntry(m: string, note: string)
    requires Name(m) && '\n' !in note
    ensures var content := MACRO + ("\n    " + (m + ", ")) + ("//" + (note + "\n}\n"));
      Ready(content) && MacroEntries(content) == [m]
  {
    MacroPlain();
    NameIsPlain(m);
    CommentItems(m, Blanks(|note| + 2) + "\n");
    assert "\n}\n" == "\n" + "}\n";
    CommentedList(MACRO, "\n    " + (m + ", "), note, "}\n");
    ListedItems(MACRO + ("\n    " + (m + ", ")) + ("//" + (note + "\n}\n")), MACRO);
  }

  lemma CommentedList(word: string, list: string, note: string, end: string)
    requires NoMarks(word) && NoMarks(list) && '}' !in list && '\n' !in note && end == "}\n"
    ensures var inner := list + (Blanks(|note| + 2) + "\n");
      SpanOf(word + list + ("//" + (note + ("\n" + end))), word) == Span(|word|, |word| + |inner|, inner, "\n")
  {
    var gap := Blanks(|note| + 2) + "\n";
    var text := word + list + ("//" + (note + ("\n" + end)));
    CommentVisible(word + list, note, end);
    CommentLayout(word, list, gap, end);
    EndOf(word + list, note, end, |word| + |list + gap|);
    SpanFound(Visible(text), text, word, list + gap, "\n");
  }

  lemma CommentVisible(x: string, note: string, end: string)
    requires NoMarks(x) && '\n' !in note && end == "}\n"
    ensures Visible(x + ("//" + (note + ("\n" + end)))) == x + ((Blanks(|note| + 2) + "\n") + end)
  {
    CommentBlanked(x, note, end);
    PlainVisible(end);
    Assoc(Blanks(|note| + 2), "\n", end);
  }

  lemma SpanFound(v: string, text: string, word: string, inner: string, rest: string)
    requires v == word + (inner + ("}" + "\n")) && '}' !in inner && |text| == |v|
    requires text[|word| + |inner| + 1..] == rest
    ensures SpanIn(v, text, word) == Span(|word|, |word| + |inner|, inner, rest)
  {
    WordFirst(word, inner, "\n");
  }

  lemma CommentLayout(word: string, list: string, gap: string, end: string)
    requires end == "}\n"
    ensures word + list + (gap + end) == word + ((list + gap) + ("}" + "\n"))
  {
    assert "}" + "\n" == end;
  }

  lemma EndOf(front: string, note: string, end: string, c: nat)
    requires end == "}\n" && c == |front| + |note| + 3
    ensures (front + ("//" + (note + ("\n" + end))))[c + 1..] == "\n"
  {
    assert (front + ("//" + (note + ("\n" + end)))) == (front + "//" + note + "\n" + "}") + "\n";
  }

  lemma NameIsPlain(m: string)
    requires Name(m)
    ensures NoMarks(m) && '}' !in m && ',' !in m
  {
    assert !NameChar('/') && !NameChar('"') && !NameChar('}') && !NameChar(',');
  }

  lemma CommentItems(m: string, blanks: string)
    requires Name(m) && AllSpace(blanks)
    ensures var inner := "\n    " + (m + ", ") + blanks;
      Items(inner) == [m] && CommaLast(inner) && '}' !in inner
  {
    var head, tail := "\n    " + m, " " + blanks;
    ItemTrimmed(m);
    NameIsPlain(m);
    assert "\n    " + (m + ", ") + blanks == head + [','] + tail;
    assert ',' !in tail && '}' !in tail;
    SplitStep(head, tail, ',');
    SplitNone(tail, ',');
    TrimAllSpace(tail);
    TrimAllCons(head, [tail]);
    TrimAllCons(tail, []);
  }

  lemma WordFirst(word: string, inner: string, rest: string)
    requires '}' !in inner
    ensures var text := word + (inner + ("}" + rest));
      CloseAt(text, word) == Some((|word|, |word| + |inner|)) && text[|word|..|word| + |inner|] == inner
  {
    FoundAtStart(word, inner + ("}" + rest));
    FirstBehind([], word, inner, rest, word + (inner + ("}" + rest)));
  }

  lemma FirstBehind(a: string, word: string, inner: string, rest: string, text: string)
    requires a == [] && text == word + (inner + ("}" + rest)) && '}' !in inner && Find(text, word) == Some(0)
    ensures CloseAt(text, word) == Some((|word|, |word| + |inner|)) && text[|word|..|word| + |inner|] == inner
  {
    assert text == a + text;
    Inside(a, word, inner, rest);
    CloseIs(a, word, inner, rest);
  }

  lemma FoundAtStart(word: string, rest: string)
    ensures Find(word + rest, word) == Some(0)
  {
    assert (word + rest)[0..|word|] == word;
    FindIs(word + rest, word, 0);
  }

  /** A file on which it fails: a brace that closes later takes the entry, and the macro never lists it. */
  lemma LaterBraceTakesEntry(closed: string, more: string, m: string)
    requires ListOf(closed).Span? && Name(m)
    ensures var content := closed + (more + "}\n");
      !Ready(content) && MacroEntries(UpdateModRs(Some(content), m)) == MacroEntries(closed) == MacroEntries(content)
  {
    var content, rest := closed + (more + "}\n"), ListOf(closed).rest;
    MacroIsWord();
    ListLonger(closed, more + "}\n", MACRO);
    assert (rest + (more + "}\n"))[|rest| + |more|] == '}';
    ListMentions(content);
    ModLineIsHead(m);
    ListedAfter(ModLine(m), content, m);
    ListedAfter(ModLine(m), closed, m);
  }

  /** Another: without a comma after the last entry, the new one runs into it, over any blanks and
      comments between them. */
  lemma MissingCommaMerges(content: string, m: string) returns (gap: string)
    requires Name(m) && ListOf(content).Span?
    requires '}' !in ListOf(content).rest && !CommaLast(ListOf(content).inner)
    ensures AllSpace(gap) && gap != []
    ensures var es := MacroEntries(content);
      es != [] && MacroEntries(UpdateModRs(Some(content), m)) == es[..|es| - 1] + [es[|es| - 1] + (gap + m)]
  {
    ListMentions(content);
    ModLineIsHead(m);
    ListedAfter(ModLine(m), content, m);
    gap := ItemsThen(ListOf(content).inner, m);
  }

  // ---------------------------------------------------------------- jobs init

  /** On any file that does not mention the jobs migration, `jobs init` gets it listed exactly when
      the file is ready; a file without the macro only gets the import. */
  lemma JobsListedIff(content: string)
    requires !IsAlreadyConfigured(content)
    ensures (ListOf(content).Span? && MacroEntries(InitJobs(Some(content))) == MacroEntries(content) + [JOBS])
       <==> Ready(content)
    ensures !Contains(content, MACRO) ==> InitJobs(Some(content)) == USE_JOBS + content
  {
    UseFacts();
    UseIsHead();
    ListedIff(USE_JOBS, content, JOBS);
    MacroIsWord();
    FindBehind(USE_JOBS, content, MACRO);
  }

  // what is listed comes from the text

  lemma HasAtPart(s: string, a: nat, b: nat, p: string, q: nat)
    requires a <= b <= |s| && HasAt(s[a..b], p, q)
    ensures a + q + |p| <= b && HasAt(s, p, a + q)
  {
    SliceOfSlice(s, a, b, q, q + |p|);
  }

  lemma SliceOfSlice(s: string, a: nat, b: nat, i: nat, j: nat)
    requires a <= b <= |s| && i <= j <= b - a
    ensures s[a..b][i..j] == s[a + i..a + j]
  {
    var t := s[a..b];
    assert forall k :: i <= k < j ==> t[k] == s[a + k];
  }

  lemma MiddleAt(before: string, t: string, after: string)
    ensures HasAt(before + t + after, t, |before|)
  {
    assert (before + t + after)[|before|..|before| + |t|] == t;
  }

  lemma TrimWithin(s: string) returns (q: nat)
    ensures HasAt(s, Trim(s), q)
  {
    var before, after := TrimShape(s);
    q := |before|;
    MiddleAt(before, Trim(s), after);
  }

  lemma {:induction false} SplitWithin(s: string, c: char, i: nat) returns (q: nat)
    requires i < |Split(s, c)|
    ensures HasAt(s, Split(s, c)[i], q)
    decreases |s|
  {
    var n := CharPos(s, c);
    if n == |s| {
      q := 0;
      assert s[0..|s|] == s;
    } else if i == 0 {
      q := 0;
      assert s[0..n] == s[..n];
    } else {
      var tail := s[n + 1..];
      var r := SplitWithin(tail, c, i - 1);
      assert Split(s, c)[i] == Split(tail, c)[i - 1];
      q := AtTail(s, n + 1, Split(tail, c)[i - 1], r);
    }
  }

  lemma AtTail(s: string, k: nat, p: string, r: nat) returns (q: nat)
    requires k <= |s| && HasAt(s[k..], p, r)
    ensures HasAt(s, p, q)
  {
    assert s[k..] == s[k..|s|];
    HasAtPart(s, k, |s|, p, r);
    q := k + r;
  }

  lemma {:induction false} TrimAllAt(parts: seq<string>, i: nat)
    requires i < |parts|
    ensures TrimAll(parts)[i] == Trim(parts[i])
  {
    if i > 0 {
      TrimAllAt(parts[1..], i - 1);
    }
  }

  lemma TrimmedWithin(s: string, piece: string, k: nat) returns (q: nat)
    requires HasAt(s, piece, k)
    ensures HasAt(s, Trim(piece), q)
  {
    var r := TrimWithin(piece);
    HasAtPart(s, k, k + |piece|, Trim(piece), r);
    q := k + r;
  }

  lemma ItemWithin(inner: string, item: string) returns (q: nat)
    requires item in Items(inner)
    ensures HasAt(inner, item, q)
  {
    var parts := Split(inner, ',');
    var i :| 0 <= i < |Items(inner)| && Items(inner)[i] == item;
    TrimAllAt(parts, i);
    var k := SplitWithin(inner, ',', i);
    q := TrimmedWithin(inner, parts[i], k);
  }

  /** An entry that is listed stands in the text, between the macro's braces. */
  lemma ListedStands(text: string, word: string, f: nat, c: nat, item: string) returns (q: nat)
    requires BLANK !in item && CloseAt(Visible(text), word) == Some((f, c)) && item in ItemsAfter(Visible(text), word)
    ensures f <= q && q + |item| <= c && HasAt(Visible(text), item, q) && HasAt(text, item, q)
  {
    q := StandsBetween(Visible(text), f, c, item);
    WordShown(text, item, q);
  }

  lemma StandsBetween(v: string, f: nat, c: nat, item: string) returns (q: nat)
    requires f <= c <= |v| && item in Items(v[f..c])
    ensures f <= q && q + |item| <= c && HasAt(v, item, q)
  {
    var r := ItemWithin(v[f..c], item);
    HasAtPart(v, f, c, item, r);
    q := f + r;
  }

  // an entry put into a macro that is not closed is never listed

  lemma ClosedSomewhere(v: string, word: string, i: nat, p: nat)
    requires HasAt(v, word, i) && i + |word| <= p < |v| && v[p] == '}'
    ensures CloseAt(v, word).Some?
  {
    var from := Find(v, word).value + |word|;
    assert v[from..][p - from] == '}';
    CharPosUpTo(v[from..], '}', p - from);
  }

  lemma {:induction false} CharPosUpTo(s: string, c: char, k: nat)
    requires k < |s| && s[k] == c
    ensures CharPos(s, c) <= k
  {
    if s[0] != c {
      CharPosUpTo(s[1..], c, k - 1);
    }
  }

  /** Four blanks in front of a character of code are code. */
  lemma BlanksShown(text: string, p: nat)
    requires p + 4 < |text| && text[p..p + 4] == "    " && Shown(Visible(text)[p + 4])
    ensures Visible(text)[p] == ' '
  {
    assert forall k :: p <= k < p + 4 ==> text[k] == text[p..p + 4][k - p];
    BlankShown(Code, text, p + 4);
    BlankShown(Code, text, p + 3);
    BlankShown(Code, text, p + 2);
    BlankShown(Code, text, p + 1);
  }

  lemma EntryAt(text: string, p: nat, m: string)
    requires p <= |text|
    ensures var put := PutBefore(text, p, EntryLine(m));
      && |put| == |text| + |m| + 6 && put[..p] == text[..p] && put[p..p + 4] == "    "
      && put[p + 4..p + 4 + |m|] == m && put[p + 4 + |m|] == ',' && put[p + 5 + |m|] == '\n'
      && put[p + 6 + |m|..] == text[p..]
  {
    var e := EntryLine(m);
    assert e[..4] == "    " && e[4..4 + |m|] == m && e[4 + |m|] == ',' && e[5 + |m|] == '\n';
    PutSlices(text, p, e);
    var put := PutBefore(text, p, e);
    SliceOfSlice(put, p, p + |e|, 0, 4);
    SliceOfSlice(put, p, p + |e|, 4, 4 + |m|);
    assert put[p + 4 + |m|] == put[p..p + |e|][4 + |m|] && put[p + 5 + |m|] == put[p..p + |e|][5 + |m|];
  }

  lemma PutSlices(text: string, p: nat, e: string)
    requires p <= |text|
    ensures var put := PutBefore(text, p, e);
      |put| == |text| + |e| && put[..p] == text[..p] && put[p..p + |e|] == e && put[p + |e|..] == text[p..]
  {
  }

  /** If the entry shows as code, so did the brace in front of which it was put. */
  lemma EntryShown(text: string, p: nat, put: string, m: string)
    requires p < |text| && text[p] == '}' && Name(m) && put == PutBefore(text, p, EntryLine(m))
    requires HasAt(Visible(put), m, p + 4)
    ensures Visible(text)[..p] == Visible(put)[..p] && Visible(text)[p] == '}'
  {
    EntryAt(text, p, m);
    FirstOfEntry(Visible(put), p + 4, m);
    BlanksShown(put, p);
    CutShown(Code, put, p, text[p..]);
    Halves(text, p);
    CodeAt(text, p);
  }

  /** A macro that opens in front of the entry opened there before. */
  lemma OpensBefore(text: string, p: nat, put: string, m: string, word: string, i: nat)
    requires p <= |text| && put == PutBefore(text, p, EntryLine(m)) && MacroWord(word)
    requires HasAt(Visible(put), word, i) && i + |word| <= p + 4
    ensures i + |word| <= p
  {
    EntryBlanks(text, p, m);
    WordShown(put, word, i);
    LastOfWord(put, word, i);
  }

  lemma EntryBlanks(text: string, p: nat, m: string)
    requires p <= |text|
    ensures var put := PutBefore(text, p, EntryLine(m));
      |put| > p + 4 && forall k :: p <= k < p + 4 ==> put[k] == ' '
  {
    EntryAt(text, p, m);
    var put := PutBefore(text, p, EntryLine(m));
    assert forall k :: p <= k < p + 4 ==> put[k] == put[p..p + 4][k - p];
  }

  /** If the entry shows as code behind an opened macro, the brace in front of which it was put closed
      that macro before. */
  lemma OpenBefore(text: string, p: nat, put: string, word: string, f: nat, c: nat, m: string)
    requires p < |text| && text[p] == '}' && Name(m) && MacroWord(word) && put == PutBefore(text, p, EntryLine(m))
    requires CloseAt(Visible(put), word) == Some((f, c)) && f <= p + 4
    requires HasAt(Visible(put), m, p + 4)
    ensures CloseAt(Visible(text), word).Some?
  {
    EntryShown(text, p, put, m);
    OpensBefore(text, p, put, m, word, f - |word|);
    WordKept(Visible(put), Visible(text), word, f - |word|, p);
    ClosedSomewhere(Visible(text), word, f - |word|, p);
  }

  lemma CodeAt(text: string, p: nat)
    requires p < |text| && text[p] == '}'
    ensures |Blanked(Code, text[p..])| > 0 && Blanked(Code, text[p..])[0] == '}'
  {
    assert text[p..][0] == '}';
  }

  lemma FirstOfEntry(v: string, k: nat, m: string)
    requires HasAt(v, m, k) && Name(m)
    ensures k < |v| && Shown(v[k])
  {
    assert v[k..k + |m|][0] == v[k] && NameChar(m[0]);
  }

  lemma LastOfWord(text: string, word: string, i: nat)
    requires HasAt(text, word, i) && MacroWord(word)
    ensures text[i + |word| - 1] == '{'
  {
    assert text[i..i + |word|][|word| - 1] == text[i + |word| - 1];
  }

  lemma WordKept(v: string, w: string, word: string, i: nat, p: nat)
    requires HasAt(v, word, i) && i + |word| <= p <= |v| && p <= |w| && v[..p] == w[..p]
    ensures HasAt(w, word, i)
  {
    assert v[i..i + |word|] == v[..p][i..i + |word|] && w[i..i + |word|] == w[..p][i..i + |word|];
  }

  /** A name found after an insertion stood there before, or is the new entry. */
  lemma OldOrNew(text: string, p: nat, m: string, q: nat) returns (k: nat)
    requires p <= |text| && Name(m) && HasAt(PutBefore(text, p, EntryLine(m)), m, q)
    ensures q == p + 4 || (HasAt(text, m, k) && (k == q <= p || p <= k < q))
  {
    var put := PutBefore(text, p, EntryLine(m));
    EntryAt(text, p, m);
    k := q;
    if q + |m| <= p {
      WordKept(put, text, m, q, p);
    } else if q >= p + 6 + |m| {
      k := q - 6 - |m|;
      assert put[q..q + |m|] == put[p + 6 + |m|..][q - p - 6 - |m|..q - p - 6];
      assert text[p..][k - p..k - p + |m|] == text[k..k + |m|];
    } else {
      NameCharsAt(put, m, q);
      assert put[p] == put[p..p + 4][0] && put[p + 1] == put[p..p + 4][1];
      assert put[p + 2] == put[p..p + 4][2] && put[p + 3] == put[p..p + 4][3];
    }
  }

  lemma NameCharsAt(text: string, m: string, q: nat)
    requires HasAt(text, m, q) && Name(m)
    ensures forall j :: q <= j < q + |m| ==> text[j] != ' ' && text[j] != ',' && text[j] != '\n'
  {
    forall j | q <= j < q + |m| ensures NameChar(text[j]) {
      assert text[j] == text[q..q + |m|][j - q] == m[j - q];
    }
  }

  lemma PutSomewhere(text: string, word: string, m: string) returns (p: nat)
    requires InsertEntry(text, word, m) != text
    ensures Find(text, word).Some? && Find(text, word).value <= p < |text| && text[p] == '}'
    ensures InsertEntry(text, word, m) == PutBefore(text, p, EntryLine(m))
  {
    var i := Find(text, word).value;
    p := i + RFindChar(text[i..], '}').value;
    assert text[p] == text[i..][p - i];
    Assoc(text[..p], EntryLine(m), text[p..]);
  }

  lemma NotBehind(front: string, content: string, m: string, k: nat)
    requires HasAt(front + content, m, k) && |front| <= k
    ensures Contains(content, m)
  {
    assert (front + content)[k..k + |m|] == content[k - |front|..k - |front| + |m|];
    assert HasAt(content, m, k - |front|);
    ContainsIff(content, m);
  }

  lemma NotListed(front: string, content: string, word: string, m: string)
    requires HeadOnly(front) && MacroWord(word) && Name(m) && SpanOf(content, word) == NoList && !Contains(content, m)
    ensures m !in ItemsAfter(Visible(InsertEntry(front + content, word, m)), word)
  {
    var after := InsertEntry(front + content, word, m);
    ListBehind(front, content, word);
    if after != front + content && CloseAt(Visible(after), word).Some? && m in ItemsAfter(Visible(after), word) {
      var p := PutSomewhere(front + content, word, m);
      var (f, c) := CloseAt(Visible(after), word).value;
      NameNotBlank(m);
      var q := ListedStands(after, word, f, c, m);
      MacroBehind(front, content, word, p, m, f, c);
      ClosedBefore(front, content, p, after, word, f, c, m, q);
    }
  }

  lemma ClosedBefore(front: string, content: string, p: nat, put: string, word: string, f: nat, c: nat, m: string,
                     q: nat)
    requires Name(m) && MacroWord(word)
    requires |front| <= p < |front + content| && (front + content)[p] == '}'
    requires put == PutBefore(front + content, p, EntryLine(m)) && CloseAt(Visible(put), word) == Some((f, c))
    requires |front| <= f <= q && HasAt(Visible(put), m, q) && HasAt(put, m, q)
    ensures Contains(content, m) || CloseAt(Visible(front + content), word).Some?
  {
    var k := OldOrNew(front + content, p, m, q);
    if q == p + 4 {
      OpenBefore(front + content, p, put, word, f, c, m);
    } else {
      NotBehind(front, content, m, k);
    }
  }

  lemma NameNotBlank(m: string)
    requires Name(m)
    ensures BLANK !in m
  {
    assert !NameChar(BLANK);
  }

  lemma MacroBehind(front: string, content: string, word: string, p: nat, m: string, f: nat, c: nat)
    requires HeadOnly(front) && MacroWord(word)
    requires Find(front + content, word).Some? && Find(front + content, word).value <= p < |front + content|
    requires CloseAt(Visible(PutBefore(front + content, p, EntryLine(m))), word) == Some((f, c))
    ensures |front| <= p && |front| <= f
  {
    var text, put := front + content, PutBefore(front + content, p, EntryLine(m));
    FindBehind(front, content, word);
    WordShown(put, word, f - |word|);
    LastOfWord(put, word, f - |word|);
    PutSlices(text, p, EntryLine(m));
    assert put[..|front|] == put[..p][..|front|] == front;
    assert forall j :: 0 <= j < |front| ==> put[j] == front[j];
  }

  lemma NothingStands(content: string, m: string)
    requires Name(m) && !Contains(content, m)
    ensures m !in MacroEntries(content)
  {
    if m in MacroEntries(content) {
      var (f, c) := CloseAt(Visible(content), MACRO).value;
      NameNotBlank(m);
      var q := ListedStands(content, MACRO, f, c, m);
      ContainsIff(content, m);
    }
  }

  /** An item that takes up the entry of another is no longer that entry. */
  lemma MergedIsOther(es: seq<string>, gap: string, m: string)
    requires es != [] && gap != [] && m !in es
    ensures m !in es[..|es| - 1] + [es[|es| - 1] + (gap + m)]
  {
    assert |es[|es| - 1] + (gap + m)| > |m|;
  }

  lemma JobsAfter(content: string)
    requires !IsAlreadyConfigured(content)
    ensures JOBS in MacroEntries(InitJobs(Some(content))) <==> Ready(content)
  {
    var list := ListOf(content);
    UseFacts();
    UseIsHead();
    MacroIsWord();
    NothingStands(content, JOBS);
    if list == NoList {
      NotListed(USE_JOBS, content, MACRO, JOBS);
    } else {
      ListedAfter(USE_JOBS, content, JOBS);
      if '}' !in list.rest {
        var gap := ItemsThen(list.inner, JOBS);
        if !CommaLast(list.inner) {
          MergedIsOther(Items(list.inner), gap, JOBS);
        }
      }
    }
  }

  /** After `jobs init` the macro lists the jobs migration exactly when there was no file, or it listed
      it before, or the file did not mention its name and was ready. */
  lemma JobsEntryIff(file: Option<string>)
    ensures JOBS in MacroEntries(InitJobs(file))
       <==> match file
            case None => true
            case Some(content) => JOBS in MacroEntries(content) || (!IsAlreadyConfigured(content) && Ready(content))
  {
    match file {
      case None =>
        FreshLists();
      case Some(content) =>
        if !IsAlreadyConfigured(content) {
          UseFacts();
          NothingStands(content, JOBS);
          JobsAfter(content);
        }
    }
  }

  lemma FreshLists()
    ensures MacroEntries(FreshModRs()) == [JOBS]
  {
    UseFacts();
    var es := [JOBS];
    assert es[..0] == [] && Heads([]) == [] && Entries([]) == [];
    assert Heads(es) == USE_JOBS + "\n" + [] == USE_JOBS + "\n";
    assert Entries(es) == [] + EntryLine(JOBS) == EntryLine(JOBS);
    MacroLists(es);
  }

  /** A generated file is ready for the next entry. */
  lemma LayoutReady(es: seq<string>)
    requires Names(es)
    ensures Ready(Layout(es))
  {
    HeadsHaveNoBrace(es);
    MacroFacts();
    EntriesHaveNoBrace(es);
    LayoutPlain(es);
    LaidSpan(Heads(es), MACRO, Entries(es));
    BodyIsEntries(es);
    BodyItems(es);
    LastItem(Body(es));
  }

  lemma LaidSpan(heads: string, word: string, body: string)
    requires '{' !in heads && word != [] && word[|word| - 1] == '{' && '{' !in word[..|word| - 1] && '}' !in body
    requires Visible(Laid(heads, word, body)) == Laid(heads, word, body)
    ensures var span := SpanOf(Laid(heads, word, body), word);
      span.Span? && span.inner == "\n" + body && span.rest == "\n"
  {
    LaidParts(heads, word, body);
    FindByBrace(heads, word, ("\n" + body) + ("}" + "\n"));
    SpanThere(Laid(heads, word, body), heads, word, "\n" + body, "\n");
  }

  lemma LaidParts(heads: string, word: string, body: string)
    ensures Laid(heads, word, body) == heads + (word + (("\n" + body) + ("}" + "\n")))
  {
  }

  lemma SpanThere(text: string, heads: string, word: string, inner: string, rest: string)
    requires text == heads + (word + (inner + ("}" + rest))) && '}' !in inner
    requires Visible(text) == text && Find(text, word) == Some(|heads|)
    ensures var span := SpanOf(text, word);
      span.Span? && span.inner == inner && span.rest == rest
  {
    CloseIs(heads, word, inner, rest);
    Inside(heads, word, inner, rest);
  }

  lemma LastItem(inner: string)
    requires var items := TrimAll(Split(inner, ',')); items[|items| - 1] == []
    ensures CommaLast(inner)
  {
    TrimAllAt(Split(inner, ','), |Split(inner, ',')| - 1);
  }

  lemma UseIsHead()
    ensures HeadOnly(USE_JOBS)
  {
    UseFacts();
  }

  lemma UseParts()
    ensures USE_JOBS == "use rapina::jobs::" + (JOBS + ";\n")
  {
  }

  lemma UseMentions(rest: string)
    ensures Contains(USE_JOBS + rest, JOBS)
  {
    UseParts();
    ContainsItself(JOBS);
    HasIn("use rapina::jobs::", JOBS, ";\n", JOBS);
    HasIn([], USE_JOBS, rest, JOBS);
    assert [] + (USE_JOBS + rest) == USE_JOBS + rest;
  }

  // the texts themselves

  lemma ModTexts(m: string)
    ensures ModLine(m) == "mod " + m + ";\n\n"
    ensures MACRO_NAME == "rapina::migrations!"
  {
    Assoc("mod ", m, ";\n\n");
  }

  /** What a new migration writes: a fresh file in full; in a file without the macro a declaration at the
      end and nothing else; in any other file a declaration in front. */
  lemma MigrationText(content: string, m: string)
    requires Name(m)
    ensures UpdateModRs(None, m) == "mod " + m + ";\n\nrapina::migrations! {\n    " + m + ",\n}\n"
    ensures !Contains(content, "rapina::migrations!") ==> UpdateModRs(Some(content), m) == content + "mod " + m + ";\n"
    ensures Contains(content, "rapina::migrations!") ==>
              StartsWith(UpdateModRs(Some(content), m), "mod " + m + ";\n\n")
  {
    ModTexts(m);
    FreshText(m);
    if Contains(content, "rapina::migrations!") {
      ModLineIsHead(m);
      var rest := FrontStays(ModLine(m), content, m);
      assert (ModLine(m) + rest)[0..|ModLine(m)|] == ModLine(m);
    } else {
      Assoc(content, "mod ", m + ";\n");
      Assoc(content + "mod ", m, ";\n");
    }
  }

  lemma MacroText()
    ensures MACRO + "\n" + "    " == "rapina::migrations! {\n    "
  {
  }

  lemma FreshText(m: string)
    ensures UpdateModRs(None, m) == "mod " + m + ";\n\nrapina::migrations! {\n    " + m + ",\n}\n"
  {
    ModTexts(m);
    MacroText();
    FreshParts(m, "mod ", ";\n\n", MACRO, "\n", "    ", ",\n", "}\n");
    assert ";\n\nrapina::migrations! {\n    " == ";\n\n" + "rapina::migrations! {\n    ";
    assert ",\n}\n" == ",\n" + "}\n";
  }

  lemma FreshParts(m: string, a: string, b: string, word: string, c: string, d: string, e: string, f: string)
    ensures (a + (m + b)) + (word + (c + ((d + (m + e)) + f))) == a + m + (b + (word + c + d)) + m + (e + f)
  {
    var left := (a + (m + b)) + (word + (c + ((d + (m + e)) + f)));
    var right := a + m + (b + (word + c + d)) + m + (e + f);
    assert |left| == |right|;
    assert left == a + m + b + word + c + d + m + e + f;
    assert right == a + m + b + word + c + d + m + e + f;
  }

  /** What `jobs init` writes without a file, line by line. */
  lemma JobsText()
    ensures InitJobs(None)
         == "use rapina::jobs::create_rapina_jobs;\n" + "\n" + ("rapina::migrations! {" + "\n")
            + "    create_rapina_jobs,\n" + "}\n"
  {
    JobsEntry();
    JobsParts(USE_JOBS, "rapina::migrations! {", EntryLine(JOBS));
  }

  lemma JobsEntry()
    ensures EntryLine(JOBS) == "    create_rapina_jobs,\n" && MACRO == "rapina::migrations! {"
  {
  }

  lemma JobsParts(front: string, word: string, entry: string)
    ensures Laid(front + "\n", word, entry) == front + "\n" + (word + "\n") + entry + "}\n"
  {
  }

  /** From then on the file counts as configured, listed or not: a second `jobs init` changes nothing. */
  lemma JobsInitOnce(file: Option<string>)
    ensures IsAlreadyConfigured(InitJobs(file))
    ensures InitJobs(Some(InitJobs(file))) == InitJobs(file)
  {
    match file {
      case None =>
        FreshMentions();
      case Some(content) =>
        if !IsAlreadyConfigured(content) {
          UseIsHead();
          var rest := FrontStays(USE_JOBS, content, JOBS);
          UseMentions(rest);
        }
    }
  }

  lemma FreshMentions()
    ensures Contains(FreshModRs(), JOBS)
  {
    var rest := MACRO + ("\n" + (EntryLine(JOBS) + "}\n"));
    UseMentions("\n" + rest);
    Assoc(USE_JOBS, "\n", rest);
  }

  /** An insertion leaves what stands in front of the macro as it is. */
  lemma FrontStays(front: string, content: string, m: string) returns (rest': string)
    requires HeadOnly(front)
    ensures AddToMigrationsMacro(front + content, m) == front + rest'
  {
    MacroIsWord();
    FindBehind(front, content, MACRO);
    rest' := RestBehind(front, content, MACRO, m);
  }

  lemma RestBehind(front: string, content: string, word: string, m: string) returns (rest': string)
    requires Find(front + content, word).Some? ==> Find(front + content, word).value >= |front|
    ensures InsertEntry(front + content, word, m) == front + rest'
  {
    var text := front + content;
    var after := InsertEntry(text, word, m);
    rest' := after[|front|..];
    assert text[..|front|] == front;
    if after != text {
      var p := Find(text, word).value + RFindChar(text[Find(text, word).value..], '}').value;
      assert text[..p][..|front|] == front;
    }
    assert after[..|front|] == front;
  }
}
