/** The list of the macro in a module file of any text, and what an insertion makes of it. */
module MigrationsList {
  import opened Wrappers
  import opened Text
  import opened Comments
  import opened MigrationsFile
  import opened MigrationsRuns
  import opened MigrationsRead

  // ---------------------------------------------------------------- the parts of a file

  /** The text is what stands before the macro, the macro's name and brace, what it holds, its closing
      brace, and the rest. */
  ghost predicate Opened(text: string, word: string, a: string, inner: string, rest: string) {
    && text == a + (word + (inner + ("}" + rest)))
    && Find(text, word) == Some(|a|)
    && '}' !in inner
  }

  lemma OpenedIs(text: string, word: string, a: string, inner: string, rest: string)
    requires Opened(text, word, a, inner, rest)
    ensures CloseAt(text, word) == Some((|a| + |word|, |a| + |word| + |inner|))
    ensures text[|a| + |word|..|a| + |word| + |inner|] == inner && text[|a| + |word| + |inner| + 1..] == rest
    ensures ItemsAfter(text, word) == Items(inner)
  {
    CloseIs(a, word, inner, rest);
    Inside(a, word, inner, rest);
  }

  lemma CutThree(text: string, word: string, i: nat, close: nat)
    requires HasAt(text, word, i) && i + |word| <= close < |text| && text[close] == '}'
    ensures text == text[..i] + (word + (text[i + |word|..close] + ("}" + text[close + 1..])))
  {
    var from := i + |word|;
    assert text[i..from] == word;
    Halves(text, close);
    Halves(text[..close], from);
    Halves(text[..from], i);
    assert text[..close][..from] == text[..from] && text[..from][..i] == text[..i];
    Deepest(text[..i], word, text[from..close], "}" + text[close + 1..]);
    assert [text[close]] == "}";
    assert text[close..] == "}" + text[close + 1..];
  }

  lemma Halves(s: string, k: nat)
    requires k <= |s|
    ensures s == s[..k] + s[k..]
  {
  }

  lemma Deepest(a: string, b: string, c: string, d: string)
    ensures ((a + b) + c) + d == a + (b + (c + d))
  {
    Assoc(a, b, c);
    Assoc(a, b + c, d);
    Assoc(b, c, d);
  }

  lemma OpenedFor(text: string, word: string) returns (a: string, inner: string, rest: string)
    requires CloseAt(text, word).Some?
    ensures Opened(text, word, a, inner, rest)
  {
    var i, close := Find(text, word).value, CloseAt(text, word).value.1;
    a, inner, rest := text[..i], text[i + |word|..close], text[close + 1..];
    OpenedParts(text, word, i, close);
  }

  lemma OpenedParts(text: string, word: string, i: nat, close: nat)
    requires Find(text, word) == Some(i) && CloseAt(text, word) == Some((i + |word|, close))
    ensures Opened(text, word, text[..i], text[i + |word|..close], text[close + 1..])
  {
    FirstClose(text, i + |word|, close);
    CutThree(text, word, i, close);
  }

  lemma FirstClose(text: string, from: nat, close: nat)
    requires from <= close < |text| && close == from + CharPos(text[from..], '}')
    ensures text[close] == '}' && '}' !in text[from..close]
  {
    assert text[from..][close - from] == '}';
    assert text[from..][..close - from] == text[from..close];
  }

  lemma HasAtInFront(a: string, x: string, word: string, j: nat)
    requires j + |word| <= |a|
    ensures HasAt(a + x, word, j) <==> HasAt(a, word, j)
  {
    assert (a + x)[j..j + |word|] == a[j..j + |word|];
  }

  /** Where a word is found first depends only on the text up to its end. */
  lemma FoundFirst(a: string, word: string, x: string, y: string)
    requires Find(a + (word + x), word) == Some(|a|)
    ensures Find(a + (word + y), word) == Some(|a|)
  {
    assert a + (word + x) == (a + word) + x && a + (word + y) == (a + word) + y;
    forall j | 0 <= j <= |a| ensures HasAt(a + (word + y), word, j) <==> HasAt(a + (word + x), word, j) {
      HasAtInFront(a + word, x, word, j);
      HasAtInFront(a + word, y, word, j);
    }
    FindIs(a + (word + y), word, |a|);
  }

  /** What the macro holds and what follows it can be exchanged. */
  lemma OpenedWith(text: string, word: string, a: string, inner: string, rest: string, inner': string, rest': string)
    requires Opened(text, word, a, inner, rest) && '}' !in inner'
    ensures Opened(a + (word + (inner' + ("}" + rest'))), word, a, inner', rest')
  {
    FoundFirst(a, word, inner + ("}" + rest), inner' + ("}" + rest'));
  }

  /** A list does not depend on what follows its closing brace. */
  lemma ListStays(v: string, x: string, word: string, f: nat, c: nat)
    requires CloseAt(v, word) == Some((f, c))
    ensures CloseAt(v[..c + 1] + x, word) == Some((f, c)) && ItemsAfter(v[..c + 1] + x, word) == ItemsAfter(v, word)
  {
    var a, inner, rest := OpenedFor(v, word);
    OpenedIs(v, word, a, inner, rest);
    StaysOpened(v, word, a, inner, rest, x, c);
  }

  lemma StaysOpened(v: string, word: string, a: string, inner: string, rest: string, x: string, c: nat)
    requires Opened(v, word, a, inner, rest) && c == |a| + |word| + |inner|
    ensures c < |v| && Opened(v[..c + 1] + x, word, a, inner, x)
    ensures CloseAt(v[..c + 1] + x, word) == Some((|a| + |word|, c))
    ensures ItemsAfter(v[..c + 1] + x, word) == Items(inner)
  {
    Closing(a, word, inner, rest, x);
    OpenedWith(v, word, a, inner, rest, inner, x);
    OpenedIs(a + (word + (inner + ("}" + x))), word, a, inner, x);
  }

  lemma Closing(a: string, word: string, inner: string, rest: string, x: string)
    ensures var v := a + (word + (inner + ("}" + rest)));
      v[..|a| + |word| + |inner| + 1] + x == a + (word + (inner + ("}" + x)))
  {
  }

  lemma GrowsOpened(v: string, word: string, a: string, inner: string, rest: string, e: string, c: nat)
    requires Opened(v, word, a, inner, rest) && '}' !in e && c == |a| + |word| + |inner|
    ensures c <= |v| && ItemsAfter(v[..c] + (e + v[c..]), word) == Items(inner + e)
  {
    Growing(a, word, inner, rest, e);
    OpenedWith(v, word, a, inner, rest, inner + e, rest);
    OpenedIs(a + (word + ((inner + e) + ("}" + rest))), word, a, inner + e, rest);
  }

  lemma ListGrows(v: string, e: string, word: string, f: nat, c: nat)
    requires CloseAt(v, word) == Some((f, c)) && '}' !in e
    ensures ItemsAfter(v[..c] + (e + v[c..]), word) == Items(v[f..c] + e)
  {
    var a, inner, rest := OpenedFor(v, word);
    OpenedIs(v, word, a, inner, rest);
    GrowsOpened(v, word, a, inner, rest, e, c);
  }

  lemma Growing(a: string, word: string, inner: string, rest: string, e: string)
    ensures var v, c := a + (word + (inner + ("}" + rest))), |a| + |word| + |inner|;
      v[..c] + (e + v[c..]) == a + (word + ((inner + e) + ("}" + rest)))
  {
    var v, c := a + (word + (inner + ("}" + rest))), |a| + |word| + |inner|;
    assert v[..c] == a + (word + inner) && v[c..] == "}" + rest;
  }

  // ---------------------------------------------------------------- behind a new head line

  /** Text put in front of a file without reaching into the macro: whole lines of code without a brace. */
  predicate HeadOnly(front: string) {
    front != [] && front[|front| - 1] == '\n' && '{' !in front && NoMarks(front)
  }

  predicate MacroWord(word: string) {
    word != [] && word[|word| - 1] == '{' && '\n' !in word && '}' !in word && BLANK !in word
  }

  lemma MacroIsWord()
    ensures MacroWord(MACRO)
  {
    MacroFacts();
    MacroOnOneLine();
    MacroHasNoClose();
  }

  lemma MacroHasNoClose()
    ensures '}' !in MACRO && BLANK !in MACRO
  {
    assert '}' !in MACRO_NAME && BLANK !in MACRO_NAME;
  }

  lemma OpenedBehind(front: string, text: string, word: string, a: string, inner: string, rest: string)
    requires HeadOnly(front) && MacroWord(word) && Opened(text, word, a, inner, rest)
    ensures Opened(front + text, word, front + a, inner, rest)
  {
    FindBehind(front, text, word);
    Assoc(front, a, word + (inner + ("}" + rest)));
  }

  lemma NotOpenedBehind(front: string, text: string, word: string)
    requires HeadOnly(front) && MacroWord(word) && CloseAt(text, word).None?
    ensures CloseAt(front + text, word).None?
  {
    FindBehind(front, text, word);
    if Find(text, word).Some? {
      var i := Find(text, word).value;
      assert (front + text)[|front| + i + |word|..] == text[i + |word|..];
    }
  }

  lemma ShiftedSlice(front: string, v: string, f: nat, c: nat)
    requires f <= c <= |v|
    ensures (front + v)[|front| + f..|front| + c] == v[f..c]
  {
  }

  lemma OpenBehind(front: string, v: string, word: string, f: nat, c: nat)
    requires HeadOnly(front) && MacroWord(word) && CloseAt(v, word) == Some((f, c))
    ensures CloseAt(front + v, word) == Some((|front| + f, |front| + c))
  {
    var a, inner, rest := OpenedFor(v, word);
    OpenedIs(v, word, a, inner, rest);
    OpenedBehind(front, v, word, a, inner, rest);
    OpenedIs(front + v, word, front + a, inner, rest);
  }

  /** The list of the macro: where it starts and where its brace closes, what stands between, comments
      blanked out, and the text behind the brace. */
  datatype Span = NoList | Span(from: nat, close: nat, inner: string, rest: string)

  function SpanIn(visible: string, text: string, word: string): Span
    requires |visible| == |text|
  {
    match CloseAt(visible, word)
    case None => NoList
    case Some((f, c)) => Span(f, c, visible[f..c], text[c + 1..])
  }

  function SpanOf(text: string, word: string): Span {
    SpanIn(Visible(text), text, word)
  }

  function Moved(span: Span, n: nat): Span {
    match span
    case NoList => NoList
    case Span(f, c, inner, rest) => Span(n + f, n + c, inner, rest)
  }

  lemma BraceBehind(front: string, content: string, c: nat)
    requires c < |content|
    ensures (front + content)[|front| + c + 1..] == content[c + 1..]
  {
  }

  lemma SpanBehind(front: string, v: string, text: string, word: string)
    requires HeadOnly(front) && MacroWord(word) && |v| == |text|
    ensures SpanIn(front + v, front + text, word) == Moved(SpanIn(v, text, word), |front|)
  {
    match CloseAt(v, word) {
      case None =>
        NotOpenedBehind(front, v, word);
      case Some((f, c)) =>
        OpenBehind(front, v, word, f, c);
        ShiftedSlice(front, v, f, c);
        BraceBehind(front, text, c);
    }
  }

  /** New head lines move the list and leave it as it is. */
  lemma ListBehind(front: string, text: string, word: string)
    requires HeadOnly(front) && MacroWord(word)
    ensures SpanOf(front + text, word) == Moved(SpanOf(text, word), |front|)
  {
    VisibleBehind(front, text);
    SpanBehind(front, Visible(text), text, word);
  }

  // ---------------------------------------------------------------- where the entry goes

  /** The text with `e` put in front of position `k`. */
  function PutBefore(text: string, k: nat, e: string): string
    requires k <= |text|
  {
    text[..k] + (e + text[k..])
  }

  lemma WordShown(text: string, word: string, i: nat)
    requires HasAt(Visible(text), word, i) && BLANK !in word
    ensures HasAt(text, word, i)
  {
    var v := Visible(text);
    assert v[i..i + |word|] == word;
    assert forall j :: i <= j < i + |word| ==> v[j] == word[j - i];
    assert text[i..i + |word|] == v[i..i + |word|];
  }

  /** An insertion goes in front of the last closing brace of the whole file. */
  lemma InsertedBefore(text: string, word: string, p: nat, m: string)
    requires Find(text, word).Some? && Find(text, word).value <= p < |text|
    requires text[p] == '}' && '}' !in text[p + 1..]
    ensures InsertEntry(text, word, m) == PutBefore(text, p, EntryLine(m))
  {
    var i := Find(text, word).value;
    LastIs(text, i, p);
    Assoc(text[..p], EntryLine(m), text[p..]);
  }

  lemma LastIs(text: string, i: nat, p: nat)
    requires i <= p < |text| && text[p] == '}' && '}' !in text[p + 1..]
    ensures RFindChar(text[i..], '}') == Some(p - i)
  {
    var a, b := text[i..p], text[p + 1..];
    AroundOne(text, i, p);
    RFindAt(a, b, '}');
  }

  lemma AroundOne(text: string, i: nat, p: nat)
    requires i <= p < |text|
    ensures text[i..] == text[i..p] + [text[p]] + text[p + 1..]
  {
  }

  lemma LastBrace(text: string, k: nat) returns (p: nat)
    requires k < |text| && '}' in text[k + 1..]
    ensures k < p < |text| && text[p] == '}' && '}' !in text[p + 1..]
  {
    var tail := text[k + 1..];
    var r := RFindChar(tail, '}').value;
    p := k + 1 + r;
    assert text[p + 1..] == tail[r + 1..];
  }

  lemma EntryIsPlain(m: string)
    requires Name(m)
    ensures '}' !in EntryLine(m) && NoMarks(EntryLine(m)) && Fresh(EntryLine(m)) && EntryLine(m) != []
    ensures EntryLine(m)[0] == ' '
  {
    EntryPlain(m);
    assert '}' !in m;
  }

  lemma ClosesAt(text: string, word: string, f: nat, c: nat)
    requires CloseAt(Visible(text), word) == Some((f, c)) && MacroWord(word)
    ensures c < |text| && Visible(text)[c] == '}' && text[c] == '}'
    ensures Find(text, word).Some? && Find(text, word).value <= c
  {
    var v := Visible(text);
    FirstClose(v, f, c);
    assert v[c] == text[c];
    WordShown(text, word, Find(v, word).value);
  }

  lemma FirstOfPut(text: string, k: nat, e: string)
    requires k <= |text| && e != []
    ensures PutBefore(text, k, e)[k] == e[0]
  {
  }

  lemma DifferentPlaces(text: string, k: nat, p: nat, e: string)
    requires k < p <= |text| && text[k] == '}' && e != [] && e[0] != '}'
    ensures PutBefore(text, p, e) != PutBefore(text, k, e)
  {
    FirstOfPut(text, k, e);
    assert PutBefore(text, p, e)[k] == text[..p][k];
  }

  /** The entry goes right in front of the brace that closes the macro exactly when none closes later. */
  lemma PlacedIff(text: string, word: string, f: nat, c: nat, m: string)
    requires CloseAt(Visible(text), word) == Some((f, c)) && MacroWord(word) && Name(m)
    ensures InsertEntry(text, word, m) == PutBefore(text, c, EntryLine(m)) <==> '}' !in text[c + 1..]
  {
    ClosesAt(text, word, f, c);
    EntryIsPlain(m);
    if '}' in text[c + 1..] {
      var p := LastBrace(text, c);
      InsertedBefore(text, word, p, m);
      DifferentPlaces(text, c, p, EntryLine(m));
    } else {
      InsertedBefore(text, word, c, m);
    }
  }

  lemma SameStart(text: string, c: nat, p: nat, e: string)
    requires c < p <= |text|
    ensures PutBefore(text, p, e) == text[..c + 1] + (text[c + 1..p] + (e + text[p..]))
  {
    assert text[..p] == text[..c + 1] + text[c + 1..p];
  }

  lemma InsertedLast(text: string, word: string, f: nat, c: nat, m: string)
    requires CloseAt(Visible(text), word) == Some((f, c)) && MacroWord(word) && Name(m)
    requires '}' !in text[c + 1..]
    ensures ItemsAfter(Visible(InsertEntry(text, word, m)), word) == Items(Visible(text)[f..c] + EntryLine(m))
  {
    ClosesAt(text, word, f, c);
    EntryIsPlain(m);
    InsertedBefore(text, word, c, m);
    VisiblePut(text, c, EntryLine(m));
    ListGrows(Visible(text), EntryLine(m), word, f, c);
  }

  lemma ListUpTo(text: string, word: string, f: nat, c: nat, z: string)
    requires CloseAt(Visible(text), word) == Some((f, c)) && MacroWord(word)
    ensures var v := Visible(text[..c + 1] + z);
      && CloseAt(v, word) == Some((f, c)) && v[f..c] == Visible(text)[f..c]
      && ItemsAfter(v, word) == ItemsAfter(Visible(text), word)
  {
    ClosesAt(text, word, f, c);
    VisibleUpTo(text, c, z);
    var v := Visible(text[..c + 1] + z);
    Halves(v, c + 1);
    ListStays(Visible(text), v[c + 1..], word, f, c);
    SamePart(v, Visible(text), f, c);
  }

  lemma SamePart(v: string, w: string, f: nat, c: nat)
    requires f <= c < |v| && c < |w| && v[..c + 1] == w[..c + 1]
    ensures v[f..c] == w[f..c]
  {
    assert v[f..c] == v[..c + 1][f..c] && w[f..c] == w[..c + 1][f..c];
  }

  lemma InsertedLater(text: string, word: string, f: nat, c: nat, m: string)
    requires CloseAt(Visible(text), word) == Some((f, c)) && MacroWord(word) && Name(m)
    requires '}' in text[c + 1..]
    ensures ItemsAfter(Visible(InsertEntry(text, word, m)), word) == ItemsAfter(Visible(text), word)
  {
    ClosesAt(text, word, f, c);
    var p := LastBrace(text, c);
    InsertedBefore(text, word, p, m);
    SameStart(text, c, p, EntryLine(m));
    ListUpTo(text, word, f, c, text[c + 1..p] + (EntryLine(m) + text[p..]));
  }

  /** What the macro lists after an insertion: the entry is inside it or not at all. */
  lemma ItemsAfterInsert(text: string, word: string, f: nat, c: nat, m: string)
    requires CloseAt(Visible(text), word) == Some((f, c)) && MacroWord(word) && Name(m)
    ensures ItemsAfter(Visible(InsertEntry(text, word, m)), word)
         == if '}' in text[c + 1..] then ItemsAfter(Visible(text), word) else Items(Visible(text)[f..c] + EntryLine(m))
  {
    if '}' in text[c + 1..] {
      InsertedLater(text, word, f, c, m);
    } else {
      InsertedLast(text, word, f, c, m);
    }
  }

  // ---------------------------------------------------------------- one more item

  /** Nothing but blanks after the last comma, if there is one. */
  predicate CommaLast(inner: string) {
    Trim(Last(inner)) == []
  }

  function Last(inner: string): string {
    var parts := Split(inner, ',');
    parts[|parts| - 1]
  }

  function Front(inner: string): seq<string> {
    var parts := Split(inner, ',');
    parts[..|parts| - 1]
  }

  lemma FrontLast(p: string, parts: seq<string>)
    requires parts != []
    ensures ([p] + parts)[..|parts|] == [p] + parts[..|parts| - 1] && ([p] + parts)[|parts|] == parts[|parts| - 1]
  {
  }

  lemma AppendShape(a: string, b: string, more: string)
    ensures a + [','] + b + more == a + [','] + (b + more)
  {
  }

  lemma AppendToOne(inner: string, more: string, rest: string)
    requires ',' !in inner && ',' !in more && ',' !in rest
    ensures Split(inner + (more + "," + rest), ',') == [inner + more, rest]
    ensures Front(inner) == [] && Last(inner) == inner
  {
    assert inner + (more + "," + rest) == (inner + more) + [','] + rest;
    SplitStep(inner + more, rest, ',');
    SplitNone(inner, ',');
    SplitNone(rest, ',');
  }

  lemma PartsOf(a: string, b: string)
    requires ',' !in a
    ensures Front(a + [','] + b) == [a] + Front(b) && Last(a + [','] + b) == Last(b)
  {
    SplitStep(a, b, ',');
    FrontLast(a, Split(b, ','));
  }

  /** A text put behind the last piece of a list, up to its comma. */
  lemma {:induction false} SplitAppend(inner: string, more: string, rest: string)
    requires ',' !in more && ',' !in rest
    ensures Split(inner + (more + "," + rest), ',') == Front(inner) + [Last(inner) + more, rest]
    decreases |inner|
  {
    var n, tail := CharPos(inner, ','), more + "," + rest;
    if n < |inner| {
      var a, b := inner[..n], inner[n + 1..];
      CutAt(inner, n);
      AppendShape(a, b, tail);
      SplitStep(a, b + tail, ',');
      PartsOf(a, b);
      SplitAppend(b, more, rest);
      Assoc([a], Front(b), [Last(b) + more, rest]);
    } else {
      assert inner[..|inner|] == inner;
      AppendToOne(inner, more, rest);
    }
  }

  lemma {:induction false} TrimAllConcat(a: seq<string>, b: seq<string>)
    ensures TrimAll(a + b) == TrimAll(a) + TrimAll(b)
  {
    if a == [] {
      assert a + b == b;
    } else {
      assert (a + b)[1..] == a[1..] + b;
      TrimAllConcat(a[1..], b);
    }
  }

  lemma ItemsOf(front: seq<string>, last: string)
    ensures var items := TrimAll(front + [last]);
      && items == TrimAll(front) + [Trim(last)]
      && items[..|items| - 1] == TrimAll(front)
  {
    TrimAllConcat(front, [last]);
    TrimAllCons(last, []);
  }

  lemma EntryParts(m: string)
    requires Name(m)
    ensures EntryLine(m) == "    " + m + "," + "\n" && ',' !in "    " + m
  {
    assert ',' !in m by {
      assert !NameChar(',');
    }
  }

  lemma ItemsBefore(inner: string)
    ensures Items(inner) == TrimAll(Front(inner)) + if Trim(Last(inner)) == [] then [] else [Trim(Last(inner))]
  {
    assert Split(inner, ',') == Front(inner) + [Last(inner)];
    ItemsOf(Front(inner), Last(inner));
    assert TrimAll(Front(inner)) + [] == TrimAll(Front(inner));
  }

  /** The items once an entry line has been put behind the text inside the macro. */
  lemma ItemsGrow(inner: string, m: string)
    requires Name(m)
    ensures Items(inner + EntryLine(m)) == TrimAll(Front(inner)) + [Trim(Last(inner) + ("    " + m))]
  {
    var front, piece := Front(inner), Last(inner) + ("    " + m);
    EntryParts(m);
    SplitAppend(inner, "    " + m, "\n");
    assert front + [piece, "\n"] == (front + [piece]) + ["\n"];
    ItemsOf(front + [piece], "\n");
    ItemsOf(front, piece);
    TrimAllSpace("\n");
  }

  lemma TrimmedEntry(last: string, m: string)
    requires Trim(last) == [] && Name(m)
    ensures Trim(last + ("    " + m)) == m
  {
    var before, after := TrimShape(last);
    assert last + ("    " + m) == (last + "    ") + m + [];
    assert AllSpace(last);
    assert NameChar(m[0]) && NameChar(m[|m| - 1]);
    TrimIs(last + "    ", m, []);
  }

  /** Behind a last item that has its comma the entry is one more item; otherwise the last item takes
      it up, with the blanks and comments between them. */
  lemma ItemsThen(inner: string, m: string) returns (gap: string)
    requires Name(m)
    ensures AllSpace(gap) && gap != []
    ensures CommaLast(inner) ==> Items(inner + EntryLine(m)) == Items(inner) + [m]
    ensures var es := Items(inner);
      !CommaLast(inner) ==>
        es != [] && Items(inner + EntryLine(m)) == es[..|es| - 1] + [es[|es| - 1] + (gap + m)]
  {
    gap := "    ";
    ItemsBefore(inner);
    ItemsGrow(inner, m);
    if CommaLast(inner) {
      TrimmedEntry(Last(inner), m);
      assert TrimAll(Front(inner)) + [] == TrimAll(Front(inner));
    } else {
      gap := MergedEntry(Last(inner), m);
      assert (TrimAll(Front(inner)) + [Trim(Last(inner))])[..|TrimAll(Front(inner))|] == TrimAll(Front(inner));
    }
  }

  lemma MergedEntry(last: string, m: string) returns (gap: string)
    requires Trim(last) != [] && Name(m)
    ensures AllSpace(gap) && gap != [] && Trim(last + ("    " + m)) == Trim(last) + (gap + m)
  {
    var before, after := TrimShape(last);
    gap := after + "    ";
    var item := Trim(last) + (gap + m);
    Regrouped(before, Trim(last), after, "    ", m);
    assert NameChar(m[|m| - 1]) && item[|item| - 1] == m[|m| - 1] && item[0] == Trim(last)[0];
    TrimIs(before, item, []);
    assert before + item + [] == before + item;
  }

  lemma Regrouped(a: string, b: string, c: string, d: string, e: string)
    ensures a + b + c + (d + e) == a + (b + (c + d + e))
  {
  }

  lemma GrowsIff(inner: string, m: string)
    requires Name(m)
    ensures Items(inner + EntryLine(m)) == Items(inner) + [m] <==> CommaLast(inner)
  {
    var gap := ItemsThen(inner, m);
  }
}
