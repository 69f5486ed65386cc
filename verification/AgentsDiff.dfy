/** The line difference shown for a drifted rules block (`simple_diff`, rapina-cli/src/commands/agents.rs:541-588):
    a multiset difference by counting, printed in the order of the lines. */
module AgentsDiff {
  import opened Text

  const FALLBACK := "(whitespace or ordering differs)\n"

  // ---------------------------------------------------------------- what is printed

  /** The lines of `ls` that use up the multiset `m`, each at its earliest places. */
  ghost function Surplus(ls: seq<string>, m: multiset<string>): seq<string> {
    if ls == [] then []
    else if ls[0] in m then [ls[0]] + Surplus(ls[1..], m - multiset{ls[0]})
    else Surplus(ls[1..], m)
  }

  ghost function Removed(a: seq<string>, b: seq<string>): seq<string> {
    Surplus(a, multiset(a) - multiset(b))
  }

  function Render(mark: string, ls: seq<string>): string {
    if ls == [] then [] else mark + ls[0] + "\n" + Render(mark, ls[1..])
  }

  ghost function Printed(a: seq<string>, b: seq<string>): string {
    Render("- ", Removed(a, b)) + Render("+ ", Removed(b, a))
  }

  // ---------------------------------------------------------------- the counting loops

  type Counts = map<string, nat>

  function Get(counts: Counts, l: string): nat {
    if l in counts then counts[l] else 0
  }

  /** The table holds the multiplicities of `m`. */
  ghost predicate Tallies(counts: Counts, m: multiset<string>) {
    forall l :: Get(counts, l) == m[l]
  }

  method CountLines(lines: seq<string>) returns (counts: Counts)
    ensures Tallies(counts, multiset(lines))
  {
    counts := map[];
    var i := 0;
    while i < |lines|
      invariant i <= |lines|
      invariant Tallies(counts, multiset(lines[..i]))
    {
      var next := counts[lines[i] := Get(counts, lines[i]) + 1];
      assert lines[..i + 1] == lines[..i] + [lines[i]];
      counts := next;
      i := i + 1;
    }
    assert lines[..i] == lines;
  }

  function SaturatingSub(x: nat, y: nat): nat {
    if x < y then 0 else x - y
  }

  /** What is left to print of every line. */
  ghost predicate Left(m: multiset<string>, own: Counts, other: Counts, emitted: Counts) {
    forall l :: m[l] == SaturatingSub(Get(own, l), Get(other, l)) - Get(emitted, l)
  }

  lemma LeftAtStart(lines: seq<string>, there: seq<string>, own: Counts, other: Counts)
    requires Tallies(own, multiset(lines)) && Tallies(other, multiset(there))
    ensures Left(multiset(lines) - multiset(there), own, other, map[])
  {
  }

  lemma LeftStep(m: multiset<string>, own: Counts, other: Counts, emitted: Counts, line: string)
    requires Left(m, own, other, emitted)
    ensures line in m <==> Get(emitted, line) < SaturatingSub(Get(own, line), Get(other, line))
    ensures line in m ==> Left(m - multiset{line}, own, other, emitted[line := Get(emitted, line) + 1])
  {
    assert m[line] == SaturatingSub(Get(own, line), Get(other, line)) - Get(emitted, line);
  }

  lemma SurplusStep(lines: seq<string>, i: nat, m: multiset<string>)
    requires i < |lines|
    ensures Surplus(lines[i..], m) ==
      if lines[i] in m then [lines[i]] + Surplus(lines[i + 1..], m - multiset{lines[i]})
      else Surplus(lines[i + 1..], m)
  {
    assert lines[i..][0] == lines[i] && lines[i..][1..] == lines[i + 1..];
  }

  method Emit(lines: seq<string>, own: Counts, other: Counts, mark: string, ghost there: seq<string>)
    returns (out: string)
    requires Tallies(own, multiset(lines)) && Tallies(other, multiset(there))
    ensures out == Render(mark, Removed(lines, there))
  {
    out := [];
    var emitted: Counts := map[];
    ghost var done: seq<string> := [];
    ghost var m := multiset(lines) - multiset(there);
    LeftAtStart(lines, there, own, other);
    assert lines[0..] == lines;
    var i := 0;
    while i < |lines|
      invariant i <= |lines|
      invariant Left(m, own, other, emitted)
      invariant out == Render(mark, done)
      invariant done + Surplus(lines[i..], m) == Removed(lines, there)
    {
      var line := lines[i];
      var quota := SaturatingSub(Get(own, line), Get(other, line));
      LeftStep(m, own, other, emitted, line);
      SurplusStep(lines, i, m);
      if Get(emitted, line) < quota {
        Assoc(done, [line], Surplus(lines[i + 1..], m - multiset{line}));
        RenderAppend(mark, done, line);
        emitted := emitted[line := Get(emitted, line) + 1];
        out := out + (mark + line + "\n");
        done := done + [line];
        m := m - multiset{line};
      }
      i := i + 1;
    }
    assert done + [] == done;
  }

  lemma {:induction false} RenderAppend(mark: string, ls: seq<string>, l: string)
    ensures Render(mark, ls + [l]) == Render(mark, ls) + (mark + l + "\n")
  {
    if ls == [] {
      assert [l][1..] == [];
    } else {
      assert (ls + [l])[1..] == ls[1..] + [l];
      RenderAppend(mark, ls[1..], l);
    }
  }

  method SimpleDiff(before: string, now: string) returns (out: string)
    ensures out == var printed := Printed(Lines(before), Lines(now));
                   if printed == [] then FALLBACK else printed
  {
    var oldCounts := CountLines(Lines(before));
    var newCounts := CountLines(Lines(now));
    var removals := Emit(Lines(before), oldCounts, newCounts, "- ", Lines(now));
    var additions := Emit(Lines(now), newCounts, oldCounts, "+ ", Lines(before));
    out := removals + additions;
    if out == [] {
      out := FALLBACK;
    }
  }

  // ---------------------------------------------------------------- what the difference means

  ghost predicate Subsequence(s: seq<string>, t: seq<string>) {
    if s == [] then true
    else t != [] && (if s[0] == t[0] then Subsequence(s[1..], t[1..]) else Subsequence(s, t[1..]))
  }

  /** The members of a subsequence stand at rising places. */
  ghost predicate At(places: seq<nat>, s: seq<string>, t: seq<string>) {
    && |places| == |s|
    && (forall i, j :: 0 <= i < j < |places| ==> places[i] < places[j])
    && (forall i :: 0 <= i < |places| ==> places[i] < |t| && t[places[i]] == s[i])
  }

  lemma {:induction false} SubsequencePlaces(s: seq<string>, t: seq<string>) returns (places: seq<nat>)
    requires Subsequence(s, t)
    ensures At(places, s, t)
    decreases |t|
  {
    if s == [] {
      places := [];
    } else if s[0] == t[0] {
      var later := SubsequencePlaces(s[1..], t[1..]);
      places := [0] + seq(|later|, i requires 0 <= i < |later| => later[i] + 1);
    } else {
      var later := SubsequencePlaces(s, t[1..]);
      places := seq(|later|, i requires 0 <= i < |later| => later[i] + 1);
    }
  }

  lemma MultisetCons(ls: seq<string>)
    requires ls != []
    ensures multiset(ls) == multiset{ls[0]} + multiset(ls[1..])
  {
    assert ls == [ls[0]] + ls[1..];
  }

  /** The surplus uses up the whole multiset, in the order of the lines. */
  lemma {:induction false} SurplusIsAll(ls: seq<string>, m: multiset<string>)
    requires m <= multiset(ls)
    ensures multiset(Surplus(ls, m)) == m
  {
    if ls != [] {
      MultisetCons(ls);
      if ls[0] in m {
        var rest := Surplus(ls[1..], m - multiset{ls[0]});
        SurplusIsAll(ls[1..], m - multiset{ls[0]});
        assert Surplus(ls, m) == [ls[0]] + rest;
        assert multiset([ls[0]] + rest) == multiset{ls[0]} + multiset(rest);
      } else {
        SurplusIsAll(ls[1..], m);
      }
    }
  }

  lemma {:induction false} SurplusInOrder(ls: seq<string>, m: multiset<string>)
    ensures Subsequence(Surplus(ls, m), ls)
  {
    if ls != [] {
      if ls[0] in m {
        assert Surplus(ls, m)[1..] == Surplus(ls[1..], m - multiset{ls[0]});
        SurplusInOrder(ls[1..], m - multiset{ls[0]});
      } else {
        SurplusInOrder(ls[1..], m);
        SurplusWithin(ls[1..], m);
      }
    }
  }

  lemma {:induction false} SurplusWithin(ls: seq<string>, m: multiset<string>)
    ensures forall i :: 0 <= i < |Surplus(ls, m)| ==> Surplus(ls, m)[i] in m
  {
    if ls != [] {
      if ls[0] in m {
        SurplusWithin(ls[1..], m - multiset{ls[0]});
      } else {
        SurplusWithin(ls[1..], m);
      }
    }
  }

  lemma OwnSurplus(a: seq<string>, b: seq<string>)
    ensures multiset(Removed(a, b)) == multiset(a) - multiset(b)
    ensures Subsequence(Removed(a, b), a)
  {
    SurplusIsAll(a, multiset(a) - multiset(b));
    SurplusInOrder(a, multiset(a) - multiset(b));
  }

  /** THE DIFFERENCE. The removals come in the order of the old lines and the additions in that of
      the new; taking the one away and adding the other turns the old lines into the new; no line
      is on both sides. */
  lemma DiffIsExact(a: seq<string>, b: seq<string>)
    ensures Subsequence(Removed(a, b), a) && Subsequence(Removed(b, a), b)
    ensures multiset(Removed(a, b)) <= multiset(a)
    ensures multiset(a) - multiset(Removed(a, b)) + multiset(Removed(b, a)) == multiset(b)
    ensures multiset(Removed(a, b)) !! multiset(Removed(b, a))
  {
    OwnSurplus(a, b);
    OwnSurplus(b, a);
    Exchange(multiset(a), multiset(b));
  }

  lemma Exchange(a: multiset<string>, b: multiset<string>)
    ensures a - (a - b) + (b - a) == b
    ensures (a - b) !! (b - a) && a - b <= a
  {
  }

  /** Each line behind a mark. */
  function Marked(mark: string, ls: seq<string>): seq<string> {
    seq(|ls|, i requires 0 <= i < |ls| => mark + ls[i])
  }

  lemma RenderStep(mark: string, ls: seq<string>, rest: string)
    requires ls != []
    ensures Render(mark, ls) + rest == (mark + ls[0]) + ['\n'] + (Render(mark, ls[1..]) + rest)
  {
  }

  lemma {:induction false} RenderSplit(mark: string, ls: seq<string>, rest: string)
    requires '\n' !in mark && NoNewline(ls)
    ensures Split(Render(mark, ls) + rest, '\n') == Marked(mark, ls) + Split(rest, '\n')
  {
    if ls == [] {
      assert Render(mark, ls) + rest == rest;
      assert Marked(mark, ls) + Split(rest, '\n') == Split(rest, '\n');
    } else {
      RenderStep(mark, ls, rest);
      assert '\n' !in ls[0];
      RenderSplit(mark, ls[1..], rest);
      SplitMarked(mark, ls, Render(mark, ls[1..]) + rest, Split(rest, '\n'));
    }
  }

  lemma SplitMarked(mark: string, ls: seq<string>, more: string, tail: seq<string>)
    requires ls != [] && '\n' !in mark && '\n' !in ls[0] && Split(more, '\n') == Marked(mark, ls[1..]) + tail
    ensures Split((mark + ls[0]) + ['\n'] + more, '\n') == Marked(mark, ls) + tail
  {
    SplitStep(mark + ls[0], more, '\n');
    assert Marked(mark, ls) == [mark + ls[0]] + Marked(mark, ls[1..]);
    Assoc([mark + ls[0]], Marked(mark, ls[1..]), tail);
  }

  lemma {:induction false} SurplusNoNewline(ls: seq<string>, m: multiset<string>)
    requires NoNewline(ls)
    ensures NoNewline(Surplus(ls, m))
  {
    if ls != [] {
      SurplusNoNewline(ls[1..], if ls[0] in m then m - multiset{ls[0]} else m);
    }
  }

  /** THE TEXT. Line by line it is the removed lines behind a minus and the added ones behind a plus;
      when there are none it is the message. */
  lemma DiffText(before: string, now: string)
    ensures var a, b := Lines(before), Lines(now);
      Split(Printed(a, b), '\n') == Marked("- ", Removed(a, b)) + (Marked("+ ", Removed(b, a)) + [""])
  {
    var a, b := Lines(before), Lines(now);
    LinesNoNewline(before);
    LinesNoNewline(now);
    SurplusNoNewline(a, multiset(a) - multiset(b));
    SurplusNoNewline(b, multiset(b) - multiset(a));
    RenderSplit("+ ", Removed(b, a), "");
    assert Render("+ ", Removed(b, a)) + "" == Render("+ ", Removed(b, a));
    SplitNone("", '\n');
    RenderSplit("- ", Removed(a, b), Render("+ ", Removed(b, a)));
  }

  lemma RenderHead(mark: string, ls: seq<string>)
    requires mark != [] && ls != []
    ensures Render(mark, ls) != [] && Render(mark, ls)[0] == mark[0]
  {
  }

  lemma NothingRemoved(a: seq<string>, b: seq<string>)
    ensures Removed(a, b) == [] <==> multiset(a) <= multiset(b)
  {
    OwnSurplus(a, b);
    if multiset(a) <= multiset(b) {
      assert multiset(a) - multiset(b) == multiset{};
      assert forall l :: l in Removed(a, b) ==> l in multiset(Removed(a, b));
    } else {
      var l :| multiset(a)[l] > multiset(b)[l];
      assert l in multiset(Removed(a, b));
      assert l in Removed(a, b);
    }
  }

  lemma MutualInclusion(m: multiset<string>, n: multiset<string>)
    requires m <= n && n <= m
    ensures m == n
  {
    forall l: string ensures m[l] == n[l] {
    }
  }

  lemma FallbackHead()
    ensures |FALLBACK| > 0 && FALLBACK[0] == '('
  {
  }

  /** The message about white space and order is the answer exactly when both texts have the same
      lines, as often. */
  lemma FallbackIff(a: seq<string>, b: seq<string>)
    ensures Printed(a, b) == [] <==> multiset(a) == multiset(b)
    ensures Printed(a, b) != FALLBACK
  {
    var removed, added := Removed(a, b), Removed(b, a);
    NothingRemoved(a, b);
    NothingRemoved(b, a);
    FallbackHead();
    if removed != [] {
      RenderHead("- ", removed);
      assert Printed(a, b)[0] == '-';
    } else if added != [] {
      RenderHead("+ ", added);
      assert Printed(a, b)[0] == '+';
    } else {
      assert Printed(a, b) == [];
      MutualInclusion(multiset(a), multiset(b));
    }
  }

  /** The lines, each with a line end of its own: a newline, or a carriage return and a newline. */
  function WithEnds(ls: seq<string>, crs: seq<bool>): string
    requires |crs| == |ls|
  {
    if ls == [] then "" else ls[0] + ((if crs[0] then "\r\n" else "\n") + WithEnds(ls[1..], crs[1..]))
  }

  predicate NoReturn(ls: seq<string>) {
    forall i :: 0 <= i < |ls| ==> ls[i] == "" || ls[i][|ls[i]| - 1] != '\r'
  }

  lemma {:induction false} EndsRead(ls: seq<string>, crs: seq<bool>)
    requires |crs| == |ls| && NoNewline(ls) && NoReturn(ls)
    ensures Lines(WithEnds(ls, crs)) == ls
  {
    if ls != [] {
      assert '\n' !in ls[0] && (ls[0] == "" || ls[0][|ls[0]| - 1] != '\r');
      EndsRead(ls[1..], crs[1..]);
      EndRead(ls[0], crs[0], WithEnds(ls[1..], crs[1..]));
      assert [ls[0]] + ls[1..] == ls;
    }
  }

  lemma EndRead(line: string, cr: bool, rest: string)
    requires '\n' !in line && (line == "" || line[|line| - 1] != '\r')
    ensures Lines(line + ((if cr then "\r\n" else "\n") + rest)) == [line] + Lines(rest)
  {
    if cr {
      assert StripCR(line + "\r") == line;
      assert line + ("\r\n" + rest) == line + "\r" + "\n" + rest;
      LinesStep(line + "\r", rest);
    } else {
      assert line + ("\n" + rest) == line + "\n" + rest;
      LinesStep(line, rest);
    }
  }

  /** Texts that differ in their line ends alone have no difference to print. */
  lemma EndsAreNoDifference(ls: seq<string>, before: seq<bool>, now: seq<bool>)
    requires |before| == |now| == |ls| && NoNewline(ls) && NoReturn(ls)
    ensures Printed(Lines(WithEnds(ls, before)), Lines(WithEnds(ls, now))) == ""
  {
    EndsRead(ls, before);
    EndsRead(ls, now);
    FallbackIff(ls, ls);
  }
}
