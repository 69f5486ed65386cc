/** Drift detection and repair of AGENTS.md (rapina-cli/src/commands/agents.rs:342-534): the rules
    block is rewritten in place, edits inside it are respected, text around it is the user's.
    The hash is any function to hexadecimal text; where collisions matter it is one-to-one. */
module AgentsFix {
  import opened Wrappers
  import opened Text
  import opened AgentsBlock

  type Hash = string -> string

  ghost predicate HexHash(sha: Hash) {
    forall s :: Hex(sha(s))
  }

  ghost predicate OneToOne(sha: Hash) {
    forall s, t :: sha(s) == sha(t) ==> s == t
  }

  /** The installed tool: its version, the rules it composes for the project, its CLAUDE.md. */
  datatype Cli = Cli(version: string, bundle: string, claudeMd: string)

  predicate ValidCli(cli: Cli) {
    Version(cli.version) && !Contains(cli.bundle, END)
  }

  function Wrap(cli: Cli, sha: Hash): string {
    Block(cli.version, sha(cli.bundle), cli.bundle)
  }

  // ---------------------------------------------------------------- check_drift

  datatype Drift =
    | UpToDate
    | Stale(storedVersion: string)
    | UserEdited(onDisk: string, current: string)
    | Missing
    | Absent
    | NotInProject
    | CheckPanics

  function Classify(block: ParsedBlock, current: string, sha: Hash): Drift {
    if sha(block.body) == sha(current) then UpToDate
    else if sha(block.body) == block.storedHash then Stale(block.storedVersion)
    else UserEdited(block.body, current)
  }

  /** `current` is what the tool would write now, read back as the block on disk is. */
  function AgainstCurrent(block: ParsedBlock, current: ParseOutcome, sha: Hash): Drift {
    if current.Parsed? then Classify(block, current.block.body, sha) else CheckPanics
  }

  function CheckDrift(file: Option<string>, inProject: bool, cli: Cli, sha: Hash): Drift {
    match file
    case None => Missing
    case Some(source) =>
      match ParseAgentsBlock(source)
      case NoBlock => Absent
      case Panics => CheckPanics
      case Parsed(block) =>
        if !inProject then NotInProject
        else AgainstCurrent(block, ParseAgentsBlock(Wrap(cli, sha)), sha)
  }

  // ---------------------------------------------------------------- fix_agents

  datatype FixError = NoCargoToml | EditedInside

  datatype FixOutcome = Written(text: string) | Refused(error: FixError) | FixPanics

  function Splice(source: string, block: ParsedBlock, newBlock: string): string
    requires block.beginPos <= |source| && block.endPos <= |source|
  {
    source[..block.beginPos] + newBlock + source[block.endPos..]
  }

  predicate Edited(block: ParsedBlock, sha: Hash) {
    sha(block.body) != block.storedHash
  }

  function FixAgents(file: Option<string>, cargoToml: bool, cli: Cli, sha: Hash, force: bool): FixOutcome {
    var source := if file.Some? then file.value else "";
    if !cargoToml then Refused(NoCargoToml)
    else
      match if source == "" then NoBlock else ParseAgentsBlock(source)
      case NoBlock => Written(Wrap(cli, sha))
      case Panics => FixPanics
      case Parsed(block) =>
        if Edited(block, sha) && !force then Refused(EditedInside)
        else
          ParsedShape(source);
          Written(Splice(source, block, Wrap(cli, sha)))
  }

  class ProjectFiles {
    var agents: Option<string>
    var claude: Option<string>

    method Fix(cargoToml: bool, cli: Cli, sha: Hash, force: bool) returns (outcome: FixOutcome)
      modifies this
      ensures outcome == FixAgents(old(agents), cargoToml, cli, sha, force)
      ensures agents == if outcome.Written? then Some(outcome.text) else old(agents)
      ensures claude == if outcome.Written? && old(claude).None? then Some(cli.claudeMd) else old(claude)
    {
      var source := if agents.Some? then agents.value else "";
      if !cargoToml {
        return Refused(NoCargoToml);
      }
      var existing := if source == "" then NoBlock else ParseAgentsBlock(source);
      if existing.Panics? {
        return FixPanics;
      }
      if existing.Parsed? && Edited(existing.block, sha) && !force {
        return Refused(EditedInside);
      }
      var newContent := Wrap(cli, sha);
      if existing.Parsed? {
        ParsedShape(source);
        newContent := source[..existing.block.beginPos] + newContent + source[existing.block.endPos..];
      }
      agents := Some(newContent);
      if claude.None? {
        claude := Some(cli.claudeMd);
      }
      outcome := Written(newContent);
    }
  }

  // ---------------------------------------------------------------- files without a readable block

  lemma BeginText()
    ensures BEGIN == "<!-- BEGIN:rapina-agent-rules " && END == "<!-- END:rapina-agent-rules -->"
  {
  }

  /** What a file without a block, or a place without a project, is answered. */
  lemma WithoutBlock(source: string, inProject: bool, cli: Cli, sha: Hash, force: bool)
    requires !Contains(source, "<!-- BEGIN:rapina-agent-rules ")
    ensures CheckDrift(None, inProject, cli, sha) == Missing
    ensures CheckDrift(Some(source), inProject, cli, sha) == Absent
    ensures FixAgents(None, true, cli, sha, force) == Written(Wrap(cli, sha))
    ensures FixAgents(Some(source), true, cli, sha, force) == Written(Wrap(cli, sha))
  {
    BeginText();
    assert LocateHeader(source, BEGIN) == NoHeader;
  }

  /** Outside of a project every readable block is answered alike. */
  lemma OutsideProject(before: string, version: string, hash: string, body: string, after: string, cli: Cli, sha: Hash)
    requires Version(version) && Hex(hash) && Clear(before) && !Contains(body, END)
    ensures CheckDrift(Some(before + Block(version, hash, body) + after), false, cli, sha) == NotInProject
  {
    BlockParses(before, version, hash, body, after);
  }

  /** Inside of a project no file is answered so. */
  lemma InsideProject(file: Option<string>, cli: Cli, sha: Hash)
    ensures CheckDrift(file, true, cli, sha) != NotInProject
  {
    match file {
      case None =>
      case Some(source) =>
        if ParseAgentsBlock(source).Parsed? {
          NeverOutside(ParseAgentsBlock(source).block, ParseAgentsBlock(Wrap(cli, sha)), sha);
        }
    }
  }

  lemma NeverOutside(block: ParsedBlock, current: ParseOutcome, sha: Hash)
    ensures AgainstCurrent(block, current, sha) != NotInProject
  {
  }

  /** A place without Cargo.toml is refused whatever the file holds, and no other place is. */
  lemma NoCargoTomlIff(file: Option<string>, cargoToml: bool, cli: Cli, sha: Hash, force: bool)
    ensures FixAgents(file, cargoToml, cli, sha, force) == Refused(NoCargoToml) <==> !cargoToml
  {
  }

  /** The text the tool writes, in full. */
  lemma WrapText(cli: Cli, sha: Hash)
    ensures Wrap(cli, sha)
         == "<!-- BEGIN:rapina-agent-rules v" + cli.version + " sha256:" + sha(cli.bundle) + " -->\n"
            + cli.bundle + "\n<!-- END:rapina-agent-rules -->\n"
  {
    BeginText();
    assert "<!-- BEGIN:rapina-agent-rules v" == BEGIN + "v" && " -->\n" == " -->" + "\n";
    assert "\n<!-- END:rapina-agent-rules -->\n" == "\n" + (END + "\n");
    WrapParts(BEGIN, END, cli.version, sha(cli.bundle), cli.bundle);
  }

  lemma WrapParts(begin: string, end: string, version: string, hash: string, bundle: string)
    ensures Marked(begin, end, version, hash, bundle)
         == (begin + "v") + version + " sha256:" + hash + (" -->" + "\n") + bundle + ("\n" + (end + "\n"))
  {
  }

  // ---------------------------------------------------------------- what one fix does

  /** Where the text of the user lies, in a file with a block. */
  function Before(source: string): string
    requires ParseAgentsBlock(source).Parsed?
  {
    ParsedShape(source);
    source[..ParseAgentsBlock(source).block.beginPos]
  }

  function After(source: string): string
    requires ParseAgentsBlock(source).Parsed?
  {
    ParsedShape(source);
    source[ParseAgentsBlock(source).block.endPos..]
  }

  lemma WrapParses(before: string, cli: Cli, sha: Hash, after: string)
    requires ValidCli(cli) && HexHash(sha) && Clear(before)
    ensures var w := Wrap(cli, sha);
      ParseAgentsBlock(before + w + after)
      == Parsed(ParsedBlock(cli.version, sha(cli.bundle), cli.bundle, |before|, |before| + |w|))
  {
    BlockParses(before, cli.version, sha(cli.bundle), cli.bundle, after);
  }

  lemma EmptyIsClear()
    ensures Clear("")
  {
    MarkerFacts();
  }

  lemma Alone(w: string)
    ensures "" + w + "" == w
  {
  }

  lemma WrapAlone(cli: Cli, sha: Hash)
    requires ValidCli(cli) && HexHash(sha)
    ensures ParseAgentsBlock(Wrap(cli, sha))
         == Parsed(ParsedBlock(cli.version, sha(cli.bundle), cli.bundle, 0, |Wrap(cli, sha)|))
  {
    EmptyIsClear();
    WrapParses("", cli, sha, "");
    Alone(Wrap(cli, sha));
  }

  lemma SplicedSlices(a: string, w: string, c: string)
    ensures (a + w + c)[..|a|] == a && (a + w + c)[|a| + |w|..] == c
  {
  }

  lemma DriftOfBlock(source: string, cli: Cli, sha: Hash)
    requires ValidCli(cli) && HexHash(sha) && ParseAgentsBlock(source).Parsed?
    ensures CheckDrift(Some(source), true, cli, sha) == Classify(ParseAgentsBlock(source).block, cli.bundle, sha)
  {
    WrapAlone(cli, sha);
  }

  /** A written fix leaves the text in front of the block and after it as it was, byte for byte,
      and the block is the new one: whatever text held the block, forced or not. */
  lemma FixKeepsOutside(source: string, cli: Cli, sha: Hash, force: bool)
    requires ValidCli(cli) && HexHash(sha) && ParseAgentsBlock(source).Parsed?
    requires FixAgents(Some(source), true, cli, sha, force).Written?
    ensures var t := FixAgents(Some(source), true, cli, sha, force).text;
      && t == Before(source) + Wrap(cli, sha) + After(source)
      && ParseAgentsBlock(t).Parsed?
      && Before(t) == Before(source) && After(t) == After(source)
      && ParseAgentsBlock(t).block.body == cli.bundle
      && ParseAgentsBlock(t).block.storedVersion == cli.version
      && !Edited(ParseAgentsBlock(t).block, sha)
  {
    ParsedShape(source);
    var before, after := Before(source), After(source);
    NotEmpty(source);
    WrapParses(before, cli, sha, after);
    SplicedSlices(before, Wrap(cli, sha), after);
  }

  lemma NotEmpty(source: string)
    requires ParseAgentsBlock(source).Parsed?
    ensures source != ""
  {
    ParsedShape(source);
  }

  /** A text the tool has written, around any text that is free of markers in front. */
  lemma WrittenIsCurrent(before: string, after: string, cli: Cli, sha: Hash, force: bool)
    requires ValidCli(cli) && HexHash(sha) && Clear(before)
    ensures var t := before + Wrap(cli, sha) + after;
      && CheckDrift(Some(t), true, cli, sha) == UpToDate
      && FixAgents(Some(t), true, cli, sha, force) == Written(t)
  {
    var t := before + Wrap(cli, sha) + after;
    WrapParses(before, cli, sha, after);
    DriftOfBlock(t, cli, sha);
    NotEmpty(t);
    SplicedSlices(before, Wrap(cli, sha), after);
  }

  /** What a fix writes: its own text, in place of the block or alone. */
  lemma WrittenAs(file: Option<string>, cli: Cli, sha: Hash, force: bool) returns (before: string, after: string)
    requires FixAgents(file, true, cli, sha, force).Written?
    ensures Clear(before) && FixAgents(file, true, cli, sha, force).text == before + Wrap(cli, sha) + after
  {
    var source := if file.Some? then file.value else "";
    if source != "" && ParseAgentsBlock(source).Parsed? {
      ParsedShape(source);
      before, after := Before(source), After(source);
    } else {
      EmptyIsClear();
      before, after := "", "";
      Alone(Wrap(cli, sha));
    }
  }

  /** After any successful fix the drift check is content, and a second fix, forced or not, changes
      no byte; this holds of a missing file, of one without a block, and of any block. */
  lemma FixSettles(file: Option<string>, cli: Cli, sha: Hash, force: bool, again: bool)
    requires ValidCli(cli) && HexHash(sha)
    requires FixAgents(file, true, cli, sha, force).Written?
    ensures var t := FixAgents(file, true, cli, sha, force).text;
      && CheckDrift(Some(t), true, cli, sha) == UpToDate
      && FixAgents(Some(t), true, cli, sha, again) == Written(t)
  {
    var before, after := WrittenAs(file, cli, sha, force);
    WrittenIsCurrent(before, after, cli, sha, again);
  }

  /** What the three answers about a block mean, with a one-to-one hash; an unforced fix refuses
      exactly the edited blocks, so an edited block is reported as such unless the edit has made it
      equal to the bundled rules. */
  lemma DriftMeaning(source: string, cli: Cli, sha: Hash)
    requires ValidCli(cli) && HexHash(sha) && OneToOne(sha) && ParseAgentsBlock(source).Parsed?
    ensures var b := ParseAgentsBlock(source).block;
      var drift := CheckDrift(Some(source), true, cli, sha);
      && (drift == UpToDate <==> b.body == cli.bundle)
      && (drift == Stale(b.storedVersion) <==> b.body != cli.bundle && !Edited(b, sha))
      && (drift == UserEdited(b.body, cli.bundle) <==> b.body != cli.bundle && Edited(b, sha))
      && (FixAgents(Some(source), true, cli, sha, false) == Refused(EditedInside) <==> Edited(b, sha))
  {
    DriftOfBlock(source, cli, sha);
    RefusedIff(source, cli, sha);
  }

  lemma RefusedIff(source: string, cli: Cli, sha: Hash)
    requires ParseAgentsBlock(source).Parsed?
    ensures FixAgents(Some(source), true, cli, sha, false) == Refused(EditedInside)
       <==> Edited(ParseAgentsBlock(source).block, sha)
  {
    NotEmpty(source);
  }

  /** The text that is the user's: around a block, or the whole file if it has none. */
  function Outside(source: string): (string, string) {
    if ParseAgentsBlock(source).Parsed? then (Before(source), After(source)) else (source, "")
  }

  /** The promise to preserve what stands outside the markers is kept exactly for files that have a
      block, and trivially for an empty one: any other file is replaced whole. */
  lemma OutsideKeptIff(source: string, cli: Cli, sha: Hash, force: bool)
    requires ValidCli(cli) && HexHash(sha) && FixAgents(Some(source), true, cli, sha, force).Written?
    ensures FixAgents(Some(source), true, cli, sha, force).text
         == Outside(source).0 + Wrap(cli, sha) + Outside(source).1
       <==> ParseAgentsBlock(source).Parsed? || source == ""
  {
    if ParseAgentsBlock(source).Parsed? {
      FixKeepsOutside(source, cli, sha, force);
    } else if source == "" {
      Alone(Wrap(cli, sha));
    } else {
      assert |source + Wrap(cli, sha) + ""| > |Wrap(cli, sha)|;
    }
  }

  /** Check and fix panic on the same texts, whatever else holds: those whose header line runs past
      the first end marker. */
  lemma PanicsOnOverrun(source: string, inProject: bool, cli: Cli, sha: Hash, force: bool)
    requires ValidCli(cli) && HexHash(sha)
    ensures CheckDrift(Some(source), inProject, cli, sha) == CheckPanics <==> Overrun(source, BEGIN, END)
    ensures FixAgents(Some(source), true, cli, sha, force) == FixPanics <==> Overrun(source, BEGIN, END)
  {
    CheckPanicsIff(source, inProject, cli, sha);
    FixPanicsIff(source, cli, sha, force);
    PanicsIff(source);
  }

  lemma CheckPanicsIff(source: string, inProject: bool, cli: Cli, sha: Hash)
    requires ValidCli(cli) && HexHash(sha)
    ensures CheckDrift(Some(source), inProject, cli, sha) == CheckPanics <==> ParseAgentsBlock(source) == Panics
  {
    WrapAlone(cli, sha);
    var current := ParseAgentsBlock(Wrap(cli, sha));
    match ParseAgentsBlock(source) {
      case NoBlock =>
      case Panics =>
      case Parsed(block) =>
        assert AgainstCurrent(block, current, sha) != CheckPanics;
    }
  }

  lemma FixPanicsIff(source: string, cli: Cli, sha: Hash, force: bool)
    ensures FixAgents(Some(source), true, cli, sha, force) == FixPanics <==> ParseAgentsBlock(source) == Panics
  {
    ParseEmpty();
  }

  /** So both do once the begin line of a written block has lost its arrow, whatever was done inside. */
  lemma LostArrowStops(before: string, body: string, after: string, inProject: bool, cli: Cli, sha: Hash, force: bool)
    requires ValidCli(cli) && HexHash(sha) && !Contains(before, BEGIN) && !Contains(body, "-->")
    ensures var line := BEGIN + (Middle(cli.version, sha(cli.bundle)) + ("\n" + (body + ("\n" + END))));
      && CheckDrift(Some(before + (line + after)), inProject, cli, sha) == CheckPanics
      && FixAgents(Some(before + (line + after)), true, cli, sha, force) == FixPanics
  {
    var line := BEGIN + (Middle(cli.version, sha(cli.bundle)) + ("\n" + (body + ("\n" + END))));
    LostArrowPanics(before, cli.version, sha(cli.bundle), body, after);
    PanicsIff(before + (line + after));
    PanicsOnOverrun(before + (line + after), inProject, cli, sha, force);
  }

  /** An edit between the markers of a block the tool has printed is always noticed; an edit around
      the block never is. */
  lemma EditIsNoticed(before: string, version: string, written: string, body: string, after: string, sha: Hash)
    requires Version(version) && HexHash(sha) && OneToOne(sha) && Clear(before) && !Contains(body, END)
    ensures var source := before + Block(version, sha(written), body) + after;
      && ParseAgentsBlock(source).Parsed?
      && Before(source) == before && After(source) == after
      && (Edited(ParseAgentsBlock(source).block, sha) <==> body != written)
  {
    BlockParses(before, version, sha(written), body, after);
    SplicedSlices(before, Block(version, sha(written), body), after);
  }

  // ---------------------------------------------------------------- every run

  /** Any edit of the file, a new version of the tool, an unforced fix. */
  datatype Event = Edit(text: string) | Upgrade(cli: Cli) | Fix

  datatype World = World(text: string, cli: Cli)

  function Step(w: World, e: Event, sha: Hash): World {
    match e
    case Edit(text) => w.(text := text)
    case Upgrade(cli) => w.(cli := cli)
    case Fix =>
      var outcome := FixAgents(Some(w.text), true, w.cli, sha, false);
      if outcome.Written? then w.(text := outcome.text) else w
  }

  function Run(w: World, events: seq<Event>, sha: Hash): World
    decreases |events|
  {
    if events == [] then w else Run(Step(w, events[0], sha), events[1..], sha)
  }

  /** The text as the user left it last. */
  function LastEdit(text: string, events: seq<Event>): string
    decreases |events|
  {
    if events == [] then text
    else LastEdit(if events[0].Edit? then events[0].text else text, events[1..])
  }

  predicate ValidEvents(events: seq<Event>) {
    forall i :: 0 <= i < |events| && events[i].Upgrade? ==> ValidCli(events[i].cli)
  }

  /** `text` respects what the user left as `left`: the same text around the block, and the same
      file altogether if the block was edited or cannot be read. */
  predicate Respects(text: string, left: string, sha: Hash) {
    match ParseAgentsBlock(left)
    case NoBlock => true
    case Panics => text == left
    case Parsed(block) =>
      if Edited(block, sha) then text == left
      else
        && ParseAgentsBlock(text).Parsed?
        && !Edited(ParseAgentsBlock(text).block, sha)
        && Before(text) == Before(left) && After(text) == After(left)
  }

  lemma FixRespects(w: World, left: string, sha: Hash)
    requires ValidCli(w.cli) && HexHash(sha) && Respects(w.text, left, sha)
    ensures Respects(Step(w, Fix, sha).text, left, sha)
  {
    if ParseAgentsBlock(left) != NoBlock {
      if FixAgents(Some(w.text), true, w.cli, sha, false).Written? {
        WrittenRespects(w.text, w.cli, left, sha);
      }
    }
  }

  lemma WrittenRespects(text: string, cli: Cli, left: string, sha: Hash)
    requires ValidCli(cli) && HexHash(sha) && ParseAgentsBlock(left) != NoBlock && Respects(text, left, sha)
    requires FixAgents(Some(text), true, cli, sha, false).Written?
    ensures Respects(FixAgents(Some(text), true, cli, sha, false).text, left, sha)
  {
    RespectedBlock(text, left, sha);
    WrittenUnforced(text, cli, sha);
    FixKeepsOutside(text, cli, sha, false);
    StillRespects(text, FixAgents(Some(text), true, cli, sha, false).text, left, sha);
  }

  lemma RespectedBlock(text: string, left: string, sha: Hash)
    requires ParseAgentsBlock(left) != NoBlock && Respects(text, left, sha)
    ensures ParseAgentsBlock(text) != NoBlock
  {
  }

  predicate Readable(text: string, sha: Hash) {
    ParseAgentsBlock(text).Parsed? && !Edited(ParseAgentsBlock(text).block, sha)
  }

  lemma StillRespects(text: string, text': string, left: string, sha: Hash)
    requires ParseAgentsBlock(left) != NoBlock && Respects(text, left, sha)
    requires Readable(text, sha) && Readable(text', sha)
    requires Before(text') == Before(text) && After(text') == After(text)
    ensures Respects(text', left, sha)
  {
  }

  lemma WrittenUnforced(text: string, cli: Cli, sha: Hash)
    requires ParseAgentsBlock(text) != NoBlock && FixAgents(Some(text), true, cli, sha, false).Written?
    ensures Readable(text, sha)
  {
    ParseEmpty();
  }

  lemma ParseEmpty()
    ensures ParseAgentsBlock("") == NoBlock
  {
    MarkerFacts();
  }

  /** EVERY RUN. Whatever the user writes and whenever, through any upgrades and unforced fixes, the
      text around the block is as the user left it last, and a block edited inside is never
      overwritten. Only a file without a block is given up. */
  lemma {:induction false} RunRespects(w: World, left: string, events: seq<Event>, sha: Hash)
    requires ValidCli(w.cli) && ValidEvents(events) && HexHash(sha) && Respects(w.text, left, sha)
    ensures Respects(Run(w, events, sha).text, LastEdit(left, events), sha)
    decreases |events|
  {
    if events != [] {
      var w' := Step(w, events[0], sha);
      match events[0] {
        case Edit(text) =>
          RunRespects(w', text, events[1..], sha);
        case Upgrade(cli) =>
          RunRespects(w', left, events[1..], sha);
        case Fix =>
          FixRespects(w, left, sha);
          RunRespects(w', left, events[1..], sha);
      }
    }
  }

  function LastCli(cli: Cli, events: seq<Event>): Cli
    decreases |events|
  {
    if events == [] then cli
    else LastCli(if events[0].Upgrade? then events[0].cli else cli, events[1..])
  }

  lemma {:induction false} RunAppends(w: World, events: seq<Event>, e: Event, sha: Hash)
    ensures Run(w, events + [e], sha) == Step(Run(w, events, sha), e, sha)
    ensures Run(w, events, sha).cli == LastCli(w.cli, events)
    ensures ValidCli(w.cli) && ValidEvents(events) ==> ValidCli(LastCli(w.cli, events))
    decreases |events|
  {
    if events == [] {
      assert events + [e] == [e];
    } else {
      assert (events + [e])[0] == events[0] && (events + [e])[1..] == events[1..] + [e];
      RunAppends(Step(w, events[0], sha), events[1..], e, sha);
    }
  }

  /** A fix at the end of any run leaves the file up to date with the rules installed last, unless the
      block was edited or cannot be read, when it leaves the file alone. */
  lemma FixEndsRun(w: World, events: seq<Event>, sha: Hash)
    requires ValidCli(w.cli) && ValidEvents(events) && HexHash(sha)
    ensures var before, after := Run(w, events, sha).text, Run(w, events + [Fix], sha).text;
      var cli := LastCli(w.cli, events);
      match ParseAgentsBlock(before)
      case Panics => after == before
      case NoBlock => CheckDrift(Some(after), true, cli, sha) == UpToDate
      case Parsed(block) =>
        if sha(block.body) != block.storedHash then after == before
        else CheckDrift(Some(after), true, cli, sha) == UpToDate
  {
    RunAppends(w, events, Fix, sha);
    var before, cli := Run(w, events, sha).text, LastCli(w.cli, events);
    ParseEmpty();
    if FixAgents(Some(before), true, cli, sha, false).Written? {
      FixSettles(Some(before), cli, sha, false, false);
    }
  }
}
