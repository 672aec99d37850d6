/** `EmojiParser.loadEmojiGroup(from:)`: the line scanner of
    Sources/EmojiPalette/EmojiParser.swift. The specification `Run` works on
    the list of groups alone; the method `LoadEmojiGroup` keeps the three
    cursors of the source (`groups`, `subgroups`, `emojis`) and is proved to
    compute `Run`. A Swift trap (an index out of range, `removeFirst` on an
    empty array) is a `Trapped` result naming the line and the cause. */
module Scanner {
  import opened Wrappers
  import opened Text
  import opened Entities
  import opened LineFields

  /** Why a line traps. */
  datatype TrapKind =
    | NoGroup      // a subgroup header before any group: `groups[groups.count - 1]`
    | NoSubgroup   // an entry before any subgroup: `subgroups[subgroups.count - 1]`
    | ShortName    // the text after the hash has no space: the second `removeFirst`

  /** The groups after one line, or the trap it hits. */
  datatype LineResult = Next(groups: seq<EmojiGroup>) | Crash(kind: TrapKind)

  /** The groups after all lines, or the first line that traps and why. */
  datatype ParseResult = Parsed(groups: seq<EmojiGroup>) | Trapped(line: nat, kind: TrapKind)

  /** A group header: a new group with no subgroups at the end. */
  function OpenGroup(gs: seq<EmojiGroup>, name: string): seq<EmojiGroup>
  {
    gs + [EmojiGroup(name, [])]
  }

  /** A subgroup header: a new empty subgroup at the end of the last group. */
  function OpenSubgroup(gs: seq<EmojiGroup>, name: string): seq<EmojiGroup>
    requires gs != []
  {
    var g := Last(gs);
    gs[|gs| - 1 := g.(subgroups := g.subgroups + [EmojiSubGroup(name, [])])]
  }

  /** An accepted entry: one more emoji at the end of the last subgroup of the
      last group. */
  function AddEmoji(gs: seq<EmojiGroup>, e: Emoji): seq<EmojiGroup>
    requires gs != [] && Last(gs).subgroups != []
  {
    var g := Last(gs);
    var s := Last(g.subgroups);
    gs[|gs| - 1 := g.(subgroups := g.subgroups[|g.subgroups| - 1 := s.(emojis := s.emojis + [e])])]
  }

  /** Whether the last group has a subgroup to receive an entry. */
  predicate HasOpenSubgroup(gs: seq<EmojiGroup>)
  {
    gs != [] && Last(gs).subgroups != []
  }

  /** What the three tests of the scanner read from one line, each on the
      line alone: the group header name, the subgroup header name and the
      verdict of the data test. */
  datatype LineInfo = LineInfo(group: Option<string>, subgroup: Option<string>, verdict: Verdict)

  function Analyse(ws: char -> bool, line: string): LineInfo
  {
    LineInfo(MarkerName(ws, line, GroupTag), MarkerName(ws, line, SubgroupTag), Classify(ws, line))
  }

  /** Every line of the text, analysed. */
  function AnalyseAll(ws: char -> bool, lines: seq<string>): (r: seq<LineInfo>)
    ensures |r| == |lines|
  {
    seq(|lines|, k requires 0 <= k < |lines| => Analyse(ws, lines[k]))
  }

  /** Each line is analysed on its own. */
  lemma AnalyseAllAt(ws: char -> bool, lines: seq<string>, k: nat)
    requires k < |lines|
    ensures AnalyseAll(ws, lines)[k] == Analyse(ws, lines[k])
  {
  }

  /** The third `if` of a line, applied to the groups. */
  function DataStep(gs: seq<EmojiGroup>, v: Verdict): LineResult
  {
    match v
    case NoName => Crash(ShortName)
    case Entry(e) => if HasOpenSubgroup(gs) then Next(AddEmoji(gs, e)) else Crash(NoSubgroup)
    case _ => Next(gs)
  }

  /** One line: the group header test, then the subgroup header test, then the
      data test, each on the outcome of the one before. */
  function ApplyLine(gs: seq<EmojiGroup>, info: LineInfo): LineResult
  {
    var afterGroup :=
      match info.group
      case Some(name) => OpenGroup(gs, name)
      case None => gs;
    match info.subgroup
    case Some(name) =>
      if afterGroup == [] then Crash(NoGroup) else DataStep(OpenSubgroup(afterGroup, name), info.verdict)
    case None => DataStep(afterGroup, info.verdict)
  }

  /** The lines in order, from no groups, stopping at the first trap. */
  function Run(infos: seq<LineInfo>): ParseResult
    decreases |infos|
  {
    if infos == [] then Parsed([])
    else
      match Run(infos[..|infos| - 1])
      case Trapped(k, kind) => Trapped(k, kind)
      case Parsed(gs) =>
        match ApplyLine(gs, Last(infos))
        case Next(gs') => Parsed(gs')
        case Crash(kind) => Trapped(|infos| - 1, kind)
  }

  // ---------------------------------------------------------------------
  // The cursor scanner

  /** The three local arrays of the scanner. */
  datatype Cursors = Cursors(groups: seq<EmojiGroup>, subgroups: seq<EmojiSubGroup>, emojis: seq<Emoji>)

  /** What the closure leaves after one line: new cursors, or a trap. */
  datatype Step = Continue(cursors: Cursors) | Stop(kind: TrapKind)

  /** The cursors mirror the end of the groups: `subgroups` is the last
      group's subgroup list and `emojis` the last subgroup's emoji list. */
  predicate Coherent(c: Cursors)
  {
    (c.groups == [] ==> c.subgroups == []) &&
    (c.groups != [] ==> Last(c.groups).subgroups == c.subgroups) &&
    (c.subgroups != [] ==> Last(c.subgroups).emojis == c.emojis)
  }

  /** The closure given to `enumerateLines`, on one line: three independent
      tests, each updating the cursors and writing them back into the last
      subgroup and the last group. */
  method ScanLine(ws: char -> bool, lines: seq<string>, i: nat, c: Cursors) returns (step: Step)
    requires i < |lines| && Coherent(c)
    ensures step.Stop? ==> ApplyLine(c.groups, AnalyseAll(ws, lines)[i]) == Crash(step.kind)
    ensures step.Continue? ==>
      ApplyLine(c.groups, AnalyseAll(ws, lines)[i]) == Next(step.cursors.groups) && Coherent(step.cursors)
  {
    AnalyseAllAt(ws, lines, i);
    var line := lines[i];
    var groups, subgroups, emojis := c.groups, c.subgroups, c.emojis;
    var group := MarkerName(ws, line, GroupTag);
    if group.Some? {
      subgroups := [];
      groups := groups + [EmojiGroup(group.value, [])];
    }
    ghost var afterGroup := groups;
    assert Coherent(Cursors(groups, subgroups, emojis));
    var subGroup := MarkerName(ws, line, SubgroupTag);
    if subGroup.Some? {
      emojis := [];
      subgroups := subgroups + [EmojiSubGroup(subGroup.value, [])];
      if groups == [] {
        return Stop(NoGroup);
      }
      groups := groups[|groups| - 1 := groups[|groups| - 1].(subgroups := subgroups)];
      assert groups == OpenSubgroup(afterGroup, subGroup.value);
    }
    assert ApplyLine(c.groups, Analyse(ws, line)) == DataStep(groups, Classify(ws, line));
    step := ScanData(ws, line, Cursors(groups, subgroups, emojis));
  }

  /** The third test of the closure: a data line that survives the filters
      appends its emoji to the `emojis` cursor and writes it back. */
  method ScanData(ws: char -> bool, line: string, c: Cursors) returns (step: Step)
    requires Coherent(c)
    ensures step.Stop? ==> DataStep(c.groups, Classify(ws, line)) == Crash(step.kind)
    ensures step.Continue? ==>
      DataStep(c.groups, Classify(ws, line)) == Next(step.cursors.groups) && Coherent(step.cursors)
  {
    if IsDataCandidate(line) {
      var fields := DataFields(ws, line);
      if fields.Some? {
        step := ScanFields(ws, fields.value, c);
        return;
      }
    }
    return Continue(c);
  }

  /** The filters and the entry of a data line, from its fields. */
  method ScanFields(ws: char -> bool, f: Fields, c: Cursors) returns (step: Step)
    requires Coherent(c)
    ensures step.Stop? ==> DataStep(c.groups, ClassifyFields(ws, f)) == Crash(step.kind)
    ensures step.Continue? ==>
      DataStep(c.groups, ClassifyFields(ws, f)) == Next(step.cursors.groups) && Coherent(step.cursors)
  {
    var status := f.status;
    var afterHash := f.afterHash;
    var emoji := Character(ws, afterHash);
    if IsExcludedStatus(status) {
      return Continue(c);
    }
    if IsSkinToneNote(afterHash) {
      return Continue(c);
    }
    var words := Components(afterHash, " ");
    words := words[1..];
    if words == [] {
      assert EntryId(afterHash) == None;
      return Stop(ShortName);
    }
    words := words[1..];
    var id := Join(StripColons(words), "-");
    assert EntryId(afterHash) == Some(id);
    assert ClassifyFields(ws, f) == Entry(Emoji(id, emoji));
    var emojis := c.emojis + [Emoji(id, emoji)];
    if c.subgroups == [] {
      return Stop(NoSubgroup);
    }
    var subgroups := c.subgroups[|c.subgroups| - 1 := c.subgroups[|c.subgroups| - 1].(emojis := emojis)];
    var groups := c.groups[|c.groups| - 1 := c.groups[|c.groups| - 1].(subgroups := subgroups)];
    CursorsAddEmoji(c, Emoji(id, emoji));
    return Continue(Cursors(groups, subgroups, emojis));
  }

  /** The write-back of an entry through coherent cursors is `AddEmoji`. */
  lemma CursorsAddEmoji(c: Cursors, e: Emoji)
    requires Coherent(c) && c.subgroups != []
    ensures HasOpenSubgroup(c.groups)
    ensures
      var emojis := c.emojis + [e];
      var subgroups := c.subgroups[|c.subgroups| - 1 := Last(c.subgroups).(emojis := emojis)];
      var groups := c.groups[|c.groups| - 1 := Last(c.groups).(subgroups := subgroups)];
      groups == AddEmoji(c.groups, e) && Coherent(Cursors(groups, subgroups, emojis))
  {
  }

  /** `loadEmojiGroup(from:)` on the lines of the text. */
  method LoadEmojiGroup(ws: char -> bool, lines: seq<string>) returns (r: ParseResult)
    ensures r == Run(AnalyseAll(ws, lines))
  {
    ghost var infos := AnalyseAll(ws, lines);
    var c := Cursors([], [], []);
    var i := 0;
    while i < |lines|
      invariant 0 <= i <= |lines|
      invariant Coherent(c)
      invariant Run(infos[..i]) == Parsed(c.groups)
    {
      var step := ScanLine(ws, lines, i, c);
      RunStep(infos, i, c.groups);
      if step.Stop? {
        return Trapped(i, step.kind);
      }
      c := step.cursors;
      i := i + 1;
    }
    assert infos[..i] == infos;
    return Parsed(c.groups);
  }

  /** One more line, after a prefix that parsed: its trap ends the run, or
      its groups are those of the longer prefix. */
  lemma RunStep(infos: seq<LineInfo>, i: nat, gs: seq<EmojiGroup>)
    requires i < |infos| && Run(infos[..i]) == Parsed(gs)
    ensures ApplyLine(gs, infos[i]).Crash? ==> Run(infos) == Trapped(i, ApplyLine(gs, infos[i]).kind)
    ensures ApplyLine(gs, infos[i]).Next? ==> Run(infos[..i + 1]) == Parsed(ApplyLine(gs, infos[i]).groups)
  {
    PrefixOfPrefix(infos, i, i + 1);
    if ApplyLine(gs, infos[i]).Crash? {
      TrapPersists(infos[..i + 1], infos[i + 1..]);
      PrefixAndRest(infos, i + 1);
    }
  }

  // ---------------------------------------------------------------------
  // Traps

  /** Once a line traps, no later line is read. */
  lemma {:induction false} TrapPersists(infos: seq<LineInfo>, more: seq<LineInfo>)
    requires Run(infos).Trapped?
    ensures Run(infos + more) == Run(infos)
    decreases |more|
  {
    if more != [] {
      var init := infos + more[..|more| - 1];
      assert (infos + more)[..|infos + more| - 1] == init;
      TrapPersists(infos, more[..|more| - 1]);
    } else {
      assert infos + more == infos;
    }
  }

  /** A trap names one of the lines read. */
  lemma {:induction false} TrappedBefore(infos: seq<LineInfo>)
    ensures Run(infos).Trapped? ==> Run(infos).line < |infos|
    decreases |infos|
  {
    if infos != [] {
      TrappedBefore(infos[..|infos| - 1]);
    }
  }

  /** The run traps at line `k` for `kind` exactly when the lines before `k`
      parse and line `k` hits that trap on their groups. */
  lemma {:induction false} TrappedAt(infos: seq<LineInfo>, k: nat, kind: TrapKind)
    ensures Run(infos) == Trapped(k, kind) <==>
      k < |infos| && Run(infos[..k]).Parsed? &&
      ApplyLine(Run(infos[..k]).groups, infos[k]) == Crash(kind)
    decreases |infos|
  {
    if infos != [] {
      var init := infos[..|infos| - 1];
      TrappedAt(init, k, kind);
      TrappedBefore(init);
      if k < |init| {
        assert init[..k] == infos[..k];
        assert init[k] == infos[k];
      } else if k == |init| {
        assert init == infos[..k];
      }
    }
  }
}
