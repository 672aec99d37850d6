/** What the scanner promises about the whole text: the emojis come out in
    file order and only from accepted data lines, the group and subgroup
    names are the header names in order, earlier output is only ever
    extended at its end, and entries or subgroup headers that come too early
    trap. */
module ScanLemmas {
  import opened Wrappers
  import opened Text
  import opened Entities
  import opened LineFields
  import opened Scanner

  // ---------------------------------------------------------------------
  // Emojis

  /** The emoji an analysed line contributes, if any. */
  function EntryOf(info: LineInfo): seq<Emoji>
  {
    if info.verdict.Entry? then [info.verdict.emoji] else []
  }

  /** The emojis of the accepted data lines, in file order. */
  function Accepted(infos: seq<LineInfo>): seq<Emoji>
    decreases |infos|
  {
    if infos == [] then [] else Accepted(infos[..|infos| - 1]) + EntryOf(Last(infos))
  }

  lemma AllEmojisSnoc(gs: seq<EmojiGroup>, g: EmojiGroup)
    ensures AllEmojis(gs + [g]) == AllEmojis(gs) + Flatten(g.subgroups)
  {
    assert (gs + [g])[..|gs|] == gs;
  }

  lemma AllEmojisLast(gs: seq<EmojiGroup>, g: EmojiGroup)
    requires gs != []
    ensures AllEmojis(gs[|gs| - 1 := g]) == AllEmojis(gs[..|gs| - 1]) + Flatten(g.subgroups)
    ensures AllEmojis(gs) == AllEmojis(gs[..|gs| - 1]) + Flatten(Last(gs).subgroups)
  {
    assert gs[|gs| - 1 := g] == gs[..|gs| - 1] + [g];
    AllEmojisSnoc(gs[..|gs| - 1], g);
  }

  lemma FlattenSnoc(ss: seq<EmojiSubGroup>, s: EmojiSubGroup)
    ensures Flatten(ss + [s]) == Flatten(ss) + s.emojis
  {
    FlattenAppend(ss, [s]);
    assert Flatten([s]) == s.emojis + Flatten([]);
  }

  /** A group header leaves the emojis as they are. */
  lemma OpenGroupEmojis(gs: seq<EmojiGroup>, name: string)
    ensures AllEmojis(OpenGroup(gs, name)) == AllEmojis(gs)
  {
    AllEmojisSnoc(gs, EmojiGroup(name, []));
  }

  /** A subgroup header leaves the emojis as they are. */
  lemma OpenSubgroupEmojis(gs: seq<EmojiGroup>, name: string)
    requires gs != []
    ensures AllEmojis(OpenSubgroup(gs, name)) == AllEmojis(gs)
  {
    var g := Last(gs);
    AllEmojisLast(gs, g.(subgroups := g.subgroups + [EmojiSubGroup(name, [])]));
    FlattenSnoc(g.subgroups, EmojiSubGroup(name, []));
  }

  /** One more emoji in the last subgroup comes last in the flattened list. */
  lemma FlattenExtendLast(ss: seq<EmojiSubGroup>, e: Emoji)
    requires ss != []
    ensures Flatten(ss[|ss| - 1 := Last(ss).(emojis := Last(ss).emojis + [e])]) == Flatten(ss) + [e]
  {
    var s := Last(ss);
    var init := ss[..|ss| - 1];
    assert ss[|ss| - 1 := s.(emojis := s.emojis + [e])] == init + [s.(emojis := s.emojis + [e])];
    assert ss == init + [s];
    FlattenSnoc(init, s.(emojis := s.emojis + [e]));
    FlattenSnoc(init, s);
  }

  /** An entry adds its emoji after all the others. */
  lemma AddEmojiEmojis(gs: seq<EmojiGroup>, e: Emoji)
    requires HasOpenSubgroup(gs)
    ensures AllEmojis(AddEmoji(gs, e)) == AllEmojis(gs) + [e]
  {
    var g := Last(gs);
    var ss := g.subgroups;
    var ss' := ss[|ss| - 1 := Last(ss).(emojis := Last(ss).emojis + [e])];
    AllEmojisLast(gs, g.(subgroups := ss'));
    FlattenExtendLast(ss, e);
  }

  /** One line adds the emoji of its entry, if any, at the end. */
  lemma LineEmojis(gs: seq<EmojiGroup>, info: LineInfo)
    requires ApplyLine(gs, info).Next?
    ensures AllEmojis(ApplyLine(gs, info).groups) == AllEmojis(gs) + EntryOf(info)
  {
    var afterGroup := if info.group.Some? then OpenGroup(gs, info.group.value) else gs;
    if info.group.Some? {
      OpenGroupEmojis(gs, info.group.value);
    }
    var afterSubgroup := if info.subgroup.Some? then OpenSubgroup(afterGroup, info.subgroup.value) else afterGroup;
    if info.subgroup.Some? {
      OpenSubgroupEmojis(afterGroup, info.subgroup.value);
    }
    if info.verdict.Entry? {
      AddEmojiEmojis(afterSubgroup, info.verdict.emoji);
    }
  }

  /** The emojis the scanner returns are those of the accepted data lines, in
      file order. */
  lemma {:induction false} RunEmojis(infos: seq<LineInfo>)
    requires Run(infos).Parsed?
    ensures AllEmojis(Run(infos).groups) == Accepted(infos)
    decreases |infos|
  {
    if infos != [] {
      var init := infos[..|infos| - 1];
      RunEmojis(init);
      LineEmojis(Run(init).groups, Last(infos));
    }
  }

  /** Every accepted emoji comes from a line that analyses to that entry. */
  lemma {:induction false} AcceptedFrom(infos: seq<LineInfo>, e: Emoji)
    requires e in Accepted(infos)
    ensures exists k :: 0 <= k < |infos| && infos[k].verdict == Entry(e)
    decreases |infos|
  {
    var init := infos[..|infos| - 1];
    if e in Accepted(init) {
      AcceptedFrom(init, e);
      var k :| 0 <= k < |init| && init[k].verdict == Entry(e);
      assert infos[k] == init[k];
    } else {
      assert Last(infos).verdict == Entry(e);
    }
  }

  /** Every emoji the scanner returns comes from a data line that has a `;`,
      no `Format:`, a status that is neither `unqualified` nor
      `minimally-qualified`, and no skin-tone note; its character is a
      non-empty prefix of that line's text after the hash. */
  lemma EmojisAreKept(ws: char -> bool, lines: seq<string>, e: Emoji)
    requires Run(AnalyseAll(ws, lines)).Parsed?
    requires e in AllEmojis(Run(AnalyseAll(ws, lines)).groups)
    ensures exists k {:trigger KeptEntry(ws, lines[k], e)} :: 0 <= k < |lines| && KeptEntry(ws, lines[k], e)
  {
    var infos := AnalyseAll(ws, lines);
    RunEmojis(infos);
    AcceptedFrom(infos, e);
    var k :| 0 <= k < |infos| && infos[k].verdict == Entry(e);
    EntryLine(ws, lines, k, e);
  }

  /** The line behind an accepted entry is kept. */
  lemma EntryLine(ws: char -> bool, lines: seq<string>, k: nat, e: Emoji)
    requires k < |lines| && AnalyseAll(ws, lines)[k].verdict == Entry(e)
    ensures KeptEntry(ws, lines[k], e)
  {
    AnalyseAllAt(ws, lines, k);
    assert Classify(ws, lines[k]) == Entry(e);
    ClassifyEntry(ws, lines[k]);
  }

  // ---------------------------------------------------------------------
  // Names

  function GroupNames(gs: seq<EmojiGroup>): seq<string>
  {
    seq(|gs|, k requires 0 <= k < |gs| => gs[k].name)
  }

  function SubgroupNamesOf(ss: seq<EmojiSubGroup>): seq<string>
  {
    seq(|ss|, k requires 0 <= k < |ss| => ss[k].name)
  }

  /** The subgroup names of all groups, group by group. */
  function SubgroupNames(gs: seq<EmojiGroup>): seq<string>
    decreases |gs|
  {
    if gs == [] then [] else SubgroupNames(gs[..|gs| - 1]) + SubgroupNamesOf(Last(gs).subgroups)
  }

  /** The names of the group headers, in file order. */
  function GroupHeaders(infos: seq<LineInfo>): seq<string>
    decreases |infos|
  {
    if infos == [] then []
    else GroupHeaders(infos[..|infos| - 1]) + (match Last(infos).group case Some(n) => [n] case None => [])
  }

  /** The names of the subgroup headers, in file order. */
  function SubgroupHeaders(infos: seq<LineInfo>): seq<string>
    decreases |infos|
  {
    if infos == [] then []
    else SubgroupHeaders(infos[..|infos| - 1]) + (match Last(infos).subgroup case Some(n) => [n] case None => [])
  }

  lemma SubgroupNamesLast(gs: seq<EmojiGroup>, g: EmojiGroup)
    requires gs != []
    ensures SubgroupNames(gs[|gs| - 1 := g]) == SubgroupNames(gs[..|gs| - 1]) + SubgroupNamesOf(g.subgroups)
  {
    assert gs[|gs| - 1 := g][..|gs| - 1] == gs[..|gs| - 1];
  }

  lemma OpenGroupNames(gs: seq<EmojiGroup>, name: string)
    ensures GroupNames(OpenGroup(gs, name)) == GroupNames(gs) + [name]
    ensures SubgroupNames(OpenGroup(gs, name)) == SubgroupNames(gs)
  {
    assert OpenGroup(gs, name)[..|gs|] == gs;
  }

  lemma OpenSubgroupNames(gs: seq<EmojiGroup>, name: string)
    requires gs != []
    ensures GroupNames(OpenSubgroup(gs, name)) == GroupNames(gs)
    ensures SubgroupNames(OpenSubgroup(gs, name)) == SubgroupNames(gs) + [name]
  {
    var g := Last(gs);
    var s := EmojiSubGroup(name, []);
    SubgroupNamesLast(gs, g.(subgroups := g.subgroups + [s]));
    assert SubgroupNamesOf(g.subgroups + [s]) == SubgroupNamesOf(g.subgroups) + [name];
  }

  lemma AddEmojiNames(gs: seq<EmojiGroup>, e: Emoji)
    requires HasOpenSubgroup(gs)
    ensures GroupNames(AddEmoji(gs, e)) == GroupNames(gs)
    ensures SubgroupNames(AddEmoji(gs, e)) == SubgroupNames(gs)
  {
    var g := Last(gs);
    var ss := g.subgroups;
    var s := Last(ss);
    var ss' := ss[|ss| - 1 := s.(emojis := s.emojis + [e])];
    SubgroupNamesLast(gs, g.(subgroups := ss'));
    assert SubgroupNamesOf(ss') == SubgroupNamesOf(ss);
    assert SubgroupNames(gs) == SubgroupNames(gs[..|gs| - 1]) + SubgroupNamesOf(ss);
  }

  /** One line adds its group header's name to the group names and its
      subgroup header's name to the subgroup names. */
  lemma LineNames(gs: seq<EmojiGroup>, info: LineInfo)
    requires ApplyLine(gs, info).Next?
    ensures GroupNames(ApplyLine(gs, info).groups) ==
      GroupNames(gs) + (match info.group case Some(n) => [n] case None => [])
    ensures SubgroupNames(ApplyLine(gs, info).groups) ==
      SubgroupNames(gs) + (match info.subgroup case Some(n) => [n] case None => [])
  {
    var afterGroup := if info.group.Some? then OpenGroup(gs, info.group.value) else gs;
    if info.group.Some? {
      OpenGroupNames(gs, info.group.value);
    }
    var afterSubgroup := if info.subgroup.Some? then OpenSubgroup(afterGroup, info.subgroup.value) else afterGroup;
    if info.subgroup.Some? {
      OpenSubgroupNames(afterGroup, info.subgroup.value);
    }
    if info.verdict.Entry? {
      AddEmojiNames(afterSubgroup, info.verdict.emoji);
    }
  }

  /** The groups are named by the group headers and the subgroups by the
      subgroup headers, in file order. */
  lemma {:induction false} RunNames(infos: seq<LineInfo>)
    requires Run(infos).Parsed?
    ensures GroupNames(Run(infos).groups) == GroupHeaders(infos)
    ensures SubgroupNames(Run(infos).groups) == SubgroupHeaders(infos)
    decreases |infos|
  {
    if infos != [] {
      var init := infos[..|infos| - 1];
      RunNames(init);
      LineNames(Run(init).groups, Last(infos));
    }
  }

  // ---------------------------------------------------------------------
  // Growth: earlier output is only ever extended at its end

  /** `s'` is `s` with possibly more emojis at the end. */
  predicate SubgroupGrows(s: EmojiSubGroup, s': EmojiSubGroup)
  {
    s'.name == s.name && s.emojis <= s'.emojis
  }

  /** `ss'` keeps all subgroups of `ss` but the last one unchanged, lets the
      last one grow, and may add more after it. */
  predicate SubgroupsGrow(ss: seq<EmojiSubGroup>, ss': seq<EmojiSubGroup>)
  {
    |ss| <= |ss'| &&
    (ss != [] ==> ss[..|ss| - 1] == ss'[..|ss| - 1] && SubgroupGrows(Last(ss), ss'[|ss| - 1]))
  }

  /** `gs'` keeps all groups of `gs` but the last one unchanged, lets the last
      one grow at its end, and may add more groups after it. */
  predicate GroupsGrow(gs: seq<EmojiGroup>, gs': seq<EmojiGroup>)
  {
    |gs| <= |gs'| &&
    (gs != [] ==>
      gs[..|gs| - 1] == gs'[..|gs| - 1] && gs'[|gs| - 1].name == Last(gs).name &&
      SubgroupsGrow(Last(gs).subgroups, gs'[|gs| - 1].subgroups))
  }

  lemma SubgroupsGrowRefl(ss: seq<EmojiSubGroup>)
    ensures SubgroupsGrow(ss, ss)
  {
  }

  lemma SubgroupsGrowTrans(a: seq<EmojiSubGroup>, b: seq<EmojiSubGroup>, c: seq<EmojiSubGroup>)
    requires SubgroupsGrow(a, b) && SubgroupsGrow(b, c)
    ensures SubgroupsGrow(a, c)
  {
    if a != [] && |a| < |b| {
      assert a[..|a| - 1] == b[..|b| - 1][..|a| - 1];
      assert b[|a| - 1] == b[..|b| - 1][|a| - 1];
    }
  }

  lemma GroupsGrowRefl(gs: seq<EmojiGroup>)
    ensures GroupsGrow(gs, gs)
  {
    if gs != [] {
      SubgroupsGrowRefl(Last(gs).subgroups);
    }
  }

  lemma GroupsGrowTrans(a: seq<EmojiGroup>, b: seq<EmojiGroup>, c: seq<EmojiGroup>)
    requires GroupsGrow(a, b) && GroupsGrow(b, c)
    ensures GroupsGrow(a, c)
  {
    if a != [] {
      if |a| < |b| {
        assert a[..|a| - 1] == b[..|b| - 1][..|a| - 1];
        assert b[|a| - 1] == b[..|b| - 1][|a| - 1];
        assert c[|a| - 1] == c[..|b| - 1][|a| - 1];
        SubgroupsGrowRefl(b[|a| - 1].subgroups);
      } else {
        SubgroupsGrowTrans(Last(a).subgroups, b[|a| - 1].subgroups, c[|a| - 1].subgroups);
      }
    }
  }

  lemma OpenGroupGrows(gs: seq<EmojiGroup>, name: string)
    ensures GroupsGrow(gs, OpenGroup(gs, name))
  {
    if gs != [] {
      assert OpenGroup(gs, name)[..|gs| - 1] == gs[..|gs| - 1];
      SubgroupsGrowRefl(Last(gs).subgroups);
    }
  }

  lemma OpenSubgroupGrows(gs: seq<EmojiGroup>, name: string)
    requires gs != []
    ensures GroupsGrow(gs, OpenSubgroup(gs, name))
  {
    var ss := Last(gs).subgroups;
    assert (ss + [EmojiSubGroup(name, [])])[..|ss|] == ss;
    if ss != [] {
      assert (ss + [EmojiSubGroup(name, [])])[..|ss| - 1] == ss[..|ss| - 1];
    }
  }

  lemma AddEmojiGrows(gs: seq<EmojiGroup>, e: Emoji)
    requires HasOpenSubgroup(gs)
    ensures GroupsGrow(gs, AddEmoji(gs, e))
  {
  }

  /** One line only extends the groups at their end. */
  lemma LineGrows(gs: seq<EmojiGroup>, info: LineInfo)
    requires ApplyLine(gs, info).Next?
    ensures GroupsGrow(gs, ApplyLine(gs, info).groups)
  {
    var afterGroup := if info.group.Some? then OpenGroup(gs, info.group.value) else gs;
    if info.group.Some? {
      OpenGroupGrows(gs, info.group.value);
    } else {
      GroupsGrowRefl(gs);
    }
    if info.subgroup.Some? {
      var afterSubgroup := OpenSubgroup(afterGroup, info.subgroup.value);
      OpenSubgroupGrows(afterGroup, info.subgroup.value);
      GroupsGrowTrans(gs, afterGroup, afterSubgroup);
      DataStepGrows(gs, afterSubgroup, info.verdict);
    } else {
      DataStepGrows(gs, afterGroup, info.verdict);
    }
  }

  /** The data test after groups that already grew from `gs`. */
  lemma DataStepGrows(gs: seq<EmojiGroup>, mid: seq<EmojiGroup>, v: Verdict)
    requires GroupsGrow(gs, mid) && DataStep(mid, v).Next?
    ensures GroupsGrow(gs, DataStep(mid, v).groups)
  {
    if v.Entry? {
      AddEmojiGrows(mid, v.emoji);
      GroupsGrowTrans(gs, mid, AddEmoji(mid, v.emoji));
    }
  }

  /** Lines that parse after a prefix that parses. */
  lemma PrefixParses(infos: seq<LineInfo>, n: nat)
    requires n <= |infos| && Run(infos).Parsed?
    ensures Run(infos[..n]).Parsed?
  {
    if Run(infos[..n]).Trapped? {
      TrapPersists(infos[..n], infos[n..]);
      PrefixAndRest(infos, n);
    }
  }

  /** What the scanner had built after any prefix of the lines is still there
      at the end, except that the last group and its last subgroup may have
      grown: only the last subgroup of the last group is ever rewritten. */
  lemma {:induction false} RunGrows(infos: seq<LineInfo>, n: nat)
    requires n <= |infos| && Run(infos).Parsed?
    ensures Run(infos[..n]).Parsed?
    ensures GroupsGrow(Run(infos[..n]).groups, Run(infos).groups)
    decreases |infos|
  {
    PrefixParses(infos, n);
    if n == |infos| {
      assert infos[..n] == infos;
      SubgroupsGrowRefl(if infos == [] || Run(infos).groups == [] then [] else Last(Run(infos).groups).subgroups);
    } else {
      var init := infos[..|infos| - 1];
      PrefixParses(infos, |infos| - 1);
      assert init[..n] == infos[..n];
      RunGrows(init, n);
      LineGrows(Run(init).groups, Last(infos));
      GroupsGrowTrans(Run(infos[..n]).groups, Run(init).groups, Run(infos).groups);
    }
  }

  // ---------------------------------------------------------------------
  // Early lines trap

  /** Without any subgroup header so far, no group has a subgroup. */
  lemma NoSubgroupYet(infos: seq<LineInfo>)
    requires Run(infos).Parsed? && SubgroupHeaders(infos) == []
    ensures forall k :: 0 <= k < |Run(infos).groups| ==> Run(infos).groups[k].subgroups == []
    ensures !HasOpenSubgroup(Run(infos).groups)
  {
    RunNames(infos);
    NoSubgroupNames(Run(infos).groups);
  }

  /** Groups with no subgroup names have no subgroups at all. */
  lemma {:induction false} NoSubgroupNames(gs: seq<EmojiGroup>)
    requires SubgroupNames(gs) == []
    ensures forall k :: 0 <= k < |gs| ==> gs[k].subgroups == []
    decreases |gs|
  {
    if gs != [] {
      var init := gs[..|gs| - 1];
      assert |SubgroupNamesOf(Last(gs).subgroups)| == |Last(gs).subgroups|;
      NoSubgroupNames(init);
      forall k | 0 <= k < |gs|
        ensures gs[k].subgroups == []
      {
        if k < |gs| - 1 {
          assert gs[k] == init[k];
        }
      }
    }
  }

  /** An entry line before any subgroup header traps the scanner, at that
      line or earlier. */
  lemma EntryBeforeSubgroupTraps(infos: seq<LineInfo>, k: nat)
    requires k < |infos| && SubgroupHeaders(infos[..k]) == []
    requires infos[k].subgroup.None? && infos[k].verdict.Entry?
    ensures Run(infos[..k + 1]).Trapped?
  {
    PrefixOfPrefix(infos, k, k + 1);
    if Run(infos[..k]).Parsed? {
      NoSubgroupYet(infos[..k]);
      var gs := Run(infos[..k]).groups;
      if infos[k].group.Some? {
        assert !HasOpenSubgroup(OpenGroup(gs, infos[k].group.value));
      }
    }
  }

  /** An entry on a line without a subgroup header crashes when the groups
      before it, or the group its own header opens, have no subgroup. */
  lemma EntryNoSubgroupCrashes(gs: seq<EmojiGroup>, info: LineInfo)
    requires info.subgroup.None? && info.verdict.Entry?
    requires info.group.Some? || !HasOpenSubgroup(gs)
    ensures ApplyLine(gs, info) == Crash(NoSubgroup)
  {
  }

  /** A line with no subgroup header leaves the last group without a
      subgroup when it opens a group or when the last group had none. */
  lemma LineKeepsNoSubgroup(gs: seq<EmojiGroup>, info: LineInfo)
    requires ApplyLine(gs, info).Next? && info.subgroup.None?
    requires info.group.Some? || !HasOpenSubgroup(gs)
    ensures !HasOpenSubgroup(ApplyLine(gs, info).groups)
  {
  }

  /** After a group header at line `j` and no subgroup header since, the
      last group still has no subgroup. */
  lemma {:induction false} OpenGroupWithoutSubgroup(infos: seq<LineInfo>, j: nat, m: nat)
    requires j < m <= |infos| && infos[j].group.Some?
    requires forall i :: j <= i < m ==> infos[i].subgroup.None?
    requires Run(infos[..m]).Parsed?
    ensures !HasOpenSubgroup(Run(infos[..m]).groups)
    decreases m
  {
    var pre := infos[..m];
    PrefixParses(pre, m - 1);
    assert pre[..m - 1] == infos[..m - 1];
    assert pre[..m] == pre;
    var gs := Run(infos[..m - 1]).groups;
    RunStep(pre, m - 1, gs);
    if m - 1 > j {
      OpenGroupWithoutSubgroup(infos, j, m - 1);
    }
    LineKeepsNoSubgroup(gs, infos[m - 1]);
  }

  /** Every group header opens a group with no subgroups, so an entry after
      a group header with no subgroup header since (on that line or after)
      traps the scanner, at that line when nothing trapped before. */
  lemma EntryWithoutSubgroupTraps(infos: seq<LineInfo>, j: nat, k: nat)
    requires j <= k < |infos| && infos[j].group.Some?
    requires forall i :: j <= i <= k ==> infos[i].subgroup.None?
    requires infos[k].verdict.Entry?
    ensures Run(infos[..k + 1]).Trapped?
    ensures Run(infos[..k]).Parsed? ==> Run(infos[..k + 1]) == Trapped(k, NoSubgroup)
  {
    var pre := infos[..k + 1];
    assert pre[..k] == infos[..k];
    assert pre[..k + 1] == pre;
    if Run(infos[..k]).Parsed? {
      var gs := Run(infos[..k]).groups;
      if j < k {
        OpenGroupWithoutSubgroup(infos, j, k);
      }
      EntryNoSubgroupCrashes(gs, infos[k]);
      RunStep(pre, k, gs);
    } else {
      TrapPersists(infos[..k], [infos[k]]);
      assert infos[..k] + [infos[k]] == pre;
    }
  }

  /** A subgroup header before any group header traps the scanner, at that
      line or earlier. */
  lemma SubgroupBeforeGroupTraps(infos: seq<LineInfo>, k: nat)
    requires k < |infos| && GroupHeaders(infos[..k]) == []
    requires infos[k].group.None? && infos[k].subgroup.Some?
    ensures Run(infos[..k + 1]).Trapped?
  {
    PrefixOfPrefix(infos, k, k + 1);
    if Run(infos[..k]).Parsed? {
      RunNames(infos[..k]);
      assert |GroupNames(Run(infos[..k]).groups)| == |Run(infos[..k]).groups|;
    }
  }

  // ---------------------------------------------------------------------
  // Lines of an emoji-test file

  /** A tag that starts with `#` is absent from a line whose only `#` is not
      followed, two places on, by the tag's third character. */
  lemma TagAbsent(line: string, p: nat, t: string)
    requires p < |line| && forall i :: 0 <= i < |line| && i != p ==> line[i] != '#'
    requires |t| >= 3 && t[0] == '#' && (p + 2 < |line| ==> line[p + 2] != t[2])
    ensures !Contains(line, t)
  {
    ContainsOccurs(line, t);
  }

  /** A header line with one `#`: `pre + tag + pad + name`. */
  lemma HeaderHashes(pre: string, tag: string, pad: string, name: string)
    requires |tag| >= 3 && tag[0] == '#' && '#' !in tag[1..]
    requires '#' !in pre && AllChar(pad, ' ') && '#' !in name
    ensures var line := pre + tag + pad + name;
      line[|pre|] == '#' && line[|pre| + 2] == tag[2] &&
      forall i :: 0 <= i < |line| && i != |pre| ==> line[i] != '#'
  {
    var line := pre + tag + pad + name;
    forall i | 0 <= i < |line| && i != |pre| ensures line[i] != '#' {
      if i < |pre| {
        assert line[i] == pre[i];
      } else if i < |pre| + |tag| {
        assert line[i] == tag[1..][i - |pre| - 1];
      } else if i < |pre| + |tag| + |pad| {
        assert line[i] == pad[i - |pre| - |tag|];
      } else {
        assert line[i] == name[i - |pre| - |tag| - |pad|];
      }
    }
  }

  /** Neither header tag holds a `;`, and the two differ at their third
      character. */
  lemma TagChars()
    ensures ';' !in GroupTag && ';' !in SubgroupTag
    ensures GroupTag[0] == '#' && SubgroupTag[0] == '#' && GroupTag[2] != SubgroupTag[2]
    ensures |GroupTag| >= 3 && '#' !in GroupTag[1..] && |SubgroupTag| >= 3 && '#' !in SubgroupTag[1..]
  {
  }

  /** A header made of `;`-free parts has no `;`. */
  lemma HeaderNoSemicolon(pre: string, tag: string, pad: string, name: string)
    requires ';' !in pre && ';' !in tag && AllChar(pad, ' ') && ';' !in name
    ensures ';' !in pre + tag + pad + name
  {
    assert ';' !in pad;
  }

  /** A line without `;` is no data line. */
  lemma NoSemicolonNotData(ws: char -> bool, line: string)
    requires ';' !in line
    ensures Classify(ws, line) == NotData
  {
    ContainsChar(line, ';');
  }

  /** `# group: <name>` opens a group named `name` and nothing else. */
  lemma GroupHeaderLine(ws: char -> bool, pre: string, pad: string, name: string)
    requires ws(' ') && AllChar(pad, ' ')
    requires '#' !in pre && '#' !in name && ';' !in pre && ';' !in name
    requires name != [] ==> !ws(name[0]) && !ws(Last(name))
    ensures Analyse(ws, pre + GroupTag + pad + name) == LineInfo(Some(name), None, NotData)
  {
    var line := pre + GroupTag + pad + name;
    assert MarkerName(ws, line, GroupTag) == Some(name) by {
      TagChars();
      MarkerNameOfHeader(ws, pre, GroupTag, pad, name);
    }
    assert MarkerName(ws, line, SubgroupTag) == None by {
      TagChars();
      HeaderHashes(pre, GroupTag, pad, name);
      TagAbsent(line, |pre|, SubgroupTag);
    }
    assert Classify(ws, line) == NotData by {
      TagChars();
      HeaderNoSemicolon(pre, GroupTag, pad, name);
      NoSemicolonNotData(ws, line);
    }
  }

  /** `# subgroup: <name>` opens a subgroup named `name` and nothing else. */
  lemma SubgroupHeaderLine(ws: char -> bool, pre: string, pad: string, name: string)
    requires ws(' ') && AllChar(pad, ' ')
    requires '#' !in pre && '#' !in name && ';' !in pre && ';' !in name
    requires name != [] ==> !ws(name[0]) && !ws(Last(name))
    ensures Analyse(ws, pre + SubgroupTag + pad + name) == LineInfo(None, Some(name), NotData)
  {
    var line := pre + SubgroupTag + pad + name;
    assert MarkerName(ws, line, SubgroupTag) == Some(name) by {
      TagChars();
      MarkerNameOfHeader(ws, pre, SubgroupTag, pad, name);
    }
    assert MarkerName(ws, line, GroupTag) == None by {
      TagChars();
      HeaderHashes(pre, SubgroupTag, pad, name);
      TagAbsent(line, |pre|, GroupTag);
    }
    assert Classify(ws, line) == NotData by {
      TagChars();
      HeaderNoSemicolon(pre, SubgroupTag, pad, name);
      NoSemicolonNotData(ws, line);
    }
  }

  /** A laid-out data line with no header tag and no `Format:` yields the
      record's emoji, unless its status is excluded or its note names a skin
      tone. */
  lemma DataLine(ws: char -> bool, d: DataRecord, pad1: string, pad2: string, pad3: string)
    requires ws(' ') && WellFormed(ws, d)
    requires AllChar(pad1, ' ') && AllChar(pad2, ' ') && AllChar(pad3, ' ')
    requires
      var line := Layout(d, pad1, pad2, pad3);
      !Contains(line, GroupTag) && !Contains(line, SubgroupTag) && !Contains(line, "Format:")
    ensures Analyse(ws, Layout(d, pad1, pad2, pad3)) ==
      LineInfo(None, None,
        if IsExcludedStatus(d.status) then Excluded
        else if IsSkinToneNote(Note(d)) then SkinTone
        else Entry(Emoji(Join(StripColons(d.words), "-"), d.character)))
  {
    ClassifyLayout(ws, d, pad1, pad2, pad3);
  }
}
