/** Lines in the emoji-test format and what the scanner makes of them, with
    `.whitespaces` taken to be the space and the tab. The smiling-face line
    is the one Tests/EmojiPaletteTests/EmojiParserTests.swift matches; the
    emoji itself is written as its two Unicode scalars, neither of which is
    whitespace or a separator, so the result is the same as for one Swift
    `Character`. The keycap line's emoji is a grapheme cluster that starts
    with `#`; it stands here as one character `keycap` outside ASCII.

    The sample values come in as parameters pinned down by `requires`, and
    the claims about them rest on two lemmas about all records. */
module SampleLines {
  import opened Wrappers
  import opened Text
  import opened Entities
  import opened LineFields
  import opened Scanner
  import opened ScanLemmas

  predicate SpaceOrTab(ws: char -> bool)
  {
    forall x :: ws(x) <==> x == ' ' || x == '\t'
  }

  function Spaces(n: nat): (r: string)
    ensures |r| == n && AllChar(r, ' ')
  {
    seq(n, _ => ' ')
  }

  /** No field of the record holds `x`. */
  predicate Avoids(d: DataRecord, x: char)
  {
    x !in d.codePoints && x !in d.status && x !in d.character && x !in d.version &&
    forall k :: 0 <= k < |d.words| ==> x !in d.words[k]
  }

  /** A character that no field holds, and that is not one of the characters
      the layout adds, is not in the line. */
  lemma LayoutAvoids(d: DataRecord, pad1: string, pad2: string, pad3: string, x: char)
    requires x != ' ' && x != ';' && x != '#' && Avoids(d, x)
    requires AllChar(pad1, ' ') && AllChar(pad2, ' ') && AllChar(pad3, ' ')
    ensures x !in Note(d) && x !in Layout(d, pad1, pad2, pad3)
  {
    JoinAvoids(d.words, " ", x);
    assert x !in pad1 && x !in pad2 && x !in pad3;
  }

  /** Every marker the scanner looks for holds an `o` and a `:`, and a
      skin-tone note needs both a `:` and the `o` of `skin tone`: a line
      without one of the two is no header, no `Format:` line and no
      skin-tone note. */
  lemma NoMarkers(line: string, x: char)
    requires (x == 'o' || x == ':') && x !in line
    ensures !Contains(line, GroupTag) && !Contains(line, SubgroupTag) && !Contains(line, "Format:")
    ensures !IsSkinToneNote(line)
  {
    MissingCharNotContained(line, GroupTag, x);
    MissingCharNotContained(line, SubgroupTag, x);
    MissingCharNotContained(line, "Format:", x);
    if x == 'o' {
      MissingCharNotContained(line, "skin tone", x);
    } else {
      MissingCharNotContained(line, ":", x);
    }
  }

  /** Colon-free words come through the colon removal unchanged. */
  lemma StripColonsAbsent(words: seq<string>)
    requires forall k :: 0 <= k < |words| ==> ':' !in words[k]
    ensures StripColons(words) == words
  {
    forall k | 0 <= k < |words| ensures RemovingAll(words[k], ':') == words[k] {
      RemovingAllAbsent(words[k], ':');
    }
  }

  /** The line of a record with no `o`, or no colon, anywhere and no colon in
      its words: skipped when its status is excluded, otherwise the emoji
      whose id is the words joined by `-`. */
  lemma PlainRecordLine(ws: char -> bool, d: DataRecord, pad1: string, pad2: string, pad3: string, x: char)
    requires ws(' ') && WellFormed(ws, d) && (x == 'o' || x == ':') && Avoids(d, x)
    requires forall k :: 0 <= k < |d.words| ==> ':' !in d.words[k]
    requires AllChar(pad1, ' ') && AllChar(pad2, ' ') && AllChar(pad3, ' ')
    ensures Analyse(ws, Layout(d, pad1, pad2, pad3)) ==
      LineInfo(None, None,
        if IsExcludedStatus(d.status) then Excluded else Entry(Emoji(Join(d.words, "-"), d.character)))
  {
    LayoutAvoids(d, pad1, pad2, pad3, x);
    NoMarkers(Layout(d, pad1, pad2, pad3), x);
    NoMarkers(Note(d), x);
    StripColonsAbsent(d.words);
    DataLine(ws, d, pad1, pad2, pad3);
  }

  /** The line of a record with ` #` after it, regrouped around its marks. */
  lemma TrailingHashShape(codePoints: string, before: string, after: string)
    ensures codePoints + ";" + (before + "#" + after) + " #" ==
      codePoints + ";" + (before + ['#'] + ((after + " ") + ['#'] + []))
  {
  }

  lemma HashTailAvoids(x: char, before: string, after: string)
    requires x != '#' && x != ' ' && x !in before && x !in after
    ensures x !in before + ['#'] + ((after + " ") + ['#'] + [])
  {
  }

  /** A ` #` after the note is taken for one more comment mark: empty pieces
      are dropped, so the line binds what the record alone binds. */
  lemma TrailingHashFields(ws: char -> bool, d: DataRecord, pad1: string, pad2: string, pad3: string)
    requires ws(' ') && WellFormed(ws, d)
    requires AllChar(pad1, ' ') && AllChar(pad2, ' ') && AllChar(pad3, ' ')
    ensures DataFields(ws, Layout(d, pad1, pad2, pad3) + " #") == Some(Fields(d.status, Note(d)))
  {
    NoteFacts(ws, d);
    var before := pad1 + d.status + pad2;
    var after := pad3 + Note(d);
    PaddedPieces(ws, pad1, d.status, pad2, pad3, Note(d));
    TrimPadded(pad3, Note(d), " ", ws);
    assert ';' !in before && ';' !in after by {
      assert ';' !in pad1 && ';' !in pad2 && ';' !in pad3;
    }
    var tail := before + ['#'] + ((after + " ") + ['#'] + []);
    TrailingHashShape(d.codePoints, before, after);
    HashTailAvoids(';', before, after);
    LastSemicolonPiece(d.codePoints, tail);
    assert '#' !in after + " ";
    SplitStep(before, '#', (after + " ") + ['#'] + []);
    SplitStep(after + " ", '#', []);
    SplitNoSep([], '#');
  }

  /** With the trailing ` #`, the entry is still the record's own. */
  lemma TrailingHashLine(ws: char -> bool, d: DataRecord, pad1: string, pad2: string, pad3: string)
    requires ws(' ') && WellFormed(ws, d) && Avoids(d, 'o') && !IsExcludedStatus(d.status)
    requires AllChar(pad1, ' ') && AllChar(pad2, ' ') && AllChar(pad3, ' ')
    ensures Analyse(ws, Layout(d, pad1, pad2, pad3) + " #") ==
      LineInfo(None, None, Entry(Emoji(Join(StripColons(d.words), "-"), d.character)))
  {
    var line := Layout(d, pad1, pad2, pad3) + " #";
    LayoutAvoids(d, pad1, pad2, pad3, 'o');
    assert 'o' !in line;
    NoMarkers(line, 'o');
    NoMarkers(Note(d), 'o');
    assert line[|d.codePoints|] == ';';
    ContainsChar(line, ';');
    TrailingHashFields(ws, d, pad1, pad2, pad3);
    EntryIdOfNote(ws, d);
    CharacterOfNote(ws, d);
  }

  /** A token the scanner can take apart plainly: no whitespace, `;`, `#`,
      `o` or colon. */
  predicate Plain(ws: char -> bool, t: string)
  {
    IsToken(ws, t) && 'o' !in t && ':' !in t
  }

  /** The fields of the sample records, one literal at a time. */
  lemma PaddedCodePoints(t: string, hex: string, n: nat, x: char)
    requires t == hex + Spaces(n) && ';' !in hex && x !in hex && x != ' '
    ensures ';' !in t && x !in t
  {
    assert forall k :: |hex| <= k < |t| ==> t[k] == ' ';
  }

  lemma FullyQualified(ws: char -> bool, t: string)
    requires SpaceOrTab(ws) && t == "fully-qualified"
    ensures Plain(ws, t) && !IsExcludedStatus(t)
  {
  }

  lemma Unqualified(ws: char -> bool, t: string)
    requires SpaceOrTab(ws) && t == "unqualified"
    ensures Plain(ws, t) && IsExcludedStatus(t)
  {
  }

  lemma VersionSix(ws: char -> bool, t: string)
    requires SpaceOrTab(ws) && t == "E0.6"
    ensures Plain(ws, t)
  {
  }

  lemma SmilingFaceChar(ws: char -> bool, t: string)
    requires SpaceOrTab(ws) && (t == "\U{263A}\U{FE0F}" || t == "\U{263A}")
    ensures Plain(ws, t)
  {
  }

  lemma SmilingFaceWords(ws: char -> bool, words: seq<string>)
    requires SpaceOrTab(ws) && words == ["smiling", "face"]
    ensures forall k :: 0 <= k < |words| ==> Plain(ws, words[k])
  {
    assert Plain(ws, words[0]);
    assert Plain(ws, words[1]);
  }

  lemma SmilingFaceId(words: seq<string>)
    requires words == ["smiling", "face"]
    ensures Join(words, "-") == "smiling-face"
  {
  }

  /** The smiling-face record of the test: with the paddings `" "`,
      `Spaces(5)` and `" "` its line reads `263A FE0F` and 46 spaces, then
      `; fully-qualified     # ☺️ E0.6 smiling face`. */
  predicate IsSmilingFace(d: DataRecord)
  {
    d == DataRecord("263A FE0F" + Spaces(46), "fully-qualified", "\U{263A}\U{FE0F}", "E0.6", ["smiling", "face"])
  }

  /** A record whose fields are tokens free of `x` meets the conditions of
      `PlainRecordLine`. */
  lemma PlainRecord(ws: char -> bool, d: DataRecord, x: char)
    requires ws(' ') && ';' !in d.codePoints && x !in d.codePoints
    requires IsToken(ws, d.status) && x !in d.status && IsToken(ws, d.character) && x !in d.character
    requires IsToken(ws, d.version) && x !in d.version && d.words != []
    requires forall k :: 0 <= k < |d.words| ==> IsToken(ws, d.words[k]) && x !in d.words[k]
    ensures WellFormed(ws, d) && Avoids(d, x)
  {
  }

  /** `☺️ E0.6 smiling face` gives the id `smiling-face`. */
  lemma SmilingFaceEntry(ws: char -> bool, d: DataRecord)
    requires SpaceOrTab(ws) && IsSmilingFace(d)
    ensures Analyse(ws, Layout(d, " ", Spaces(5), " ")) ==
      LineInfo(None, None, Entry(Emoji("smiling-face", "\U{263A}\U{FE0F}")))
  {
    PaddedCodePoints(d.codePoints, "263A FE0F", 46, 'o');
    FullyQualified(ws, d.status);
    SmilingFaceChar(ws, d.character);
    VersionSix(ws, d.version);
    SmilingFaceWords(ws, d.words);
    PlainRecord(ws, d, 'o');
    PlainRecordLine(ws, d, " ", Spaces(5), " ", 'o');
    SmilingFaceId(d.words);
  }

  /** The unqualified variant of the same emoji is skipped. */
  lemma UnqualifiedSmilingFace(ws: char -> bool, d: DataRecord)
    requires SpaceOrTab(ws)
    requires d == DataRecord("263A" + Spaces(51), "unqualified", "\U{263A}", "E0.6", ["smiling", "face"])
    ensures Analyse(ws, Layout(d, " ", Spaces(9), " ")) == LineInfo(None, None, Excluded)
  {
    PaddedCodePoints(d.codePoints, "263A", 51, 'o');
    Unqualified(ws, d.status);
    SmilingFaceChar(ws, d.character);
    VersionSix(ws, d.version);
    SmilingFaceWords(ws, d.words);
    PlainRecord(ws, d, 'o');
    PlainRecordLine(ws, d, " ", Spaces(9), " ", 'o');
  }

  /** The fields of the light-skin-tone component record, which hold an `o`
      but no colon. */
  lemma ComponentStatus(ws: char -> bool, t: string)
    requires SpaceOrTab(ws) && t == "component"
    ensures IsToken(ws, t) && ':' !in t && !IsExcludedStatus(t)
  {
  }

  lemma LightSkinToneFields(ws: char -> bool, c: string, v: string)
    requires SpaceOrTab(ws) && c == "\U{1F3FB}" && v == "E1.0"
    ensures IsToken(ws, c) && ':' !in c && IsToken(ws, v) && ':' !in v
  {
  }

  lemma LightSkinToneWords(ws: char -> bool, words: seq<string>)
    requires SpaceOrTab(ws) && words == ["light", "skin", "tone"]
    ensures forall k :: 0 <= k < |words| ==> IsToken(ws, words[k]) && ':' !in words[k]
  {
    assert IsToken(ws, words[0]) && ':' !in words[0];
    assert IsToken(ws, words[1]) && ':' !in words[1];
    assert IsToken(ws, words[2]) && ':' !in words[2];
  }

  lemma LightSkinToneId(words: seq<string>)
    requires words == ["light", "skin", "tone"]
    ensures Join(words, "-") == "light-skin-tone"
  {
    assert words[1..] == ["skin", "tone"] && words[1..][1..] == ["tone"];
    assert Join(words[1..], "-") == "skin-tone";
  }

  /** The skin-tone modifier itself: `1F3FB ; component # 🏻 E1.0 light skin
      tone` names a skin tone but holds no `:`, so it passes the skin-tone
      filter, and as its status is not excluded it becomes the emoji
      `light-skin-tone`. */
  lemma LightSkinToneComponent(ws: char -> bool, d: DataRecord)
    requires SpaceOrTab(ws)
    requires d == DataRecord("1F3FB" + Spaces(50), "component", "\U{1F3FB}", "E1.0", ["light", "skin", "tone"])
    ensures Analyse(ws, Layout(d, " ", Spaces(11), " ")) ==
      LineInfo(None, None, Entry(Emoji("light-skin-tone", "\U{1F3FB}")))
  {
    PaddedCodePoints(d.codePoints, "1F3FB", 50, ':');
    ComponentStatus(ws, d.status);
    LightSkinToneFields(ws, d.character, d.version);
    LightSkinToneWords(ws, d.words);
    PlainRecord(ws, d, ':');
    PlainRecordLine(ws, d, " ", Spaces(11), " ", ':');
    LightSkinToneId(d.words);
  }

  /** The fields of `a;b` when neither part holds a `;` or a `#`: `b` is
      both the status and the text after the hash. */
  lemma BareFields(ws: char -> bool, a: string, b: string)
    requires a != [] && b != [] && ';' !in a && ';' !in b && '#' !in b
    requires !ws(b[0]) && !ws(b[|b| - 1])
    ensures DataFields(ws, a + ";" + b) == Some(Fields(b, b))
  {
    assert a + ";" + b == a + [';'] + b;
    SplitAroundOnly(a, ';', b);
    SplitNoSep(b, '#');
    TrimPadded([], b, [], ws);
    assert [] + b + [] == b;
  }

  /** A `;` line whose text after the hash has no space passes both
      filters, and then the second `removeFirst` finds the word list empty. */
  lemma BareLine(ws: char -> bool, a: string, b: string)
    requires a != [] && b != [] && ';' !in a && ';' !in b && '#' !in a && '#' !in b
    requires !ws(b[0]) && !ws(b[|b| - 1]) && ' ' !in b && ':' !in b && !IsExcludedStatus(b)
    requires !Contains(a + ";" + b, "Format:")
    ensures Analyse(ws, a + ";" + b) == LineInfo(None, None, NoName)
  {
    var line := a + ";" + b;
    assert line[|a|] == ';';
    ContainsChar(line, ';');
    BareFields(ws, a, b);
    ContainsChar(b, ':');
    assert '#' !in line;
    MissingCharNotContained(line, GroupTag, '#');
    MissingCharNotContained(line, SubgroupTag, '#');
  }

  /** A text of one line whose name is too short traps at that line. */
  lemma ShortNameFirst(infos: seq<LineInfo>)
    requires |infos| == 1 && infos[0] == LineInfo(None, None, NoName)
    ensures Run(infos) == Trapped(0, ShortName)
  {
    assert infos[..0] == [];
  }

  /** `x;y`: the status and the text after the hash are both `y`, which
      has no space, so the scanner crashes at the `removeFirst` calls before
      it asks for a subgroup; malformed data lines are not skipped. */
  lemma NoSpaceNoteTraps(ws: char -> bool, line: string)
    requires SpaceOrTab(ws) && line == "x;y"
    ensures Classify(ws, line) == NoName
    ensures Run(AnalyseAll(ws, [line])) == Trapped(0, ShortName)
  {
    assert line == "x" + ";" + "y";
    MissingCharNotContained(line, "Format:", 'F');
    BareLine(ws, "x", "y");
    AnalyseAllAt(ws, [line], 0);
    ShortNameFirst(AnalyseAll(ws, [line]));
  }

  /** `# group: Smileys & Emotion` opens that group. */
  lemma GroupLineInfo(ws: char -> bool, name: string)
    requires SpaceOrTab(ws) && name == "Smileys & Emotion"
    ensures Analyse(ws, GroupTag + " " + name) == LineInfo(Some(name), None, NotData)
  {
    GroupHeaderLine(ws, [], " ", name);
    assert [] + GroupTag + " " + name == GroupTag + " " + name;
  }

  /** `# subgroup: face-smiling` opens that subgroup. */
  lemma SubgroupLineInfo(ws: char -> bool, name: string)
    requires SpaceOrTab(ws) && name == "face-smiling"
    ensures Analyse(ws, SubgroupTag + " " + name) == LineInfo(None, Some(name), NotData)
  {
    SubgroupHeaderLine(ws, [], " ", name);
    assert [] + SubgroupTag + " " + name == SubgroupTag + " " + name;
  }

  /** A group header, a subgroup header and an entry, in that order, give one
      group with one subgroup holding the one emoji. */
  lemma HeaderHeaderEntry(infos: seq<LineInfo>, group: string, subgroup: string, e: Emoji)
    requires |infos| == 3
    requires infos[0] == LineInfo(Some(group), None, NotData)
    requires infos[1] == LineInfo(None, Some(subgroup), NotData)
    requires infos[2] == LineInfo(None, None, Entry(e))
    ensures Run(infos) == Parsed([EmojiGroup(group, [EmojiSubGroup(subgroup, [e])])])
  {
    assert infos[..0] == [];
    var g1 := [EmojiGroup(group, [])];
    var g2 := [EmojiGroup(group, [EmojiSubGroup(subgroup, [])])];
    assert ApplyLine([], infos[0]) == Next(g1);
    RunStep(infos, 0, []);
    assert OpenSubgroup(g1, subgroup) == g2 by {
      assert [] + [EmojiSubGroup(subgroup, [])] == [EmojiSubGroup(subgroup, [])];
    }
    assert ApplyLine(g1, infos[1]) == Next(g2);
    RunStep(infos, 1, g1);
    assert AddEmoji(g2, e) == [EmojiGroup(group, [EmojiSubGroup(subgroup, [e])])] by {
      var s := EmojiSubGroup(subgroup, [e]);
      assert [] + [e] == [e];
      assert g2[0].subgroups[0 := s] == [s];
      assert g2[0 := g2[0].(subgroups := [s])] == [EmojiGroup(group, [s])];
    }
    assert ApplyLine(g2, infos[2]) == Next([EmojiGroup(group, [EmojiSubGroup(subgroup, [e])])]);
    RunStep(infos, 2, g2);
    assert infos[..3] == infos;
  }

  /** The three lines of the test file, one group header, one subgroup header
      and the smiling-face line. */
  lemma SmallFile(ws: char -> bool, group: string, subgroup: string, d: DataRecord)
    requires SpaceOrTab(ws) && group == "Smileys & Emotion" && subgroup == "face-smiling"
    requires IsSmilingFace(d)
    ensures
      var lines := [GroupTag + " " + group, SubgroupTag + " " + subgroup, Layout(d, " ", Spaces(5), " ")];
      Run(AnalyseAll(ws, lines)) ==
        Parsed([EmojiGroup(group, [EmojiSubGroup(subgroup, [Emoji("smiling-face", "\U{263A}\U{FE0F}")])])])
  {
    var lines := [GroupTag + " " + group, SubgroupTag + " " + subgroup, Layout(d, " ", Spaces(5), " ")];
    AnalyseAllAt(ws, lines, 0);
    AnalyseAllAt(ws, lines, 1);
    AnalyseAllAt(ws, lines, 2);
    GroupLineInfo(ws, group);
    SubgroupLineInfo(ws, subgroup);
    SmilingFaceEntry(ws, d);
    HeaderHeaderEntry(AnalyseAll(ws, lines), group, subgroup, Emoji("smiling-face", "\U{263A}\U{FE0F}"));
  }

  lemma KeycapWords(ws: char -> bool, words: seq<string>)
    requires SpaceOrTab(ws) && words == ["keycap:"]
    ensures forall k :: 0 <= k < |words| ==> IsToken(ws, words[k]) && 'o' !in words[k]
  {
    assert IsToken(ws, words[0]) && 'o' !in words[0];
  }

  /** A character outside ASCII is none of the characters the scanner
      looks at. */
  lemma KeycapChar(ws: char -> bool, keycap: char, t: string)
    requires SpaceOrTab(ws) && keycap > '\U{7F}' && t == [keycap]
    ensures Plain(ws, t)
  {
  }

  /** A word with one colon at its end loses just that colon. */
  lemma ColonDropped(k: string)
    requires ':' !in k
    ensures RemovingAll(k + ":", ':') == k
  {
    RemovingAllAppend(k, ":", ':');
    RemovingAllAbsent(k, ':');
  }

  lemma KeycapColon(w: string, k: string)
    requires w == "keycap:" && k == "keycap"
    ensures RemovingAll(w, ':') == k
  {
    assert w == k + ":";
    ColonDropped(k);
  }

  /** Removing the colon leaves `keycap`. */
  lemma KeycapId(words: seq<string>)
    requires words == ["keycap:"]
    ensures Join(StripColons(words), "-") == "keycap"
  {
    KeycapColon(words[0], "keycap");
    assert StripColons(words) == [RemovingAll(words[0], ':')];
  }

  /** The keycap-number-sign line, whose name ends in `#`: that `#` is taken
      for a comment mark, so the text after the hash stops before it and the
      id is `keycap`, where the other keycaps get `keycap-*`, `keycap-0` and
      so on. */
  lemma KeycapNumberSign(ws: char -> bool, keycap: char, d: DataRecord)
    requires SpaceOrTab(ws) && keycap > '\U{7F}'
    requires d == DataRecord("0023 FE0F 20E3" + Spaces(41), "fully-qualified", [keycap], "E0.6", ["keycap:"])
    ensures Analyse(ws, Layout(d, " ", Spaces(5), " ") + " #") == LineInfo(None, None, Entry(Emoji("keycap", [keycap])))
  {
    PaddedCodePoints(d.codePoints, "0023 FE0F 20E3", 41, 'o');
    FullyQualified(ws, d.status);
    VersionSix(ws, d.version);
    KeycapChar(ws, keycap, d.character);
    KeycapWords(ws, d.words);
    PlainRecord(ws, d, 'o');
    TrailingHashLine(ws, d, " ", Spaces(5), " ");
    KeycapId(d.words);
  }
}
