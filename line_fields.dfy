/** What one line of an emoji-test file yields, field by field, as the
    substring scanner of Sources/EmojiPalette/EmojiParser.swift reads it. The
    set of characters that `.whitespaces` names is the parameter `ws`. */
module LineFields {
  import opened Wrappers
  import opened Text
  import opened Entities

  const GroupTag: string := "# group:"
  const SubgroupTag: string := "# subgroup:"

  /** The name a marker line gives: the text after the last `tag`, trimmed,
      when the line contains `tag`. */
  function MarkerName(ws: char -> bool, line: string, tag: string): (r: Option<string>)
    requires tag != []
    ensures r.Some? <==> Contains(line, tag)
  {
    if Contains(line, tag) then Some(Trim(Last(Components(line, tag)), ws)) else None
  }

  /** The name is the trimmed text after an occurrence of `tag` that has no
      further `tag` after it: the last one. */
  lemma MarkerNameAfterLast(ws: char -> bool, line: string, tag: string)
    requires tag != [] && Contains(line, tag)
    ensures
      exists i: nat :: OccursAt(line, tag, i) && !Contains(line[i + |tag|..], tag) &&
        MarkerName(ws, line, tag) == Some(Trim(line[i + |tag|..], ws))
  {
    LastComponent(line, tag);
    ComponentsFree(line, tag);
    var parts := Components(line, tag);
    assert !Contains(parts[|parts| - 1], tag);
  }

  /** A line that may list an emoji: it has a `;` and no `Format:`. */
  predicate IsDataCandidate(line: string)
  {
    Contains(line, ";") && !Contains(line, "Format:")
  }

  /** The status (before the first `#` piece) and the text after the hash. */
  datatype Fields = Fields(status: string, afterHash: string)

  /** The optional bindings of a data line: the last non-empty `;` piece, split
      on `#` with empty pieces dropped; its first piece is the status, its last
      the text after the hash, both trimmed. */
  function DataFields(ws: char -> bool, line: string): Option<Fields>
  {
    var bySemicolon := Split(line, ';');
    if bySemicolon == [] then None else SegmentFields(ws, Last(bySemicolon))
  }

  /** The `#` split of the last `;` piece: first piece the status, last piece
      the text after the hash, both trimmed. */
  function SegmentFields(ws: char -> bool, segment: string): Option<Fields>
  {
    var byHash := Split(segment, '#');
    if byHash == [] then None
    else Some(Fields(Trim(byHash[0], ws), Trim(Last(byHash), ws)))
  }

  /** The status and the text after the hash taken from one `;`-free segment. */
  ghost predicate FieldsOfSegment(ws: char -> bool, seg: string, f: Fields)
  {
    (exists a: nat, b: nat :: IsFirstRun(seg, '#', a, b) && f.status == Trim(seg[a..b], ws)) &&
    (exists a: nat, b: nat :: IsLastRun(seg, '#', a, b) && f.afterHash == Trim(seg[a..b], ws))
  }

  /** The status is the first `#`-free run of the last `;`-free run of the
      line, and the text after the hash the last one, both trimmed; so with one
      `#` run only, both are that run. */
  lemma FieldsFromRuns(ws: char -> bool, line: string)
    requires DataFields(ws, line).Some?
    ensures
      exists i: nat, j: nat :: IsLastRun(line, ';', i, j) &&
        FieldsOfSegment(ws, line[i..j], DataFields(ws, line).value)
  {
    LastPiece(line, ';');
    var i: nat, j: nat :| IsLastRun(line, ';', i, j) && Last(Split(line, ';')) == line[i..j];
    var seg := line[i..j];
    var f := DataFields(ws, line).value;
    assert f == SegmentFields(ws, seg).value;
    SegmentFieldsFromRuns(ws, seg);
    assert IsLastRun(line, ';', i, j) && FieldsOfSegment(ws, line[i..j], f);
  }

  lemma SegmentFieldsFromRuns(ws: char -> bool, seg: string)
    requires SegmentFields(ws, seg).Some?
    ensures FieldsOfSegment(ws, seg, SegmentFields(ws, seg).value)
  {
    var f := SegmentFields(ws, seg).value;
    var pieces := Split(seg, '#');
    FirstPiece(seg, '#');
    var a: nat, b: nat :| IsFirstRun(seg, '#', a, b) && pieces[0] == seg[a..b];
    assert f.status == Trim(seg[a..b], ws);
    LastPiece(seg, '#');
    var a': nat, b': nat :| IsLastRun(seg, '#', a', b') && Last(pieces) == seg[a'..b'];
    assert f.afterHash == Trim(seg[a'..b'], ws);
  }

  /** The bindings fail exactly when the line is made of `;` alone, or its last
      `;`-free run is made of `#` alone: such a line is skipped. */
  lemma FieldsAbsent(ws: char -> bool, line: string)
    ensures DataFields(ws, line).None? <==>
      AllChar(line, ';') || exists i: nat, j: nat :: IsLastRun(line, ';', i, j) && AllChar(line[i..j], '#')
  {
    SplitEmpty(line, ';');
    if Split(line, ';') != [] {
      LastPiece(line, ';');
      var i: nat, j: nat :| IsLastRun(line, ';', i, j) && Last(Split(line, ';')) == line[i..j];
      assert !AllChar(line, ';') by {
        assert line[i] != ';';
      }
      SplitEmpty(line[i..j], '#');
      assert DataFields(ws, line).None? <==> AllChar(line[i..j], '#');
      forall i': nat, j': nat | IsLastRun(line, ';', i', j') ensures i' == i && j' == j {
        LastRunUnique(line, ';', i, j, i', j');
      }
    }
  }

  /** `afterHash.components(separatedBy: .whitespaces).first`: the emoji
      character is the longest whitespace-free prefix of the text after the
      hash. */
  function Character(ws: char -> bool, afterHash: string): (r: string)
    ensures r <= afterHash
    ensures forall k :: 0 <= k < |r| ==> !ws(r[k])
    ensures |r| == |afterHash| || ws(afterHash[|r|])
  {
    FirstComponentWhere(afterHash, ws);
    ComponentsWhere(afterHash, ws)[0]
  }

  /** `map { $0.replacingOccurrences(of: ":", with: "") }`. */
  function StripColons(words: seq<string>): seq<string>
  {
    seq(|words|, k requires 0 <= k < |words| => RemovingAll(words[k], ':'))
  }

  /** The id: the space-separated words after the first two, colons removed,
      joined by `-`. None when the text has no space, where the second
      `removeFirst` finds the array empty. */
  function EntryId(afterHash: string): (r: Option<string>)
    ensures r.None? <==> ' ' !in afterHash
    ensures r.Some? ==> ':' !in r.value
  {
    var words := Components(afterHash, " ");
    ComponentsCount(afterHash, ' ');
    if |words| < 2 then None
    else
      var names := StripColons(words[2..]);
      JoinAvoids(names, "-", ':');
      Some(Join(names, "-"))
  }

  predicate IsExcludedStatus(status: string)
  {
    status == "unqualified" || status == "minimally-qualified"
  }

  predicate IsSkinToneNote(afterHash: string)
  {
    Contains(afterHash, ":") && Contains(afterHash, "skin tone")
  }

  /** What the third `if` of the scanner makes of a line. */
  datatype Verdict =
    | NotData        // no `;`, or a `Format:` line
    | NoFields       // the `;` and `#` splits leave no piece: skipped
    | Excluded       // status unqualified or minimally-qualified
    | SkinTone       // a skin-tone variant
    | NoName         // the text after the hash has no space: removeFirst traps
    | Entry(emoji: Emoji)

  /** A data line whose emoji survives both filters: the status is not one of
      the two excluded ones (any other text, known or not, passes) and the
      text after the hash is no skin-tone variant. */
  predicate Kept(ws: char -> bool, line: string)
  {
    IsDataCandidate(line) && DataFields(ws, line).Some? &&
    !IsExcludedStatus(DataFields(ws, line).value.status) &&
    !IsSkinToneNote(DataFields(ws, line).value.afterHash)
  }

  /** The verdict on a data line whose `;` and `#` splits gave its fields. */
  function ClassifyFields(ws: char -> bool, f: Fields): (v: Verdict)
    ensures v.Excluded? <==> IsExcludedStatus(f.status)
    ensures v.SkinTone? <==> !IsExcludedStatus(f.status) && IsSkinToneNote(f.afterHash)
    ensures v.NoName? <==>
      !IsExcludedStatus(f.status) && !IsSkinToneNote(f.afterHash) && ' ' !in f.afterHash
    ensures !v.NotData? && !v.NoFields?
  {
    if IsExcludedStatus(f.status) then Excluded
    else if IsSkinToneNote(f.afterHash) then SkinTone
    else match EntryId(f.afterHash)
      case None => NoName
      case Some(id) =>
        Entry(Emoji(id, Character(ws, f.afterHash)))
  }

  function Classify(ws: char -> bool, line: string): (v: Verdict)
    ensures v.NotData? <==> !IsDataCandidate(line)
    ensures v.NoFields? <==> IsDataCandidate(line) && DataFields(ws, line).None?
    ensures v.Entry? || v.NoName? <==> Kept(ws, line)
    ensures v.NoName? <==> Kept(ws, line) && ' ' !in DataFields(ws, line).value.afterHash
  {
    if !IsDataCandidate(line) then NotData
    else match DataFields(ws, line)
      case None => NoFields
      case Some(f) => ClassifyFields(ws, f)
  }

  /** `line` yields the entry `e`: it is a data line whose fields survive both
      filters, and the character of `e` is a non-empty prefix of its text
      after the hash. */
  predicate KeptEntry(ws: char -> bool, line: string, e: Emoji)
  {
    Classify(ws, line) == Entry(e) && Kept(ws, line) &&
    e.character != [] && e.character <= DataFields(ws, line).value.afterHash
  }

  /** An entry comes from a kept line, its character is a non-empty
      whitespace-free prefix of the text after the hash, and its id has no
      colon. */
  lemma ClassifyEntry(ws: char -> bool, line: string)
    requires Classify(ws, line).Entry?
    ensures KeptEntry(ws, line, Classify(ws, line).emoji)
    ensures var e := Classify(ws, line).emoji;
      (forall k :: 0 <= k < |e.character| ==> !ws(e.character[k])) && ':' !in e.id
  {
    var afterHash := DataFields(ws, line).value.afterHash;
    var r := Character(ws, afterHash);
    TrimSpec(Last(Split(Last(Split(line, ';')), '#')), ws);
    assert afterHash != [] && !ws(afterHash[0]);
    assert r != [];
  }

  /** The fields of a data line as the emoji-test format writes them. */
  datatype DataRecord = DataRecord(codePoints: string, status: string, character: string,
                                   version: string, words: seq<string>)

  /** The text after the hash of a record: the emoji, its version and its
      name words, one space apart. */
  function Note(d: DataRecord): string
  {
    d.character + " " + d.version + " " + Join(d.words, " ")
  }

  /** The line for a record, with runs of spaces `pad1`, `pad2` and `pad3`
      around the status and after the hash. */
  function Layout(d: DataRecord, pad1: string, pad2: string, pad3: string): string
  {
    d.codePoints + ";" + ((pad1 + d.status + pad2) + "#" + (pad3 + Note(d)))
  }

  /** A non-empty token free of whitespace, `;` and `#`. */
  predicate IsToken(ws: char -> bool, t: string)
  {
    t != [] && ';' !in t && '#' !in t && forall k :: 0 <= k < |t| ==> !ws(t[k])
  }

  predicate WellFormed(ws: char -> bool, d: DataRecord)
  {
    ';' !in d.codePoints && IsToken(ws, d.status) && IsToken(ws, d.character) &&
    IsToken(ws, d.version) && d.words != [] &&
    forall k :: 0 <= k < |d.words| ==> IsToken(ws, d.words[k])
  }

  lemma NoteFacts(ws: char -> bool, d: DataRecord)
    requires ws(' ') && WellFormed(ws, d)
    ensures ';' !in Note(d) && '#' !in Note(d)
    ensures Note(d) != [] && !ws(Note(d)[0]) && !ws(Last(Note(d)))
    ensures Note(d) == Join([d.character, d.version] + d.words, " ")
  {
    JoinAvoids(d.words, " ", ';');
    JoinAvoids(d.words, " ", '#');
    JoinEnd(d.words, " ");
    assert Last(Note(d)) == Last(Join(d.words, " "));
    assert !ws(Last(Last(d.words)));
    JoinCons(d.version, d.words, " ");
    JoinCons(d.character, [d.version] + d.words, " ");
    assert [d.character, d.version] + d.words == [d.character] + ([d.version] + d.words);
  }

  /** Splitting a line around its only `sep` character. */
  lemma SplitAroundOnly(a: string, c: char, b: string)
    requires a != [] && b != [] && c !in a && c !in b
    ensures Split(a + [c] + b, c) == [a, b]
  {
    SplitStep(a, c, b);
    SplitNoSep(b, c);
  }

  lemma LastSemicolonPiece(codePoints: string, tail: string)
    requires ';' !in codePoints && ';' !in tail && tail != []
    ensures Split(codePoints + ";" + tail, ';') != []
    ensures Last(Split(codePoints + ";" + tail, ';')) == tail
  {
    assert codePoints + ";" + tail == codePoints + [';'] + tail;
    SplitStep(codePoints, ';', tail);
    SplitNoSep(tail, ';');
  }

  /** A segment with exactly one '#' binds the trimmed text on either side of it. */
  lemma SegmentFieldsAroundHash(ws: char -> bool, before: string, after: string)
    requires before != [] && after != [] && '#' !in before && '#' !in after
    ensures SegmentFields(ws, before + "#" + after) == Some(Fields(Trim(before, ws), Trim(after, ws)))
  {
    assert before + "#" + after == before + ['#'] + after;
    SplitAroundOnly(before, '#', after);
  }

  /** A padded status and a padded note around one '#' bind back to themselves. */
  lemma SegmentFieldsPadded(ws: char -> bool, pad1: string, status: string, pad2: string, pad3: string, note: string)
    requires ws(' ') && AllChar(pad1, ' ') && AllChar(pad2, ' ') && AllChar(pad3, ' ')
    requires IsToken(ws, status)
    requires note != [] && '#' !in note && !ws(note[0]) && !ws(note[|note| - 1])
    ensures SegmentFields(ws, (pad1 + status + pad2) + "#" + (pad3 + note)) == Some(Fields(status, note))
  {
    PaddedPieces(ws, pad1, status, pad2, pad3, note);
    SegmentFieldsAroundHash(ws, pad1 + status + pad2, pad3 + note);
  }

  /** The two sides of a padded segment trim back to the status and the note. */
  lemma PaddedPieces(ws: char -> bool, pad1: string, status: string, pad2: string, pad3: string, note: string)
    requires ws(' ') && AllChar(pad1, ' ') && AllChar(pad2, ' ') && AllChar(pad3, ' ')
    requires IsToken(ws, status)
    requires note != [] && '#' !in note && !ws(note[0]) && !ws(note[|note| - 1])
    ensures pad1 + status + pad2 != [] && '#' !in pad1 + status + pad2
    ensures pad3 + note != [] && '#' !in pad3 + note
    ensures Trim(pad1 + status + pad2, ws) == status
    ensures Trim(pad3 + note, ws) == note
  {
    TrimPadded(pad1, status, pad2, ws);
    assert pad3 + note + [] == pad3 + note;
    TrimPadded(pad3, note, [], ws);
  }

  lemma SegmentFieldsOfLayout(ws: char -> bool, d: DataRecord, pad1: string, pad2: string, pad3: string)
    requires ws(' ') && WellFormed(ws, d)
    requires AllChar(pad1, ' ') && AllChar(pad2, ' ') && AllChar(pad3, ' ')
    ensures SegmentFields(ws, (pad1 + d.status + pad2) + "#" + (pad3 + Note(d))) == Some(Fields(d.status, Note(d)))
  {
    NoteFacts(ws, d);
    SegmentFieldsPadded(ws, pad1, d.status, pad2, pad3, Note(d));
  }

  /** The bindings of a laid-out record give back its status and its note. */
  lemma DataFieldsOfLayout(ws: char -> bool, d: DataRecord, pad1: string, pad2: string, pad3: string)
    requires ws(' ') && WellFormed(ws, d)
    requires AllChar(pad1, ' ') && AllChar(pad2, ' ') && AllChar(pad3, ' ')
    ensures DataFields(ws, Layout(d, pad1, pad2, pad3)) == Some(Fields(d.status, Note(d)))
  {
    var tail := (pad1 + d.status + pad2) + "#" + (pad3 + Note(d));
    assert Split(Layout(d, pad1, pad2, pad3), ';') != [] && Last(Split(Layout(d, pad1, pad2, pad3), ';')) == tail by {
      assert ';' !in Note(d) by {
        NoteFacts(ws, d);
      }
      assert ';' !in pad1 && ';' !in pad2 && ';' !in pad3;
      assert Layout(d, pad1, pad2, pad3) == d.codePoints + ";" + tail;
      LastSemicolonPiece(d.codePoints, tail);
    }
    SegmentFieldsOfLayout(ws, d, pad1, pad2, pad3);
  }

  /** The character of a note is the record's character. */
  lemma CharacterOfNote(ws: char -> bool, d: DataRecord)
    requires ws(' ') && WellFormed(ws, d)
    ensures Character(ws, Note(d)) == d.character
  {
    var h := Note(d);
    var r := Character(ws, h);
    var n := |d.character|;
    assert h[..n] == d.character && h[n] == ' ';
    assert |r| == n;
  }

  /** The id of a note is the record's name words, colons removed, joined by `-`. */
  lemma EntryIdOfNote(ws: char -> bool, d: DataRecord)
    requires ws(' ') && WellFormed(ws, d)
    ensures EntryId(Note(d)) == Some(Join(StripColons(d.words), "-"))
  {
    NoteFacts(ws, d);
    var words := [d.character, d.version] + d.words;
    assert forall k :: 0 <= k < |words| ==> ' ' !in words[k] by {
      forall k | 0 <= k < |words| ensures ' ' !in words[k] {
        assert IsToken(ws, words[k]);
      }
    }
    ComponentsOfJoin(words, ' ');
    assert words[2..] == d.words;
  }

  /** Format then scan: a well-formed data line yields its record's emoji,
      unless its status is excluded or its note names a skin tone. */
  lemma ClassifyLayout(ws: char -> bool, d: DataRecord, pad1: string, pad2: string, pad3: string)
    requires ws(' ') && WellFormed(ws, d)
    requires AllChar(pad1, ' ') && AllChar(pad2, ' ') && AllChar(pad3, ' ')
    requires !Contains(Layout(d, pad1, pad2, pad3), "Format:")
    ensures Classify(ws, Layout(d, pad1, pad2, pad3)) ==
      if IsExcludedStatus(d.status) then Excluded
      else if IsSkinToneNote(Note(d)) then SkinTone
      else Entry(Emoji(Join(StripColons(d.words), "-"), d.character))
  {
    var line := Layout(d, pad1, pad2, pad3);
    assert line[|d.codePoints|] == ';';
    ContainsChar(line, ';');
    DataFieldsOfLayout(ws, d, pad1, pad2, pad3);
    EntryIdOfNote(ws, d);
    CharacterOfNote(ws, d);
  }

  /** The first marker of `pre + tag + rest` is the one after `pre` when
      `pre` has no `#`. */
  lemma MarkerAfterPrefix(pre: string, tag: string, rest: string)
    requires tag != [] && tag[0] == '#' && '#' !in pre
    ensures IndexOf(pre + tag + rest, tag) == Some(|pre|)
    ensures Components(pre + tag + rest, tag) == [pre] + Components(rest, tag)
  {
    var line := pre + tag + rest;
    assert line[|pre|..|pre| + |tag|] == tag;
    assert OccursAt(line, tag, |pre|);
    var i := IndexOf(line, tag).value;
    assert line[i..i + |tag|][0] == line[i];
    assert line[|pre| + |tag|..] == rest;
  }

  /** With `#` only in the tag, the text after the tag is the last component. */
  lemma OnlyMarker(pre: string, tag: string, rest: string)
    requires tag != [] && tag[0] == '#' && '#' !in pre && '#' !in rest
    ensures Contains(pre + tag + rest, tag)
    ensures Last(Components(pre + tag + rest, tag)) == rest
  {
    MarkerAfterPrefix(pre, tag, rest);
    MissingCharNotContained(rest, tag, '#');
    assert Components(rest, tag) == [rest];
  }

  /** A header `pre + tag + pad + name` names `name`. */
  lemma MarkerNameOfHeader(ws: char -> bool, pre: string, tag: string, pad: string, name: string)
    requires tag != [] && tag[0] == '#'
    requires ws(' ') && AllChar(pad, ' ')
    requires '#' !in pre && '#' !in name
    requires name != [] ==> !ws(name[0]) && !ws(Last(name))
    ensures MarkerName(ws, pre + tag + pad + name, tag) == Some(name)
  {
    var rest := pad + name;
    assert pre + tag + pad + name == pre + tag + rest;
    assert '#' !in rest;
    OnlyMarker(pre, tag, rest);
    assert Trim(rest, ws) == name by {
      assert pad + name + [] == rest;
      TrimPadded(pad, name, [], ws);
    }
  }
}
