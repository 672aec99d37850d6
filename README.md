# EmojiPalette: the emoji-test parser, modelled in Dafny

EmojiPalette is a SwiftUI emoji picker. Its data comes from the Unicode
`emoji-test.txt` file. `EmojiParser` reads it in two stages and then serves random picks:

* `loadEmojiGroup(from:)` scans the text line by line. It keeps three
  cursors, `groups`, `subgroups` and `emojis`, and builds a list of groups;
  each group holds subgroups, and each subgroup holds emojis. A line can
  carry a `# group:` header, a `# subgroup:` header and a data record. The
  three tests are independent of each other. A data record is kept when it
  has a `;` and no `Format:`, when its status is neither `unqualified` nor
  `minimally-qualified`, and when it is not a skin-tone variant. The id of a
  kept emoji is the name words after the hash, colons removed, joined by `-`.
  Its character is the first whitespace-free word after the hash.
* The initializer folds those groups into `EmojiSet`s, one per picker
  category. A group whose name maps to no category is dropped. A group whose
  category equals that of the last set is merged into it. Any other group
  starts a new set.
* `randomEmoji(categories:)` picks a set among those of the requested
  categories, then an emoji in it. It traps when it finds nothing.

The model is split into these modules:

* `Text` (`text.dfy`): the string operations the scanner uses, each with its
  meaning proved. They are `contains`, `components(separatedBy:)` (empty
  pieces kept), `split` (empty pieces dropped), `trimmingCharacters`,
  `replacingOccurrences` and `joined`.
* `Entities` (`entities.dfy`): `Emoji`, `EmojiSubGroup` and `EmojiGroup`,
  and the flattening of subgroups into emojis.
* `LineFields` (`line_fields.dfy`): what one line yields. That is the two
  header names and the verdict of the data test: not data, no fields,
  excluded, skin tone, no name (the `removeFirst` trap), or an entry.
* `Scanner` (`scanner.dfy`): the specification `Run` and the method
  `LoadEmojiGroup`.
  * `Run` folds the line verdicts over the list of groups, with no cursors.
  * `LoadEmojiGroup` is the source's loop with its three cursors. Its
    contract says that it computes `Run`.
  * A Swift trap is a `Trapped(line, kind)` result. There are three kinds:
    a subgroup header with no group, an entry with no subgroup, and a name
    too short for the two `removeFirst` calls.
* `ScanLemmas` (`scan_lemmas.dfy`): what `Run` guarantees about a whole text.
  * Emojis come out in file order, and only from kept data lines.
  * Group and subgroup names are the header names, in order.
  * Earlier output is only ever extended at its end.
  * A line that comes too early traps.
* `SampleLines` (`sample_lines.dfy`) works through concrete lines:
  * the smiling-face line of the package's test, in its qualified and its
    unqualified form;
  * a three-line file;
  * the keycap-number-sign line;
  * the light-skin-tone component line;
  * the malformed line `x;y`.
* `Catalog` (`catalog.dfy`): the class `EmojiParser`.
  * Its `emojiSets` field is built by the constructor's loop. The loop is
    proved equal to the fold `BuildSets`.
  * `RandomEmoji`, which may trap in the source, returns `None` in the model.

Four behaviours of the code are worth knowing, and all are proved here.

* The status and the text after the hash come from the last non-empty
  `;`-piece of the line, split on `#` with empty pieces dropped. So a name
  that itself ends in `#` loses that `#`. The keycap line
  `0023 FE0F 20E3 ; fully-qualified # #️⃣ E0.6 keycap: #` gets the id
  `keycap`, where the other keycaps get `keycap-*`, `keycap-0` and so on
  (`SampleLines.KeycapNumberSign`).
* A text whose first line that yields an emoji comes before any subgroup
  header makes the scanner trap, and so does a subgroup header before any
  group header (`ScanLemmas.EntryBeforeSubgroupTraps`,
  `ScanLemmas.SubgroupBeforeGroupTraps`). More generally, every group header
  opens a group with no subgroups. So a line that yields an emoji after a
  group header, with no subgroup header since, traps there
  (`ScanLemmas.EntryWithoutSubgroupTraps`). Data lines that are skipped (an
  excluded status, a skin-tone variant, no fields) do not trap there.
* The skin-tone filter asks for a `:` as well as the words `skin tone`. The
  skin-tone modifiers themselves, such as
  `1F3FB ; component # 🏻 E1.0 light skin tone`, hold no `:`. Their status
  `component` is not excluded either, so they are kept as emojis, here
  `light-skin-tone` (`SampleLines.LightSkinToneComponent`). So an emoji
  whose name mentions a skin tone can survive the parser.
* Malformed data lines are not all skipped. Take a data line, one with a
  `;` and without `Format:`, whose status is not excluded. Split its last
  non-empty `;`-piece on `#`, keep the last non-empty piece and trim it;
  this is its `afterHash`. If `afterHash` has no space, the line passes both
  filters. Then the second `removeFirst` finds the word list empty, and the
  scanner crashes whether or not a subgroup is open. Examples are `x;y`, or a record whose note is
  only its character (`LineFields.EntryId`, `SampleLines.NoSpaceNoteTraps`).

## Model

All source paths are relative to the repository root.

| member | source | states |
|---|---|---|
| Scanner.LoadEmojiGroup | Sources/EmojiPalette/EmojiParser.swift:86-125 | the three-cursor loop returns exactly what `Run` gives on the analysed lines: the parsed groups, or the first line that traps and why |
| Scanner.ScanLine | Sources/EmojiPalette/EmojiParser.swift:90-122 | one pass of the closure: it stops exactly with the trap `ApplyLine` gives for that line, or else leaves cursors that mirror `ApplyLine`'s new groups |
| Scanner.ScanData | Sources/EmojiPalette/EmojiParser.swift:102-122 | the data test on coherent cursors stops with the trap, or continues with the groups, that `DataStep` gives for the line's verdict |
| Scanner.ScanFields | Sources/EmojiPalette/EmojiParser.swift:108-120 | the filters, the id and the write-back on fields agree with `DataStep` on `ClassifyFields`, trap included |
| Scanner.CursorsAddEmoji | Sources/EmojiPalette/EmojiParser.swift:118-120 | writing an emoji back through the `emojis`, `subgroups` and `groups` cursors appends it to the last subgroup of the last group, and the cursors stay coherent |
| Scanner.AnalyseAll | Sources/EmojiPalette/EmojiParser.swift:90 | the lines are analysed one for one |
| Scanner.RunStep | Sources/EmojiPalette/EmojiParser.swift:90-122 | after a prefix that parsed, the next line either traps the whole run at that line or extends the parsed prefix by one line |
| Scanner.TrapPersists | Sources/EmojiPalette/EmojiParser.swift:99-119 | once a line traps, no later line changes the result |
| Scanner.TrappedBefore | Sources/EmojiPalette/EmojiParser.swift:99-119 | a trap names one of the lines read |
| Scanner.TrappedAt | Sources/EmojiPalette/EmojiParser.swift:99-119 | the run traps at line k for a given cause exactly when the lines before k parse and line k traps for that cause on their groups |
| ScanLemmas.RunEmojis | Sources/EmojiPalette/EmojiParser.swift:118-120 | the emojis of the parsed groups, in order, are the entries of the accepted lines in file order |
| ScanLemmas.AcceptedFrom | Sources/EmojiPalette/EmojiParser.swift:102-118 | every accepted emoji is the entry of some line |
| ScanLemmas.EmojisAreKept | Sources/EmojiPalette/EmojiParser.swift:102-118 | every emoji returned comes from a line that passes the data test and both filters; its character is a non-empty prefix of that line's text after the hash |
| ScanLemmas.EntryLine | Sources/EmojiPalette/EmojiParser.swift:102-118 | a line analysed as an entry is a kept line that yields that emoji |
| ScanLemmas.LineEmojis | Sources/EmojiPalette/EmojiParser.swift:118-120 | one line adds its entry, and nothing else, at the end of the emojis |
| ScanLemmas.AddEmojiEmojis | Sources/EmojiPalette/EmojiParser.swift:118-120 | an entry appends exactly that emoji to the emojis of all groups |
| ScanLemmas.OpenGroupEmojis | Sources/EmojiPalette/EmojiParser.swift:93-94 | a group header adds no emoji |
| ScanLemmas.OpenSubgroupEmojis | Sources/EmojiPalette/EmojiParser.swift:98-100 | a subgroup header adds no emoji, although it clears the `emojis` cursor |
| ScanLemmas.RunNames | Sources/EmojiPalette/EmojiParser.swift:91-101 | the group names are the group header names in file order, and the subgroup names, group by group, are the subgroup header names in file order |
| ScanLemmas.LineNames | Sources/EmojiPalette/EmojiParser.swift:91-101 | one line adds its group header name to the group names and its subgroup header name to the subgroup names |
| ScanLemmas.OpenGroupNames | Sources/EmojiPalette/EmojiParser.swift:93-94 | a group header appends its name and keeps the subgroup names |
| ScanLemmas.OpenSubgroupNames | Sources/EmojiPalette/EmojiParser.swift:98-100 | a subgroup header appends its name to the subgroup names |
| ScanLemmas.AddEmojiNames | Sources/EmojiPalette/EmojiParser.swift:118-120 | an entry renames nothing |
| ScanLemmas.RunGrows | Sources/EmojiPalette/EmojiParser.swift:90-122 | what any prefix of the lines built is still there at the end; only the last subgroup of the last group is ever rewritten, and only by appending |
| ScanLemmas.LineGrows | Sources/EmojiPalette/EmojiParser.swift:90-122 | one line only appends groups, subgroups of the last group, or emojis of its last subgroup |
| ScanLemmas.PrefixParses | Sources/EmojiPalette/EmojiParser.swift:90-122 | if the whole text parses, so does every prefix |
| ScanLemmas.NoSubgroupYet | Sources/EmojiPalette/EmojiParser.swift:96-101 | before any subgroup header, no group has a subgroup, the last one included |
| ScanLemmas.EntryBeforeSubgroupTraps | Sources/EmojiPalette/EmojiParser.swift:119 | an entry line before any subgroup header traps, at that line or earlier |
| ScanLemmas.EntryWithoutSubgroupTraps | Sources/EmojiPalette/EmojiParser.swift:93-119 | an entry after a group header with no subgroup header since, on that line or later, traps; when nothing trapped before, it traps at that line for want of a subgroup |
| ScanLemmas.OpenGroupWithoutSubgroup | Sources/EmojiPalette/EmojiParser.swift:93-94 | after a group header and no subgroup header since, the last group has no subgroup |
| ScanLemmas.SubgroupBeforeGroupTraps | Sources/EmojiPalette/EmojiParser.swift:100 | a subgroup header before any group header traps, at that line or earlier |
| ScanLemmas.GroupHeaderLine | Sources/EmojiPalette/EmojiParser.swift:91-95 | a `# group: <name>` line opens a group named by the trimmed name, and is no subgroup header and no data line |
| ScanLemmas.SubgroupHeaderLine | Sources/EmojiPalette/EmojiParser.swift:96-101 | a `# subgroup: <name>` line opens a subgroup named by the trimmed name, and is no group header and no data line |
| ScanLemmas.DataLine | Sources/EmojiPalette/EmojiParser.swift:102-120 | a well-formed data line without header tags yields its record's emoji, or is excluded, or is a skin-tone variant, as its status and name say |
| ScanLemmas.NoSemicolonNotData | Sources/EmojiPalette/EmojiParser.swift:102 | a line without `;` is no data line |
| ScanLemmas.TagAbsent | Sources/EmojiPalette/EmojiParser.swift:91 | a line whose only `#` is not followed by the tag's text does not contain the tag |
| LineFields.MarkerName | Sources/EmojiPalette/EmojiParser.swift:91-92 | a header name exists exactly when the line contains the tag |
| LineFields.MarkerNameAfterLast | Sources/EmojiPalette/EmojiParser.swift:92 | the name is the trimmed text after an occurrence of the tag that no further occurrence follows |
| LineFields.MarkerNameOfHeader | Sources/EmojiPalette/EmojiParser.swift:91-97 | a header made of a prefix, the tag, spaces and a name gives that name |
| LineFields.Character | Sources/EmojiPalette/EmojiParser.swift:107 | the emoji character is a whitespace-free prefix of the text after the hash, stopped only by whitespace or the end |
| LineFields.EntryId | Sources/EmojiPalette/EmojiParser.swift:114-117 | the id is missing (the `removeFirst` trap) exactly when the text after the hash has no space, and it never contains a colon |
| LineFields.ClassifyFields | Sources/EmojiPalette/EmojiParser.swift:108-117 | the fields are excluded exactly for the two excluded statuses, a skin tone exactly for a non-excluded skin-tone note, and an id trap exactly for a kept note without a space |
| LineFields.Classify | Sources/EmojiPalette/EmojiParser.swift:102-117 | a line is no data line exactly when it lacks `;` or has `Format:`; it has no fields exactly when its splits leave no piece; it yields an entry or the id trap exactly when it is kept |
| LineFields.ClassifyEntry | Sources/EmojiPalette/EmojiParser.swift:102-118 | an entry comes from a kept line; its character is a non-empty whitespace-free prefix of the text after the hash and its id has no colon |
| LineFields.FieldsFromRuns | Sources/EmojiPalette/EmojiParser.swift:103-106 | the status is the first `#`-free run of the last `;`-free run of the line, and the text after the hash its last run, both trimmed |
| LineFields.SegmentFieldsFromRuns | Sources/EmojiPalette/EmojiParser.swift:104-106 | the `#` split of a segment binds its first and last `#`-free runs, trimmed |
| LineFields.FieldsAbsent | Sources/EmojiPalette/EmojiParser.swift:103-106 | the bindings fail exactly when the line is all `;`, or its last `;`-free run is all `#` |
| LineFields.DataFieldsOfLayout | Sources/EmojiPalette/EmojiParser.swift:103-106 | a record laid out as in the emoji-test format binds back its own status and note |
| LineFields.CharacterOfNote | Sources/EmojiPalette/EmojiParser.swift:107 | the character read from a record's note is the record's character |
| LineFields.EntryIdOfNote | Sources/EmojiPalette/EmojiParser.swift:114-117 | the id read from a record's note is its name words, colons removed, joined by `-` |
| LineFields.ClassifyLayout | Sources/EmojiPalette/EmojiParser.swift:102-117 | format then scan: a laid-out record yields its own emoji, or is excluded, or is a skin-tone variant |
| LineFields.NoteFacts | Sources/EmojiPalette/EmojiParser.swift:104-106 | a record's note has no `;` or `#`, does not start or end with whitespace, and is its fields joined by spaces |
| Text.IndexOf | Sources/EmojiPalette/EmojiParser.swift:91 | the first occurrence of a pattern: none before it, and none at all when absent |
| Text.Components | Sources/EmojiPalette/EmojiParser.swift:92 | `components(separatedBy:)`, also used at :97 and :114, gives at least one piece, and joining the pieces with the separator gives the text back |
| Text.ComponentsOfJoin | Sources/EmojiPalette/EmojiParser.swift:114 | for a one-character separator, such as the space here, `components(separatedBy:)` undoes `joined` on pieces free of the separator |
| Text.ComponentsFree | Sources/EmojiPalette/EmojiParser.swift:92 | no component contains the separator |
| Text.LastComponent | Sources/EmojiPalette/EmojiParser.swift:92 | the last component follows an occurrence of the separator when the text contains it, and is the whole text when it does not |
| Text.ComponentsCount | Sources/EmojiPalette/EmojiParser.swift:114-116 | splitting on a space gives a single piece exactly when the text has no space, so the two `removeFirst` calls find enough pieces exactly when it has one |
| Text.Split | Sources/EmojiPalette/EmojiParser.swift:103-104 | every piece of `split` is non-empty and free of the separator |
| Text.SplitConcat | Sources/EmojiPalette/EmojiParser.swift:103-104 | the pieces of `split`, put back together, are the text with every separator removed: no other character is lost, none is reordered |
| Text.SplitEmpty | Sources/EmojiPalette/EmojiParser.swift:103-104 | `split` gives no piece exactly when the text is made of the separator alone |
| Text.FirstPiece | Sources/EmojiPalette/EmojiParser.swift:105 | the first piece of `split` is the first separator-free run |
| Text.LastPiece | Sources/EmojiPalette/EmojiParser.swift:104-106 | the last piece of `split` is the last separator-free run |
| Text.TrimSpec | Sources/EmojiPalette/EmojiParser.swift:92 | trimming gives the middle of the text, with no whitespace at either end and only whitespace cut off |
| Text.TrimIdempotent | Sources/EmojiPalette/EmojiParser.swift:92 | trimming twice is trimming once |
| Text.TrimPadded | Sources/EmojiPalette/EmojiParser.swift:105-106 | trimming undoes whitespace padding around a text that neither starts nor ends with whitespace |
| Text.ComponentsWhere | Sources/EmojiPalette/EmojiParser.swift:107 | splitting on whitespace always gives at least one component, so `.first` is never nil |
| Text.FirstComponentWhere | Sources/EmojiPalette/EmojiParser.swift:107 | the first whitespace component is the longest whitespace-free prefix |
| Text.RemovingAll | Sources/EmojiPalette/EmojiParser.swift:117 | removing every occurrence of a character leaves none of it |
| Text.RemovingAllKeeps | Sources/EmojiPalette/EmojiParser.swift:117 | removing a character keeps every other character and drops that one |
| Text.JoinAvoids | Sources/EmojiPalette/EmojiParser.swift:117 | joining pieces free of a character with a separator free of it gives a text free of it |
| Entities.FlattenMembers | Sources/EmojiPalette/EmojiParser.swift:32 | an emoji is in the flattened subgroups exactly when it is in one of them |
| Entities.FlattenAppend | Sources/EmojiPalette/EmojiParser.swift:32 | flattening distributes over concatenation |
| SampleLines.SmilingFaceEntry | Tests/EmojiPaletteTests/EmojiParserTests.swift:54 | the fully-qualified smiling-face line yields the emoji `smiling-face` with character U+263A U+FE0F and no header |
| SampleLines.UnqualifiedSmilingFace | Sources/EmojiPalette/EmojiParser.swift:108-110 | the same record with status `unqualified` is excluded |
| SampleLines.SmallFile | Sources/EmojiPalette/EmojiParser.swift:86-125 | a group header, a subgroup header and the smiling-face line parse to one group with one subgroup holding that one emoji |
| SampleLines.KeycapNumberSign | Sources/EmojiPalette/EmojiParser.swift:103-117 | the keycap-number-sign line, whose name ends in `#`, yields the id `keycap` |
| SampleLines.LightSkinToneComponent | Sources/EmojiPalette/EmojiParser.swift:108-118 | the `component` line of the light skin-tone modifier passes both filters, since it holds no `:`, and yields the emoji `light-skin-tone` |
| SampleLines.BareLine | Sources/EmojiPalette/EmojiParser.swift:102-116 | a `;` line with no `#` whose part after the `;` has no space, no colon and no excluded status is no header and falls to the `removeFirst` trap |
| SampleLines.NoSpaceNoteTraps | Sources/EmojiPalette/EmojiParser.swift:114-116 | the line `x;y` meets the `removeFirst` trap, and a text made of it traps at its first line |
| SampleLines.PlainRecordLine | Sources/EmojiPalette/EmojiParser.swift:102-117 | a record line with no `o`, or no `:`, anywhere (every marker holds both) and no colon in its words yields the record's words joined by `-`, or is excluded |
| SampleLines.TrailingHashFields | Sources/EmojiPalette/EmojiParser.swift:103-106 | for any well-formed record, a trailing ` #` is dropped by the `#` split, so the line's status and `afterHash` are the record's own |
| SampleLines.TrailingHashLine | Sources/EmojiPalette/EmojiParser.swift:103-117 | for a record with no `o` anywhere and a status that is not excluded, the line with a trailing ` #` yields the record's emoji |
| Catalog.AddGroupShape | Sources/EmojiPalette/EmojiParser.swift:29-37 | folding a group drops it when unmapped; it appends a set exactly when the category differs from the last set's (or there are none); otherwise it extends the last set's emojis, and every earlier set stays as it was |
| Catalog.AddGroupNoRepeat | Sources/EmojiPalette/EmojiParser.swift:33-37 | folding a group keeps neighbouring sets apart by category |
| Catalog.BuildSetsNoRepeat | Sources/EmojiPalette/EmojiParser.swift:28-38 | no two neighbouring sets share a category |
| Catalog.AddGroupEmojis | Sources/EmojiPalette/EmojiParser.swift:32-37 | folding a mapped group adds its flattened emojis at the end of the sets' emojis, and an unmapped one adds none |
| Catalog.BuildSetsEmojis | Sources/EmojiPalette/EmojiParser.swift:28-38 | the sets hold, in order, exactly the emojis of the mapped groups |
| Catalog.AllMapped | Sources/EmojiPalette/EmojiParser.swift:29-31 | when every group name maps to a category, no group is dropped |
| Catalog.CatalogOfText | Sources/EmojiPalette/EmojiParser.swift:27-38 | when every group header of a text that parses names a category, the catalog built from its groups holds exactly the emojis of its accepted data lines, in file order |
| Catalog.UnmappedGroupsIgnored | Sources/EmojiPalette/EmojiParser.swift:29-31 | leaving out the groups without a category changes nothing |
| Catalog.BuildSetsCategories | Sources/EmojiPalette/EmojiParser.swift:29-36 | every set's category is the category of some group |
| Catalog.Matching | Sources/EmojiPalette/EmojiParser.swift:128 | the filter keeps exactly the sets whose category is requested |
| Catalog.MatchingAppend | Sources/EmojiPalette/EmojiParser.swift:128 | the filter of a concatenation is the concatenation of the filters, so the kept sets stay in their order |
| Catalog.MatchingAll | Sources/EmojiPalette/EmojiParser.swift:127-128 | when every set's category is requested, the filter keeps all sets in their order |
| Catalog.EmojiParser.constructor | Sources/EmojiPalette/EmojiParser.swift:27-38 | the loop fills `emojiSets` with the fold of the groups, and neighbouring sets differ in category |
| Catalog.EmojiParser.RandomEmoji | Sources/EmojiPalette/EmojiParser.swift:127-133 | an emoji returned belongs to a set of a requested category; the result is `Some` when a requested set exists and all of them have emojis, `None` (the source's `fatalError`) when no set is requested, and either one otherwise, as the random pick of a set may land on an empty one |

## Left out

- `enumerateLines`: line splitting belongs to Foundation, so `LoadEmojiGroup` takes the lines as a sequence.
- `.whitespaces`: the character set is the parameter `ws`. The scanner lemmas hold for any set, and the lemmas about laid-out lines for any set that contains the space. The samples take `ws` to be exactly the space and the tab.
- Grapheme clusters: each Dafny `char` stands for one Swift `Character`, and `ws` is tested once per `Character`. Foundation's `.whitespaces` trimming and splitting work on Unicode scalars instead, which the model does not separate. The smiling-face sample spells ☺️ as its two scalars U+263A U+FE0F. That changes nothing, because neither is whitespace, `;`, `#`, `:` or a space. The keycap #️⃣ must be one `char`: its first scalar is `#`, so counted in scalars the `#` split would cut the line there and leave U+FE0F U+20E3 as the character.
- Resource loading and its `fatalError` (EmojiParser.swift:22-26): file access is I/O, so the constructor takes the parsed groups instead of the bundle's text.
- The `shared` singleton (EmojiParser.swift:13) and the read-only `emojiSets` wrapper (:17-19): the class has the field itself.
- `newLoadEmojiGroup(from:)` (EmojiParser.swift:41-84) and the `Regex` extension (:136-209): a second, regex-based parser that the scanner does not use.
- `EmojiCategory(groupName:)`: the mapping of group names to categories is the parameter `categoryOf`, and the category is the type parameter `C`.
- The default `categories = EmojiCategory.allCases`: Dafny has no default arguments, so the caller passes the list.
- Catalog.EmojiParser.RandomEmoji: does not model that `randomElement` is uniform; it returns some member, chosen by `:|`.
- Catalog.EmojiParser.RandomEmoji: the `fatalError` on an empty choice is `None`, not a trap of the process.
- SampleLines.SmallFile: the test file's real emoji-test text is not modelled; only three representative lines are.
- Package.swift, the SwiftUI views and the measurement tests: no behaviour to model.
