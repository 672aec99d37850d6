/** The records of the emoji catalog. `Emoji` is declared in
    Sources/EmojiPalette/Emoji.swift; the group, subgroup and set records are
    declared from their uses in the parser. */
module Entities {

  /** One emoji: its id (the hyphen-joined name) and the character itself. */
  datatype Emoji = Emoji(id: string, character: string)

  /** A `# subgroup:` section and the emojis listed under it, in file order. */
  datatype EmojiSubGroup = EmojiSubGroup(name: string, emojis: seq<Emoji>)

  /** A `# group:` section and its subgroups, in file order. */
  datatype EmojiGroup = EmojiGroup(name: string, subgroups: seq<EmojiSubGroup>)

  /** `subgroups.flatMap { $0.emojis }`: all emojis of the subgroups, subgroup
      by subgroup. */
  function Flatten(subgroups: seq<EmojiSubGroup>): seq<Emoji>
  {
    if subgroups == [] then [] else subgroups[0].emojis + Flatten(subgroups[1..])
  }

  /** An emoji is in the flattened list exactly when some subgroup lists it. */
  lemma {:induction false} FlattenMembers(subgroups: seq<EmojiSubGroup>)
    ensures forall e :: e in Flatten(subgroups) <==>
      exists k :: 0 <= k < |subgroups| && e in subgroups[k].emojis
    decreases |subgroups|
  {
    if subgroups != [] {
      FlattenMembers(subgroups[1..]);
      assert forall k :: 0 < k < |subgroups| ==> subgroups[k] == subgroups[1..][k - 1];
    }
  }

  lemma {:induction false} FlattenAppend(a: seq<EmojiSubGroup>, b: seq<EmojiSubGroup>)
    ensures Flatten(a + b) == Flatten(a) + Flatten(b)
    decreases |a|
  {
    if a == [] {
      assert a + b == b;
    } else {
      assert (a + b)[1..] == a[1..] + b;
      FlattenAppend(a[1..], b);
    }
  }

  /** Every emoji of a list of groups, group by group. */
  function AllEmojis(groups: seq<EmojiGroup>): seq<Emoji>
  {
    if groups == [] then [] else AllEmojis(groups[..|groups| - 1]) + Flatten(groups[|groups| - 1].subgroups)
  }
}
