/** The catalog that `EmojiParser` keeps: the parsed groups folded into
    `EmojiSet`s, one per run of consecutive groups of the same category, and
    the random pick over the sets of some categories. The category type and
    the mapping `EmojiCategory(groupName:)` are parameters; `None` stands for
    a group name the mapping does not know. */
module Catalog {
  import opened Wrappers
  import opened Entities
  import opened Scanner
  import opened ScanLemmas

  /** A category and the emojis of its groups, in file order. */
  datatype EmojiSet<C> = EmojiSet(category: C, emojis: seq<Emoji>)

  /** One group folded into the sets: dropped when its name maps to no
      category, added to the last set when that set has the same category,
      appended as a new set otherwise. */
  function AddGroup<C(==)>(sets: seq<EmojiSet<C>>, g: EmojiGroup, categoryOf: string -> Option<C>): seq<EmojiSet<C>>
  {
    match categoryOf(g.name)
    case None => sets
    case Some(c) =>
      if sets != [] && Last(sets).category == c then
        sets[|sets| - 1 := Last(sets).(emojis := Last(sets).emojis + Flatten(g.subgroups))]
      else
        sets + [EmojiSet(c, Flatten(g.subgroups))]
  }

  /** The sets after folding the groups in order, starting from none. */
  function BuildSets<C(==)>(groups: seq<EmojiGroup>, categoryOf: string -> Option<C>): seq<EmojiSet<C>>
    decreases |groups|
  {
    if groups == [] then []
    else AddGroup(BuildSets(groups[..|groups| - 1], categoryOf), Last(groups), categoryOf)
  }

  /** No two neighbouring sets share a category. */
  predicate NoRepeat<C(==)>(sets: seq<EmojiSet<C>>)
  {
    forall k :: 0 < k < |sets| ==> sets[k - 1].category != sets[k].category
  }

  /** All emojis of the sets, set after set. */
  function SetEmojis<C>(sets: seq<EmojiSet<C>>): seq<Emoji>
    decreases |sets|
  {
    if sets == [] then [] else SetEmojis(sets[..|sets| - 1]) + Last(sets).emojis
  }

  /** The groups whose name maps to a category, in order. */
  function MappedGroups<C>(groups: seq<EmojiGroup>, categoryOf: string -> Option<C>): seq<EmojiGroup>
    decreases |groups|
  {
    if groups == [] then []
    else
      MappedGroups(groups[..|groups| - 1], categoryOf) +
      (if categoryOf(Last(groups).name).Some? then [Last(groups)] else [])
  }

  /** Folding one group leaves every set but the last as it was. It appends
      one set exactly when the group is mapped to a category other than that
      of the last set; otherwise the last set keeps its category and gets the
      group's emojis at its end, if it has any. */
  lemma AddGroupShape<C>(sets: seq<EmojiSet<C>>, g: EmojiGroup, categoryOf: string -> Option<C>)
    ensures var r := AddGroup(sets, g, categoryOf);
      |sets| <= |r| <= |sets| + 1 &&
      (categoryOf(g.name).None? ==> r == sets) &&
      (|r| == |sets| + 1 <==>
        categoryOf(g.name).Some? && (sets == [] || Last(sets).category != categoryOf(g.name).value)) &&
      (|r| == |sets| + 1 ==>
        r[..|sets|] == sets && Last(r) == EmojiSet(categoryOf(g.name).value, Flatten(g.subgroups))) &&
      (|r| == |sets| && sets != [] ==>
        r[..|sets| - 1] == sets[..|sets| - 1] && Last(r).category == Last(sets).category &&
        Last(r).emojis == Last(sets).emojis + (if categoryOf(g.name).Some? then Flatten(g.subgroups) else []))
  {
    var r := AddGroup(sets, g, categoryOf);
    if categoryOf(g.name).Some? && |r| == |sets| + 1 {
      assert r[..|sets|] == sets;
    }
  }

  /** Folding a group keeps neighbouring sets apart by category. */
  lemma AddGroupNoRepeat<C>(sets: seq<EmojiSet<C>>, g: EmojiGroup, categoryOf: string -> Option<C>)
    requires NoRepeat(sets)
    ensures NoRepeat(AddGroup(sets, g, categoryOf))
  {
    var r := AddGroup(sets, g, categoryOf);
    AddGroupShape(sets, g, categoryOf);
    forall k | 0 < k < |r| ensures r[k - 1].category != r[k].category {
      if k < |sets| {
        assert r[k - 1] == sets[k - 1] && r[k].category == sets[k].category by {
          if |r| == |sets| + 1 {
            assert r[k - 1] == r[..|sets|][k - 1] && r[k] == r[..|sets|][k];
          } else if k < |sets| - 1 {
            assert r[k - 1] == r[..|sets| - 1][k - 1] && r[k] == r[..|sets| - 1][k];
          } else {
            assert r[k - 1] == r[..|sets| - 1][k - 1];
          }
        }
      } else {
        assert r[k - 1] == r[..|sets|][k - 1];
      }
    }
  }

  /** No two neighbouring sets of the catalog share a category. */
  lemma {:induction false} BuildSetsNoRepeat<C>(groups: seq<EmojiGroup>, categoryOf: string -> Option<C>)
    ensures NoRepeat(BuildSets(groups, categoryOf))
    decreases |groups|
  {
    if groups != [] {
      BuildSetsNoRepeat(groups[..|groups| - 1], categoryOf);
      AddGroupNoRepeat(BuildSets(groups[..|groups| - 1], categoryOf), Last(groups), categoryOf);
    }
  }

  lemma SetEmojisSnoc<C>(sets: seq<EmojiSet<C>>, s: EmojiSet<C>)
    ensures SetEmojis(sets + [s]) == SetEmojis(sets) + s.emojis
  {
    assert (sets + [s])[..|sets|] == sets;
  }

  /** Folding a group adds its emojis after all others when it is mapped, and
      nothing when it is not. */
  lemma AddGroupEmojis<C>(sets: seq<EmojiSet<C>>, g: EmojiGroup, categoryOf: string -> Option<C>)
    ensures SetEmojis(AddGroup(sets, g, categoryOf)) ==
      SetEmojis(sets) + (if categoryOf(g.name).Some? then Flatten(g.subgroups) else [])
  {
    var r := AddGroup(sets, g, categoryOf);
    AddGroupShape(sets, g, categoryOf);
    if |r| == |sets| + 1 {
      assert r == sets + [Last(r)];
      SetEmojisSnoc(sets, Last(r));
    } else if sets != [] {
      var init := sets[..|sets| - 1];
      assert r == init + [Last(r)];
      assert sets == init + [Last(sets)];
      SetEmojisSnoc(init, Last(r));
      SetEmojisSnoc(init, Last(sets));
    }
  }

  lemma MappedGroupsSnoc<C>(groups: seq<EmojiGroup>, categoryOf: string -> Option<C>)
    requires groups != []
    ensures AllEmojis(MappedGroups(groups, categoryOf)) ==
      AllEmojis(MappedGroups(groups[..|groups| - 1], categoryOf)) +
      (if categoryOf(Last(groups).name).Some? then Flatten(Last(groups).subgroups) else [])
  {
    var init := MappedGroups(groups[..|groups| - 1], categoryOf);
    if categoryOf(Last(groups).name).Some? {
      assert (init + [Last(groups)])[..|init|] == init;
    } else {
      assert init + [] == init;
    }
  }

  /** The catalog holds the emojis of the mapped groups, in file order, each
      once: set after set equals group after group. */
  lemma {:induction false} BuildSetsEmojis<C>(groups: seq<EmojiGroup>, categoryOf: string -> Option<C>)
    ensures SetEmojis(BuildSets(groups, categoryOf)) == AllEmojis(MappedGroups(groups, categoryOf))
    decreases |groups|
  {
    if groups != [] {
      var init := groups[..|groups| - 1];
      BuildSetsEmojis(init, categoryOf);
      AddGroupEmojis(BuildSets(init, categoryOf), Last(groups), categoryOf);
      MappedGroupsSnoc(groups, categoryOf);
    }
  }

  /** Groups that all map to a category are kept whole. */
  lemma {:induction false} AllMapped<C>(groups: seq<EmojiGroup>, categoryOf: string -> Option<C>)
    requires forall k :: 0 <= k < |groups| ==> categoryOf(groups[k].name).Some?
    ensures MappedGroups(groups, categoryOf) == groups
    decreases |groups|
  {
    if groups != [] {
      var init := groups[..|groups| - 1];
      assert forall k :: 0 <= k < |init| ==> init[k] == groups[k];
      AllMapped(init, categoryOf);
      assert init + [Last(groups)] == groups;
    }
  }

  /** When every group header of a text that parses names a category, the
      catalog holds exactly the emojis of the text's accepted data lines, in
      file order. */
  lemma CatalogOfText<C>(infos: seq<LineInfo>, categoryOf: string -> Option<C>)
    requires Run(infos).Parsed?
    requires forall k :: 0 <= k < |GroupHeaders(infos)| ==> categoryOf(GroupHeaders(infos)[k]).Some?
    ensures SetEmojis(BuildSets(Run(infos).groups, categoryOf)) == Accepted(infos)
  {
    var gs := Run(infos).groups;
    RunNames(infos);
    forall k | 0 <= k < |gs| ensures categoryOf(gs[k].name).Some? {
      assert GroupNames(gs)[k] == gs[k].name;
    }
    AllMapped(gs, categoryOf);
    BuildSetsEmojis(gs, categoryOf);
    RunEmojis(infos);
  }

  /** Groups that map to no category contribute nothing: dropping them first
      gives the same catalog. */
  lemma {:induction false} UnmappedGroupsIgnored<C>(groups: seq<EmojiGroup>, categoryOf: string -> Option<C>)
    ensures BuildSets(MappedGroups(groups, categoryOf), categoryOf) == BuildSets(groups, categoryOf)
    decreases |groups|
  {
    if groups != [] {
      var init := groups[..|groups| - 1];
      var mapped := MappedGroups(init, categoryOf);
      UnmappedGroupsIgnored(init, categoryOf);
      if categoryOf(Last(groups).name).Some? {
        assert (mapped + [Last(groups)])[..|mapped|] == mapped;
      } else {
        assert mapped + [] == mapped;
      }
    }
  }

  /** Some group's name maps to category `c`. */
  ghost predicate SomeGroupOf<C>(groups: seq<EmojiGroup>, categoryOf: string -> Option<C>, c: C)
  {
    exists j :: 0 <= j < |groups| && categoryOf(groups[j].name) == Some(c)
  }

  /** Every set's category is that of some group. */
  lemma {:induction false} BuildSetsCategories<C>(groups: seq<EmojiGroup>, categoryOf: string -> Option<C>)
    ensures forall k :: 0 <= k < |BuildSets(groups, categoryOf)| ==>
      SomeGroupOf(groups, categoryOf, BuildSets(groups, categoryOf)[k].category)
    decreases |groups|
  {
    if groups != [] {
      var init := groups[..|groups| - 1];
      var sets := BuildSets(init, categoryOf);
      var r := BuildSets(groups, categoryOf);
      BuildSetsCategories(init, categoryOf);
      forall k | 0 <= k < |r| ensures SomeGroupOf(groups, categoryOf, r[k].category) {
        SetFromLastGroup(sets, Last(groups), categoryOf, k);
        if k < |sets| && r[k].category == sets[k].category {
          assert SomeGroupOf(init, categoryOf, sets[k].category);
          var j :| 0 <= j < |init| && categoryOf(init[j].name) == Some(sets[k].category);
          assert groups[j] == init[j];
        } else {
          assert categoryOf(groups[|groups| - 1].name) == Some(r[k].category);
        }
      }
    }
  }

  /** A set after folding a group either keeps the category it had or has
      the group's category. */
  lemma SetFromLastGroup<C>(sets: seq<EmojiSet<C>>, g: EmojiGroup, categoryOf: string -> Option<C>, k: nat)
    requires k < |AddGroup(sets, g, categoryOf)|
    ensures (k < |sets| && AddGroup(sets, g, categoryOf)[k].category == sets[k].category) ||
            categoryOf(g.name) == Some(AddGroup(sets, g, categoryOf)[k].category)
  {
    var r := AddGroup(sets, g, categoryOf);
    AddGroupShape(sets, g, categoryOf);
    if k < |sets| {
      if |r| == |sets| + 1 {
        assert r[k] == r[..|sets|][k];
      } else if k < |sets| - 1 {
        assert r[k] == r[..|sets| - 1][k];
      }
    }
  }

  /** `filter { categories.contains($0.category) }`: the sets of the listed
      categories; `MatchingAppend` shows that their order is kept. */
  function Matching<C(==)>(sets: seq<EmojiSet<C>>, categories: seq<C>): (r: seq<EmojiSet<C>>)
    ensures forall k :: 0 <= k < |r| ==> r[k] in sets && r[k].category in categories
    ensures forall k :: 0 <= k < |sets| && sets[k].category in categories ==> sets[k] in r
    ensures |r| <= |sets|
    decreases |sets|
  {
    if sets == [] then []
    else (if sets[0].category in categories then [sets[0]] else []) + Matching(sets[1..], categories)
  }

  /** The filter works set by set: filtering a concatenation concatenates
      the filtered parts, so the kept sets stay in their order. */
  lemma {:induction false} MatchingAppend<C>(a: seq<EmojiSet<C>>, b: seq<EmojiSet<C>>, categories: seq<C>)
    ensures Matching(a + b, categories) == Matching(a, categories) + Matching(b, categories)
    decreases |a|
  {
    if a != [] {
      assert (a + b)[0] == a[0] && (a + b)[1..] == a[1..] + b;
      MatchingAppend(a[1..], b, categories);
    } else {
      assert a + b == b;
    }
  }

  /** Listing every category that occurs keeps all sets. */
  lemma {:induction false} MatchingAll<C>(sets: seq<EmojiSet<C>>, categories: seq<C>)
    requires forall k :: 0 <= k < |sets| ==> sets[k].category in categories
    ensures Matching(sets, categories) == sets
    decreases |sets|
  {
    if sets != [] {
      MatchingAll(sets[1..], categories);
      assert [sets[0]] + sets[1..] == sets;
    }
  }

  class EmojiParser<C(==)> {
    var emojiSets: seq<EmojiSet<C>>

    /** `init`, from the groups that `loadEmojiGroup(from:)` returned: each
        group folded in, in order, so that no two neighbouring sets share a
        category. */
    constructor(groups: seq<EmojiGroup>, categoryOf: string -> Option<C>)
      ensures emojiSets == BuildSets(groups, categoryOf)
      ensures NoRepeat(emojiSets)
    {
      emojiSets := [];
      new;
      var i := 0;
      while i < |groups|
        invariant 0 <= i <= |groups|
        invariant emojiSets == BuildSets(groups[..i], categoryOf)
      {
        var group := groups[i];
        var category := categoryOf(group.name);
        if category.Some? {
          var emojis := Flatten(group.subgroups);
          if emojiSets != [] && emojiSets[|emojiSets| - 1].category == category.value {
            var n := |emojiSets| - 1;
            emojiSets := emojiSets[n := emojiSets[n].(emojis := emojiSets[n].emojis + emojis)];
          } else {
            emojiSets := emojiSets + [EmojiSet(category.value, emojis)];
          }
        }
        assert groups[..i + 1][..i] == groups[..i];
        i := i + 1;
      }
      assert groups[..|groups|] == groups;
      BuildSetsNoRepeat(groups, categoryOf);
    }

    /** `randomEmoji(categories:)`: some set of a listed category, then some
        emoji of it. `None` stands for the trap, when no set matches or the
        chosen set is empty. */
    method RandomEmoji(categories: seq<C>) returns (r: Option<Emoji>)
      ensures r.Some? ==> exists s :: s in emojiSets && s.category in categories && r.value in s.emojis
      ensures Matching(emojiSets, categories) == [] ==> r.None?
      ensures (Matching(emojiSets, categories) != [] &&
               forall s :: s in Matching(emojiSets, categories) ==> s.emojis != []) ==> r.Some?
    {
      var candidates := Matching(emojiSets, categories);
      if candidates == [] {
        return None;
      }
      assert candidates[0] in candidates;
      var emojiSet :| emojiSet in candidates;
      if emojiSet.emojis == [] {
        return None;
      }
      assert emojiSet.emojis[0] in emojiSet.emojis;
      var emoji :| emoji in emojiSet.emojis;
      return Some(emoji);
    }
  }
}
