/** The string operations of Swift and Foundation that the emoji-test scanner
    relies on. A string is a sequence of `char`, each `char` standing for one
    Swift `Character` (a grapheme cluster, which these operations treat as an
    atom). */
module Text {
  import opened Wrappers

  /** `s` holds `t` starting at position `i`. */
  predicate OccursAt(s: string, t: string, i: nat)
  {
    i + |t| <= |s| && s[i..i + |t|] == t
  }

  lemma OccursAtTail(s: string, t: string, i: nat)
    requires s != []
    ensures OccursAt(s, t, i + 1) <==> OccursAt(s[1..], t, i)
  {
    if i + 1 + |t| <= |s| {
      assert s[1..][i..i + |t|] == s[i + 1..i + 1 + |t|];
    }
  }

  /** Position of the first occurrence of `t` in `s`, if any. */
  function IndexOf(s: string, t: string): (r: Option<nat>)
    ensures r.Some? ==> OccursAt(s, t, r.value)
    ensures r.Some? ==> forall j: nat :: j < r.value ==> !OccursAt(s, t, j)
    ensures r.None? ==> forall j: nat :: !OccursAt(s, t, j)
    decreases |s|
  {
    if |s| < |t| then None
    else if s[..|t|] == t then Some(0)
    else
      assert !OccursAt(s, t, 0);
      match IndexOf(s[1..], t)
      case None =>
        assert forall j: nat :: !OccursAt(s, t, j) by {
          forall j: nat ensures !OccursAt(s, t, j) {
            if j > 0 { OccursAtTail(s, t, j - 1); }
          }
        }
        None
      case Some(k) =>
        OccursAtTail(s, t, k);
        assert forall j: nat :: j < k + 1 ==> !OccursAt(s, t, j) by {
          forall j: nat | j < k + 1 ensures !OccursAt(s, t, j) {
            if j > 0 { OccursAtTail(s, t, j - 1); }
          }
        }
        Some(k + 1)
  }

  /** Substring containment, `s.contains(t)`. */
  predicate Contains(s: string, t: string)
  {
    IndexOf(s, t).Some?
  }

  /** `t` is contained in `s` exactly when it occurs somewhere in it. */
  lemma ContainsOccurs(s: string, t: string)
    ensures Contains(s, t) <==> exists i: nat :: OccursAt(s, t, i)
  {
    if Contains(s, t) {
      assert OccursAt(s, t, IndexOf(s, t).value);
    }
  }

  /** A one-character string occurs exactly where that character stands. */
  lemma OccursAtChar(s: string, c: char, i: nat)
    ensures OccursAt(s, [c], i) <==> i < |s| && s[i] == c
  {
    if i < |s| {
      assert s[i..i + 1] == [s[i]];
    }
  }

  lemma ContainsChar(s: string, c: char)
    ensures Contains(s, [c]) <==> c in s
  {
    if c in s {
      var i :| 0 <= i < |s| && s[i] == c;
      OccursAtChar(s, c, i);
    }
    if Contains(s, [c]) {
      var i: nat :| OccursAt(s, [c], i);
      OccursAtChar(s, c, i);
    }
  }

  /** `pieces.joined(separator: sep)`. */
  function Join(pieces: seq<string>, sep: string): string
  {
    if pieces == [] then []
    else if |pieces| == 1 then pieces[0]
    else pieces[0] + sep + Join(pieces[1..], sep)
  }

  /** `s.components(separatedBy: sep)`: the pieces between the occurrences of
      `sep`, found left to right, empty pieces kept. */
  function Components(s: string, sep: string): (r: seq<string>)
    requires sep != []
    ensures r != []
    ensures Join(r, sep) == s
    decreases |s|
  {
    match IndexOf(s, sep)
    case None => [s]
    case Some(i) =>
      var rest := Components(s[i + |sep|..], sep);
      assert s == s[..i] + sep + s[i + |sep|..] by {
        assert s[i..i + |sep|] == sep;
      }
      assert ([s[..i]] + rest)[1..] == rest;
      [s[..i]] + rest
  }

  /** No component holds the separator. */
  lemma {:induction false} ComponentsFree(s: string, sep: string)
    requires sep != []
    ensures forall k :: 0 <= k < |Components(s, sep)| ==> !Contains(Components(s, sep)[k], sep)
    decreases |s|
  {
    match IndexOf(s, sep)
    case None =>
    case Some(i) =>
      var rest := Components(s[i + |sep|..], sep);
      ComponentsFree(s[i + |sep|..], sep);
      assert !Contains(s[..i], sep) by {
        forall j: nat | j + |sep| <= i ensures !OccursAt(s[..i], sep, j) {
          assert !OccursAt(s, sep, j);
          assert s[..i][j..j + |sep|] == s[j..j + |sep|];
        }
      }
      var r := Components(s, sep);
      assert r == [s[..i]] + rest;
      forall k | 0 <= k < |r| ensures !Contains(r[k], sep) {
        if k > 0 {
          assert r[k] == rest[k - 1];
        }
      }
  }

  /** The last component is what follows the last occurrence of `sep` (all of
      `s` when there is none). */
  lemma {:induction false} LastComponent(s: string, sep: string)
    requires sep != []
    ensures !Contains(s, sep) ==> Last(Components(s, sep)) == s
    ensures Contains(s, sep) ==> exists i: nat ::
      OccursAt(s, sep, i) && Last(Components(s, sep)) == s[i + |sep|..]
    decreases |s|
  {
    match IndexOf(s, sep)
    case None =>
    case Some(i) =>
      var tail := s[i + |sep|..];
      var rest := Components(tail, sep);
      assert Components(s, sep) == [s[..i]] + rest;
      assert Last(Components(s, sep)) == Last(rest);
      LastComponent(tail, sep);
      if Contains(tail, sep) {
        var j: nat :| OccursAt(tail, sep, j) && Last(rest) == tail[j + |sep|..];
        ShiftOccurrence(s, sep, i + |sep|, j);
      } else {
        assert Last(rest) == s[i + |sep|..];
      }
  }

  lemma ShiftOccurrence(s: string, t: string, d: nat, j: nat)
    requires d <= |s| && OccursAt(s[d..], t, j)
    ensures OccursAt(s, t, d + j) && s[d..][j + |t|..] == s[d + j + |t|..]
  {
    assert s[d..][j..j + |t|] == s[d + j..d + j + |t|];
  }

  /** With no separator in `p`, the first piece of `p + sep-char + t` is `p`. */
  lemma ComponentsAtFirstChar(p: string, c: char, t: string)
    requires c !in p
    ensures Components(p + [c] + t, [c]) == [p] + Components(t, [c])
  {
    var s := p + [c] + t;
    forall j: nat ensures OccursAt(s, [c], j) <==> j < |s| && s[j] == c {
      OccursAtChar(s, c, j);
    }
    var r := IndexOf(s, [c]);
    assert OccursAt(s, [c], |p|);
    assert r == Some(|p|);
    assert s[..|p|] == p && s[|p| + 1..] == t;
  }

  lemma NoCharComponents(s: string, c: char)
    requires c !in s
    ensures Components(s, [c]) == [s]
  {
    if IndexOf(s, [c]).Some? {
      OccursAtChar(s, c, IndexOf(s, [c]).value);
    }
  }

  /** The inverse round trip for a one-character separator: splitting a join of
      separator-free pieces gives the pieces back. */
  lemma {:induction false} ComponentsOfJoin(pieces: seq<string>, c: char)
    requires pieces != []
    requires forall k :: 0 <= k < |pieces| ==> c !in pieces[k]
    ensures Components(Join(pieces, [c]), [c]) == pieces
    decreases |pieces|
  {
    if |pieces| == 1 {
      NoCharComponents(pieces[0], c);
    } else {
      var rest := pieces[1..];
      assert Join(pieces, [c]) == pieces[0] + [c] + Join(rest, [c]);
      ComponentsAtFirstChar(pieces[0], c, Join(rest, [c]));
      ComponentsOfJoin(rest, c);
      assert pieces == [pieces[0]] + rest;
    }
  }

  /** `s.replacingOccurrences(of: [c], with: "")`: `s` with every `c` removed. */
  function RemovingAll(s: string, c: char): (r: string)
    ensures c !in r
  {
    if s == [] then []
    else (if s[0] == c then [] else [s[0]]) + RemovingAll(s[1..], c)
  }

  /** Removal keeps every other character, and only those. */
  lemma {:induction false} RemovingAllKeeps(s: string, c: char)
    ensures forall x :: x in RemovingAll(s, c) <==> x in s && x != c
    decreases |s|
  {
    if s != [] {
      RemovingAllKeeps(s[1..], c);
      assert s == [s[0]] + s[1..];
    }
  }

  lemma {:induction false} RemovingAllAppend(a: string, b: string, c: char)
    ensures RemovingAll(a + b, c) == RemovingAll(a, c) + RemovingAll(b, c)
    decreases |a|
  {
    if a == [] {
      assert a + b == b;
    } else {
      assert (a + b)[1..] == a[1..] + b;
      RemovingAllAppend(a[1..], b, c);
    }
  }

  lemma {:induction false} RemovingAllAbsent(s: string, c: char)
    requires c !in s
    ensures RemovingAll(s, c) == s
    decreases |s|
  {
    if s != [] {
      RemovingAllAbsent(s[1..], c);
    }
  }

  /** The concatenation of all pieces. */
  function Concat(pieces: seq<string>): string
  {
    if pieces == [] then [] else pieces[0] + Concat(pieces[1..])
  }

  /** The non-empty pieces, in order. */
  function NonEmpty(pieces: seq<string>): (r: seq<string>)
    ensures forall k :: 0 <= k < |r| ==> r[k] != [] && r[k] in pieces
    ensures Concat(r) == Concat(pieces)
  {
    if pieces == [] then []
    else if pieces[0] == [] then NonEmpty(pieces[1..])
    else [pieces[0]] + NonEmpty(pieces[1..])
  }

  /** Removing the separator from a join removes exactly the separators. */
  lemma {:induction false} RemovingAllJoin(pieces: seq<string>, c: char)
    requires forall k :: 0 <= k < |pieces| ==> c !in pieces[k]
    ensures RemovingAll(Join(pieces, [c]), c) == Concat(pieces)
    decreases |pieces|
  {
    if pieces == [] {
    } else if |pieces| == 1 {
      RemovingAllAbsent(pieces[0], c);
      assert Concat(pieces) == pieces[0] + Concat([]);
    } else {
      var rest := pieces[1..];
      RemovingAllAppend(pieces[0] + [c], Join(rest, [c]), c);
      RemovingAllAppend(pieces[0], [c], c);
      RemovingAllAbsent(pieces[0], c);
      assert RemovingAll([c], c) == [];
      RemovingAllJoin(rest, c);
    }
  }

  /** `s.split(separator: c)`: the pieces between the `c`s, empty pieces
      dropped. */
  function Split(s: string, c: char): (r: seq<string>)
    ensures forall k :: 0 <= k < |r| ==> r[k] != [] && c !in r[k]
  {
    var parts := Components(s, [c]);
    assert forall k :: 0 <= k < |parts| ==> c !in parts[k] by {
      ComponentsFree(s, [c]);
      forall k | 0 <= k < |parts| ensures c !in parts[k] {
        ContainsChar(parts[k], c);
      }
    }
    NonEmpty(parts)
  }

  /** The pieces of a split, put together, are `s` without its `c`s. */
  lemma SplitConcat(s: string, c: char)
    ensures Concat(Split(s, c)) == RemovingAll(s, c)
  {
    var parts := Components(s, [c]);
    ComponentsFree(s, [c]);
    forall k | 0 <= k < |parts| ensures c !in parts[k] {
      ContainsChar(parts[k], c);
    }
    RemovingAllJoin(parts, c);
  }

  /** A split yields no piece exactly when `s` is made of `c` alone. */
  lemma SplitEmpty(s: string, c: char)
    ensures Split(s, c) == [] <==> AllChar(s, c)
  {
    var r := Split(s, c);
    SplitConcat(s, c);
    RemovingAllKeeps(s, c);
    if r != [] {
      assert Concat(r) == r[0] + Concat(r[1..]);
      assert r[0][0] in RemovingAll(s, c);
    }
    if !AllChar(s, c) {
      var k :| 0 <= k < |s| && s[k] != c;
      assert s[k] in RemovingAll(s, c);
    }
  }

  /** `s.components(separatedBy: set)` for a character set given by its
      membership predicate: pieces between set members, empty pieces kept. */
  function ComponentsWhere(s: string, inSet: char -> bool): (r: seq<string>)
    ensures r != []
  {
    if s == [] then [[]]
    else
      var rest := ComponentsWhere(s[1..], inSet);
      if inSet(s[0]) then [[]] + rest
      else [[s[0]] + rest[0]] + rest[1..]
  }

  /** The first such component is the longest prefix free of set members. */
  lemma {:induction false} FirstComponentWhere(s: string, inSet: char -> bool)
    ensures var f := ComponentsWhere(s, inSet)[0];
      f <= s && (forall k :: 0 <= k < |f| ==> !inSet(f[k])) && (|f| == |s| || inSet(s[|f|]))
    decreases |s|
  {
    if s != [] {
      FirstComponentWhere(s[1..], inSet);
    }
  }

  /** How many set members `s` starts with. */
  function LeadingCount(s: string, inSet: char -> bool): (n: nat)
    ensures n <= |s|
  {
    if s == [] || !inSet(s[0]) then 0 else 1 + LeadingCount(s[1..], inSet)
  }

  /** The leading count covers set members only, up to the first non-member. */
  lemma {:induction false} LeadingCountSpec(s: string, inSet: char -> bool)
    ensures var n := LeadingCount(s, inSet);
      (forall k :: 0 <= k < n ==> inSet(s[k])) && (n < |s| ==> !inSet(s[n]))
    decreases |s|
  {
    if s != [] && inSet(s[0]) {
      LeadingCountSpec(s[1..], inSet);
      var n := LeadingCount(s, inSet);
      forall k | 1 <= k < n ensures inSet(s[k]) {
        assert s[k] == s[1..][k - 1];
      }
    }
  }

  /** How many set members `s` ends with. */
  function TrailingCount(s: string, inSet: char -> bool): (n: nat)
    ensures n <= |s|
  {
    if s == [] || !inSet(s[|s| - 1]) then 0 else 1 + TrailingCount(s[..|s| - 1], inSet)
  }

  /** The trailing count covers set members only, back to the last non-member. */
  lemma {:induction false} TrailingCountSpec(s: string, inSet: char -> bool)
    ensures var n := TrailingCount(s, inSet);
      (forall k :: |s| - n <= k < |s| ==> inSet(s[k])) && (n < |s| ==> !inSet(s[|s| - n - 1]))
    decreases |s|
  {
    if s != [] && inSet(s[|s| - 1]) {
      var init := s[..|s| - 1];
      TrailingCountSpec(init, inSet);
      var n := TrailingCount(s, inSet);
      forall k | |s| - n <= k < |s| - 1 ensures inSet(s[k]) {
        assert s[k] == init[k];
      }
      if n < |s| {
        assert s[|s| - n - 1] == init[|init| - (n - 1) - 1];
      }
    }
  }

  /** `s[i..j]` is what is left of `s` once its leading and trailing set
      members are removed: everything outside is in the set, and its ends are
      not. */
  predicate TrimBounds(s: string, inSet: char -> bool, i: nat, j: nat)
  {
    i <= j <= |s| &&
    (forall k :: 0 <= k < i ==> inSet(s[k])) &&
    (forall k :: j <= k < |s| ==> inSet(s[k])) &&
    (i < j ==> !inSet(s[i]) && !inSet(s[j - 1]))
  }

  /** `s.trimmingCharacters(in: set)`. */
  function Trim(s: string, inSet: char -> bool): string
  {
    var a := LeadingCount(s, inSet);
    if a == |s| then []
    else
      CountsMeet(s, inSet);
      s[a..|s| - TrailingCount(s, inSet)]
  }

  /** Unless `s` is made of set members only, the leading and the trailing
      members do not meet. */
  lemma CountsMeet(s: string, inSet: char -> bool)
    requires LeadingCount(s, inSet) < |s|
    ensures LeadingCount(s, inSet) < |s| - TrailingCount(s, inSet)
  {
    LeadingCountSpec(s, inSet);
    TrailingCountSpec(s, inSet);
  }

  /** Trimming removes exactly the leading and trailing set members. */
  lemma TrimSpec(s: string, inSet: char -> bool)
    ensures exists i: nat, j: nat :: TrimBounds(s, inSet, i, j) && Trim(s, inSet) == s[i..j]
    ensures var r := Trim(s, inSet); r != [] ==> !inSet(r[0]) && !inSet(r[|r| - 1])
  {
    var a := LeadingCount(s, inSet);
    LeadingCountSpec(s, inSet);
    if a == |s| {
      assert TrimBounds(s, inSet, |s|, |s|);
      assert Trim(s, inSet) == s[|s|..|s|];
    } else {
      CountsMeet(s, inSet);
      TrailingCountSpec(s, inSet);
      var j := |s| - TrailingCount(s, inSet);
      assert TrimBounds(s, inSet, a, j);
      var r := Trim(s, inSet);
      assert r[0] == s[a] && r[|r| - 1] == s[j - 1];
    }
  }

  /** There is only one way to trim a string. */
  lemma TrimBoundsUnique(s: string, inSet: char -> bool, i1: nat, j1: nat, i2: nat, j2: nat)
    requires TrimBounds(s, inSet, i1, j1) && TrimBounds(s, inSet, i2, j2)
    ensures s[i1..j1] == s[i2..j2]
  {
    if i1 < j1 && i2 < j2 {
      assert i1 == i2;
      assert j1 == j2;
    }
  }

  /** Trimming is idempotent. */
  lemma TrimIdempotent(s: string, inSet: char -> bool)
    ensures Trim(Trim(s, inSet), inSet) == Trim(s, inSet)
  {
    var r := Trim(s, inSet);
    TrimSpec(s, inSet);
    TrimSpec(r, inSet);
    var i: nat, j: nat :| TrimBounds(s, inSet, i, j) && r == s[i..j];
    assert TrimBounds(r, inSet, 0, |r|);
    var i2: nat, j2: nat :| TrimBounds(r, inSet, i2, j2) && Trim(r, inSet) == r[i2..j2];
    TrimBoundsUnique(r, inSet, i2, j2, 0, |r|);
  }

  /** Padding a string that starts and ends outside the set with set members
      is undone by trimming. */
  lemma TrimPadded(a: string, s: string, b: string, inSet: char -> bool)
    requires forall k :: 0 <= k < |a| ==> inSet(a[k])
    requires forall k :: 0 <= k < |b| ==> inSet(b[k])
    requires s != [] ==> !inSet(s[0]) && !inSet(s[|s| - 1])
    ensures Trim(a + s + b, inSet) == s
  {
    var w := a + s + b;
    assert s == w[|a|..|a| + |s|];
    assert TrimBounds(w, inSet, |a|, |a| + |s|) by {
      forall k | |a| + |s| <= k < |w| ensures inSet(w[k]) {
        assert w[k] == b[k - |a| - |s|];
      }
    }
    TrimSpec(w, inSet);
    var i: nat, j: nat :| TrimBounds(w, inSet, i, j) && Trim(w, inSet) == w[i..j];
    TrimBoundsUnique(w, inSet, i, j, |a|, |a| + |s|);
  }

  /** The first `c` of a string that holds one. */
  lemma FirstChar(s: string, c: char) returns (m: nat)
    requires c in s
    ensures m < |s| && s[m] == c && c !in s[..m]
    ensures s == s[..m] + [c] + s[m + 1..]
  {
    ContainsChar(s, c);
    m := IndexOf(s, [c]).value;
    OccursAtChar(s, c, m);
    forall j: nat | j < m ensures s[..m][j] != c {
      OccursAtChar(s, c, j);
    }
  }

  lemma SplitStep(p: string, c: char, t: string)
    requires c !in p
    ensures Split(p + [c] + t, c) == (if p == [] then [] else [p]) + Split(t, c)
  {
    ComponentsAtFirstChar(p, c, t);
    var parts := [p] + Components(t, [c]);
    assert parts[1..] == Components(t, [c]);
  }

  lemma SplitNoSep(s: string, c: char)
    requires c !in s
    ensures Split(s, c) == if s == [] then [] else [s]
  {
    NoCharComponents(s, c);
    assert [s][1..] == [];
  }

  /** `s[i..j]` is a maximal non-empty run of characters other than `c`. */
  predicate IsRun(s: string, c: char, i: nat, j: nat)
  {
    i < j <= |s| && (forall k :: i <= k < j ==> s[k] != c) &&
    (i == 0 || s[i - 1] == c) && (j == |s| || s[j] == c)
  }

  lemma ShiftRun(p: string, c: char, t: string, i: nat, j: nat)
    requires c !in p && IsRun(t, c, i, j)
    ensures IsRun(p + [c] + t, c, |p| + 1 + i, |p| + 1 + j)
    ensures (p + [c] + t)[|p| + 1 + i..|p| + 1 + j] == t[i..j]
  {
    var s := p + [c] + t;
    forall k | |p| + 1 + i <= k < |p| + 1 + j ensures s[k] != c {
      assert s[k] == t[k - |p| - 1];
    }
  }

  /** `s[i..j]` is the first maximal run of non-separators in `s`. */
  predicate IsFirstRun(s: string, c: char, i: nat, j: nat)
  {
    IsRun(s, c, i, j) && forall k :: 0 <= k < i ==> s[k] == c
  }

  /** `s[i..j]` is the last maximal run of non-separators in `s`. */
  predicate IsLastRun(s: string, c: char, i: nat, j: nat)
  {
    IsRun(s, c, i, j) && forall k :: j <= k < |s| ==> s[k] == c
  }

  lemma FirstRunAfterSeparators(p: string, c: char, t: string, i: nat, j: nat)
    requires p == [] && IsFirstRun(t, c, i, j)
    ensures IsFirstRun(p + [c] + t, c, |p| + 1 + i, |p| + 1 + j)
    ensures (p + [c] + t)[|p| + 1 + i..|p| + 1 + j] == t[i..j]
  {
    ShiftRun(p, c, t, i, j);
    var s := p + [c] + t;
    forall k | 0 <= k < |p| + 1 + i ensures s[k] == c {
      if k > 0 { assert s[k] == t[k - 1]; }
    }
  }

  lemma LastRunBeforeSeparators(p: string, c: char, t: string, i: nat, j: nat)
    requires c !in p && IsLastRun(t, c, i, j)
    ensures IsLastRun(p + [c] + t, c, |p| + 1 + i, |p| + 1 + j)
    ensures (p + [c] + t)[|p| + 1 + i..|p| + 1 + j] == t[i..j]
  {
    ShiftRun(p, c, t, i, j);
    var s := p + [c] + t;
    forall k | |p| + 1 + j <= k < |s| ensures s[k] == c {
      assert s[k] == t[k - |p| - 1];
    }
  }

  lemma WholeRun(s: string, c: char)
    requires c !in s && s != []
    ensures IsFirstRun(s, c, 0, |s|) && IsLastRun(s, c, 0, |s|) && s[0..|s|] == s
  {
  }

  lemma LeadingRun(p: string, c: char, t: string)
    requires c !in p && p != []
    ensures IsFirstRun(p + [c] + t, c, 0, |p|) && (p + [c] + t)[0..|p|] == p
  {
  }

  lemma TrailingRun(p: string, c: char, t: string)
    requires c !in p && p != [] && forall k :: 0 <= k < |t| ==> t[k] == c
    ensures IsLastRun(p + [c] + t, c, 0, |p|) && (p + [c] + t)[0..|p|] == p
  {
    var s := p + [c] + t;
    forall k | |p| < k < |s| ensures s[k] == c {
      assert s[k] == t[k - |p| - 1];
    }
  }

  /** The first piece of a split is the first maximal run of non-separators. */
  lemma {:induction false} FirstPiece(s: string, c: char)
    requires Split(s, c) != []
    ensures exists i: nat, j: nat :: IsFirstRun(s, c, i, j) && Split(s, c)[0] == s[i..j]
    decreases |s|
  {
    if c !in s {
      SplitNoSep(s, c);
      WholeRun(s, c);
    } else {
      var m := FirstChar(s, c);
      var p, t := s[..m], s[m + 1..];
      SplitStep(p, c, t);
      if p != [] {
        LeadingRun(p, c, t);
      } else {
        FirstPiece(t, c);
        var i: nat, j: nat :| IsFirstRun(t, c, i, j) && Split(t, c)[0] == t[i..j];
        FirstRunAfterSeparators(p, c, t, i, j);
      }
    }
  }

  /** The last piece of a split is the last maximal run of non-separators. */
  lemma {:induction false} LastPiece(s: string, c: char)
    requires Split(s, c) != []
    ensures exists i: nat, j: nat :: IsLastRun(s, c, i, j) && Last(Split(s, c)) == s[i..j]
    decreases |s|
  {
    if c !in s {
      SplitNoSep(s, c);
      WholeRun(s, c);
    } else {
      var m := FirstChar(s, c);
      var p, t := s[..m], s[m + 1..];
      SplitStep(p, c, t);
      SplitEmpty(t, c);
      if Split(t, c) != [] {
        LastPiece(t, c);
        var i: nat, j: nat :| IsLastRun(t, c, i, j) && Last(Split(t, c)) == t[i..j];
        LastRunBeforeSeparators(p, c, t, i, j);
      } else {
        TrailingRun(p, c, t);
      }
    }
  }

  /** A string that lacks one of the characters of `t` does not contain `t`. */
  lemma MissingCharNotContained(s: string, t: string, x: char)
    requires x in t && x !in s
    ensures !Contains(s, t)
  {
  }

  /** A character found neither in the pieces nor in the separator is not in
      their join. */
  lemma {:induction false} JoinAvoids(pieces: seq<string>, sep: string, x: char)
    requires x !in sep && forall k :: 0 <= k < |pieces| ==> x !in pieces[k]
    ensures x !in Join(pieces, sep)
    decreases |pieces|
  {
    if |pieces| > 1 {
      JoinAvoids(pieces[1..], sep, x);
    }
  }

  /** A string holds a one-character separator exactly when it splits into more
      than one component. */
  lemma ComponentsCount(s: string, c: char)
    ensures |Components(s, [c])| == 1 <==> c !in s
  {
    ContainsChar(s, c);
    if c in s {
      var m := FirstChar(s, c);
      ComponentsAtFirstChar(s[..m], c, s[m + 1..]);
    } else {
      NoCharComponents(s, c);
    }
  }

  /** A string has at most one last run of non-separators. */
  lemma LastRunUnique(s: string, c: char, i: nat, j: nat, i': nat, j': nat)
    requires IsLastRun(s, c, i, j) && IsLastRun(s, c, i', j')
    ensures i == i' && j == j'
  {
    assert s[j - 1] != c && s[j' - 1] != c;
    assert s[i] != c && s[i'] != c;
  }

  /** Every character of `s` is `c`. */
  predicate AllChar(s: string, c: char)
  {
    forall k :: 0 <= k < |s| ==> s[k] == c
  }

  /** The join ends as its last piece does. */
  lemma {:induction false} JoinEnd(pieces: seq<string>, sep: string)
    requires pieces != [] && Last(pieces) != []
    ensures Join(pieces, sep) != [] && Last(Join(pieces, sep)) == Last(Last(pieces))
    decreases |pieces|
  {
    if |pieces| > 1 {
      JoinEnd(pieces[1..], sep);
    }
  }

  /** Joining a longer list puts the separator after each leading piece. */
  lemma JoinCons(p: string, pieces: seq<string>, sep: string)
    requires pieces != []
    ensures Join([p] + pieces, sep) == p + sep + Join(pieces, sep)
  {
    assert ([p] + pieces)[1..] == pieces;
  }
}
