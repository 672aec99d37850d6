/** The optional value that Swift writes `T?`, and two facts about
    sequence prefixes. */
module Wrappers {

  datatype Option<+T> = None | Some(value: T)

  /** The last element of a non-empty sequence (Swift's `last!`). */
  function Last<T>(s: seq<T>): T
    requires s != []
  {
    s[|s| - 1]
  }

  /** A prefix and the rest make up the sequence. */
  lemma PrefixAndRest<T>(s: seq<T>, n: nat)
    requires n <= |s|
    ensures s[..n] + s[n..] == s
  {
  }

  /** A prefix of a prefix is a prefix. */
  lemma PrefixOfPrefix<T>(s: seq<T>, m: nat, n: nat)
    requires m <= n <= |s|
    ensures s[..n][..m] == s[..m]
  {
  }
}
