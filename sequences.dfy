/**
 * Slicing identities on sequences, used to follow a key history one key at
 * a time.
 */
module Sequences {

  /** A non-empty sequence is its prefix plus its last element. */
  lemma SplitLast<T>(s: seq<T>)
    requires |s| > 0
    ensures s == s[..|s| - 1] + [s[|s| - 1]]
  {
  }

  /** A sequence is its first i elements followed by the rest. */
  lemma SplitAt<T>(s: seq<T>, i: nat)
    requires i <= |s|
    ensures s == s[..i] + s[i..]
  {
  }

  /** Slicing a sequence extended by one element, at c elements from its end. */
  lemma SnocSlices<T>(p: seq<T>, k: T, c: nat)
    requires c <= |p|
    ensures (p + [k])[|p| - c..] == p[|p| - c..] + [k]
    ensures (p + [k])[..|p| - c] == p[..|p| - c]
  {
  }

  /** A prefix one element longer is the shorter prefix plus that element. */
  lemma PrefixSnoc<T>(s: seq<T>, c: nat)
    requires c < |s|
    ensures s[..c + 1] == s[..c] + [s[c]]
  {
  }

  /** a followed by the first c elements of s, split before the last of them. */
  lemma AppendPrefixSnoc<T>(a: seq<T>, s: seq<T>, c: nat)
    requires 0 < c <= |s|
    ensures a + s[..c] == (a + s[..c - 1]) + [s[c - 1]]
  {
  }
}
