/** Facts about sequences used to keep the proofs small. */
module Seqs {
  /** Concatenation is associative. */
  lemma AppendAssoc<T>(a: seq<T>, b: seq<T>, c: seq<T>)
    ensures a + b + c == a + (b + c)
  {
  }

  /** A sequence that starts with `p + [a]` starts with `p`, and after `p` comes `a` and then the rest. */
  lemma PrefixStep<T>(s: seq<T>, p: seq<T>, a: T)
    requires |p| + 1 <= |s| && s[..|p| + 1] == p + [a]
    ensures s[..|p|] == p
    ensures s[|p|..] == [a] + s[|p| + 1..]
  {
    assert s[..|p|] == s[..|p| + 1][..|p|];
    assert s[|p|..] == [s[|p|]] + s[|p| + 1..];
  }

  /** The prefix of length i + 1 is the prefix of length i and then element i. */
  lemma TakeStep<T>(s: seq<T>, i: nat)
    requires i < |s|
    ensures s[..i + 1] == s[..i] + [s[i]]
  {
  }

  /** The prefix up to i followed by the slice from i to j is the prefix up to j. */
  lemma PrefixSlice<T>(s: seq<T>, i: nat, j: nat)
    requires i <= j <= |s|
    ensures s[..i] + s[i..j] == s[..j]
  {
  }

  /** A non-empty sequence is its first element followed by the rest. */
  lemma HeadTail<T>(s: seq<T>)
    requires s != []
    ensures s == [s[0]] + s[1..]
  {
  }
}
