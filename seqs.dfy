/**
 * Facts about taking prefixes of sequences, proved once here so that the
 * proofs about encoding, with many facts in scope, can use them as plain
 * equations.
 */
module Seqs {

  /** The prefix of length `n + 1` is the prefix of length `n` and one more element. */
  lemma TakeSnoc<T>(s: seq<T>, n: nat)
    requires n < |s|
    ensures s[..n + 1] == s[..n] + [s[n]]
  {
  }

  /** Taking `n` elements of a longer prefix is taking `n` elements. */
  lemma TakeTake<T>(s: seq<T>, n: nat, m: nat)
    requires n <= m <= |s|
    ensures s[..m][..n] == s[..n]
  {
  }

  /** The prefix of full length is the whole sequence. */
  lemma TakeAll<T>(s: seq<T>)
    ensures s[..|s|] == s
  {
  }

  /** Appending one element keeps the old sequence as a prefix. */
  lemma AppendPrefix<T>(s: seq<T>, x: T)
    ensures (s + [x])[..|s|] == s
  {
  }

  /** A prefix of a prefix. */
  lemma PrefixOfPrefix<T>(a: seq<T>, b: seq<T>, n: nat)
    requires n <= |a| <= |b| && b[..|a|] == a
    ensures b[..n] == a[..n]
  {
    assert b[..n] == b[..|a|][..n];
  }
}
