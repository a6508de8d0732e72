// Small facts about sequence concatenation and slicing, stated once so that
// the proofs about buffers and decoded output can cite them by name.

module Seqs {
  /** What follows a prefix. */
  lemma Suffix<T>(a: seq<T>, b: seq<T>)
    ensures (a + b)[|a|..] == b
  {
  }

  lemma Associative<T>(x: seq<T>, y: seq<T>, z: seq<T>)
    ensures x + (y + z) == (x + y) + z
  {
  }

  /** A slice behind a prefix `x` is a slice of what follows `x`. */
  lemma SliceRight<T>(x: seq<T>, r: seq<T>, i: nat, j: nat)
    requires i <= j <= |r|
    ensures (x + r)[|x| + i..|x| + j] == r[i..j]
  {
  }

  lemma PrefixRight<T>(x: seq<T>, r: seq<T>, n: nat)
    requires n <= |r|
    ensures (x + r)[..|x| + n] == x + r[..n]
  {
  }

  lemma SliceOfSlice<T>(s: seq<T>, a: nat, i: nat, j: nat)
    requires a <= |s| && i <= j <= |s| - a
    ensures s[a..][i..j] == s[a + i..a + j]
  {
  }

  /** A longer prefix is the shorter one followed by the slice between them. */
  lemma Extend<T>(a: seq<T>, o: nat, k: nat)
    requires o + k <= |a|
    ensures a[..o + k] == a[..o] + a[o..o + k]
  {
  }

  /** Two sequences that agree from `o` on agree from any later position on. */
  lemma DropMore<T>(a: seq<T>, b: seq<T>, o: nat, k: nat)
    requires o + k <= |a| && |a| == |b| && a[o..] == b[o..]
    ensures a[o + k..] == b[o + k..]
  {
    assert a[o + k..] == a[o..][k..];
    assert b[o + k..] == b[o..][k..];
  }
}
