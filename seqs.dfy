/** Small facts about sequences, stated once for every element type. */
module Seqs {
  lemma AppendAssoc<T>(a: seq<T>, b: seq<T>, c: seq<T>)
    ensures a + b + c == a + (b + c)
  {
  }

  /** The slices of a sequence in which `s[i..i + k]` was replaced by `b`. */
  lemma Splice<T>(s: seq<T>, after: seq<T>, i: nat, k: nat, b: T)
    requires 1 <= k && i + k <= |s|
    requires after == s[..i] + [b] + s[i + k..]
    ensures i < |after| && after[..i + 1] == s[..i] + [b] && after[i + 1..] == s[i + k..]
  {
    assert after[..i + 1] == s[..i] + [b];
  }

  /** The pieces of the suffix `s[i..]` cut at `k`. */
  lemma SuffixPieces<T>(s: seq<T>, i: nat, k: nat)
    requires 1 <= k && i + k <= |s|
    ensures s[i..][0] == s[i] && s[i..][..k] == s[i..i + k] && s[i..][k..] == s[i + k..]
  {
  }

  lemma DropPrefix<T>(a: seq<T>, b: seq<T>)
    ensures (a + b)[|a|..] == b
  {
  }
}
