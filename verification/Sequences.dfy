/** Facts about sequences that the proofs of all programs share. */
module Sequences {

  lemma Associate<T>(a: seq<T>, b: seq<T>, c: seq<T>)
    ensures a + (b + c) == (a + b) + c
  {
  }

  lemma Regrouped<T>(a: seq<T>, b: seq<T>, c: seq<T>, d: seq<T>)
    ensures (a + b) + c + d == a + (b + c + d)
  {
  }

  lemma SliceGrows<T>(s: seq<T>, i: nat, j: nat, k: nat)
    requires i <= j < k <= |s| && k == j + 1
    ensures s[i..k] == s[i..j] + [s[j]]
  {
  }
}
