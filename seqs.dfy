/**
 * Regrouping of sequence concatenations, stated over plain sequence
 * variables so that the proofs using them need no extensionality reasoning.
 */
module Seqs {

  /** Regroups `x + (y + z)`, where `yz` names `y + z`. */
  lemma Regroup<T>(x: seq<T>, y: seq<T>, z: seq<T>, yz: seq<T>)
    requires yz == y + z
    ensures x + yz == (x + y) + z
  {
  }

  lemma Associative<T>(a: seq<T>, b: seq<T>, c: seq<T>)
    ensures a + (b + c) == (a + b) + c
  {
  }

  lemma RightUnit<T>(a: seq<T>)
    ensures a + [] == a
  {
  }
}
