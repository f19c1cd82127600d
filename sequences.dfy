/** Facts about sequences that the CSV proofs use at several element types. */
module Sequences {
  /** A non-empty sequence is its first part followed by its last element. */
  lemma InitLast<T>(s: seq<T>)
    requires |s| >= 1
    ensures s[..|s| - 1] + [s[|s| - 1]] == s
  {
  }

  /** What a sequence does not contain, its first part does not contain either. */
  lemma InInit<T>(s: seq<T>, x: T)
    requires |s| >= 1 && x !in s
    ensures x !in s[..|s| - 1]
  {
  }

  /** Concatenation is associative. */
  lemma Assoc<T>(a: seq<T>, b: seq<T>, c: seq<T>)
    ensures a + (b + c) == (a + b) + c
  {
  }
}
