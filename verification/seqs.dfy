/** Sequence facts used by the snoc-style inductions. */
module Seqs {

  /** A non-empty sequence is its prefix followed by its last element. Kept
      as a lemma so that the equality is proved away from the (expensive)
      context of the induction that needs it. */
  lemma SnocLast<T>(s: seq<T>)
    requires |s| > 0
    ensures s[..|s| - 1] + [s[|s| - 1]] == s
  {
  }

  /** Replacing the last element is cutting it off and appending the new one. */
  lemma UpdateLast<T>(s: seq<T>, x: T)
    requires |s| > 0
    ensures s[|s| - 1 := x] == s[..|s| - 1] + [x]
  {
  }

  /** Dropping the last element of a concatenation with a non-empty tail
      drops it from the tail. */
  lemma DropLastOfConcat<T>(p: seq<T>, u: seq<T>)
    requires |u| > 0
    ensures (p + u)[..|p| + |u| - 1] == p + u[..|u| - 1]
    ensures (p + u)[|p| + |u| - 1] == u[|u| - 1]
  {
  }

  /** Appending one element and cutting it off again gives the prefix back. */
  lemma SnocPrefix<T>(p: seq<T>, x: T)
    ensures (p + [x])[..|p|] == p
    ensures (p + [x])[|p|] == x
  {
  }
}
