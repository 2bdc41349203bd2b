/** Order-preservation between sequences. */
module Seqs {

  /** `a` is `b` with some elements left out, the rest in their original order. */
  predicate IsSubsequence<T(==)>(a: seq<T>, b: seq<T>)
    decreases |b|
  {
    a == [] ||
      (b != [] &&
        ((a[|a| - 1] == b[|b| - 1] && IsSubsequence(a[..|a| - 1], b[..|b| - 1])) || IsSubsequence(a, b[..|b| - 1])))
  }

  /** Leaving out or keeping the last element of `b` keeps a subsequence of the rest a subsequence. */
  lemma SubsequenceSnoc<T>(a: seq<T>, b: seq<T>)
    requires b != [] && IsSubsequence(a, b[..|b| - 1])
    ensures IsSubsequence(a, b)
    ensures IsSubsequence(a + [b[|b| - 1]], b)
  {
    assert (a + [b[|b| - 1]])[..|a|] == a;
  }
}
