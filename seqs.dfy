/** Order-preserving subsequences, the shape of every filter in the detector. */
module Seqs {

  /** xs is ys with some elements deleted and the rest kept in order. */
  predicate IsSubsequence<T(==)>(xs: seq<T>, ys: seq<T>)
    decreases |ys|
  {
    xs == [] ||
    (ys != [] &&
      ((xs[|xs| - 1] == ys[|ys| - 1] && IsSubsequence(xs[..|xs| - 1], ys[..|ys| - 1]))
       || IsSubsequence(xs, ys[..|ys| - 1])))
  }

  /** Appending to the longer sequence keeps a subsequence one; appending the
      same element to both does too. */
  lemma SubsequenceAppend<T>(xs: seq<T>, ys: seq<T>, y: T)
    requires IsSubsequence(xs, ys)
    ensures IsSubsequence(xs, ys + [y])
    ensures IsSubsequence(xs + [y], ys + [y])
  {
    assert (ys + [y])[..|ys|] == ys;
    assert (xs + [y])[..|xs|] == xs;
  }

  /** A subsequence is no longer than the sequence and holds only its elements. */
  lemma {:induction false} SubsequenceMembers<T>(xs: seq<T>, ys: seq<T>)
    requires IsSubsequence(xs, ys)
    ensures |xs| <= |ys|
    ensures forall x :: x in xs ==> x in ys
    decreases |ys|
  {
    if xs != [] {
      var ys' := ys[..|ys| - 1];
      assert forall y :: y in ys' ==> y in ys;
      if xs[|xs| - 1] == ys[|ys| - 1] && IsSubsequence(xs[..|xs| - 1], ys') {
        SubsequenceMembers(xs[..|xs| - 1], ys');
        assert xs == xs[..|xs| - 1] + [ys[|ys| - 1]];
      } else {
        SubsequenceMembers(xs, ys');
      }
    }
  }
}
