/**
 * Order-preserving selection from a sequence, shared by the schedule filter
 * of the generator and the checkbox filter of the filter panel.
 */
module Sequences {

  /** `xs` is `ys` with some elements left out and the rest in their order. */
  ghost predicate IsSubsequence<T>(xs: seq<T>, ys: seq<T>)
  {
    if xs == [] then true
    else if ys == [] then false
    else if xs[|xs| - 1] == ys[|ys| - 1] then IsSubsequence(xs[..|xs| - 1], ys[..|ys| - 1])
    else IsSubsequence(xs, ys[..|ys| - 1])
  }

  /** Appending an element to the longer sequence keeps a subsequence one. */
  lemma {:induction false} SubsequenceOfLonger<T>(xs: seq<T>, ys: seq<T>, y: T)
    requires IsSubsequence(xs, ys)
    ensures IsSubsequence(xs, ys + [y])
    decreases |ys|, 1
  {
    if xs != [] {
      assert (ys + [y])[..|ys|] == ys;
      if xs[|xs| - 1] == y {
        SubsequenceOfPrefix(xs[..|xs| - 1], xs, ys);
      }
    }
  }

  /** Dropping the last element of a subsequence keeps it a subsequence. */
  lemma {:induction false} SubsequenceOfPrefix<T>(xs': seq<T>, xs: seq<T>, ys: seq<T>)
    requires xs != [] && xs' == xs[..|xs| - 1]
    requires IsSubsequence(xs, ys)
    ensures IsSubsequence(xs', ys)
    decreases |ys|, 0
  {
    if ys != [] && xs' != [] {
      if xs[|xs| - 1] == ys[|ys| - 1] {
        SubsequenceOfLonger(xs[..|xs| - 1], ys[..|ys| - 1], ys[|ys| - 1]);
        assert ys[..|ys| - 1] + [ys[|ys| - 1]] == ys;
      } else {
        SubsequenceOfPrefix(xs', xs, ys[..|ys| - 1]);
        SubsequenceOfLonger(xs', ys[..|ys| - 1], ys[|ys| - 1]);
        assert ys[..|ys| - 1] + [ys[|ys| - 1]] == ys;
      }
    }
  }
}
