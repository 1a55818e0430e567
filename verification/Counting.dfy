/** Sizes of sets of sequence elements. */
module Counting {

  /** A set with the elements of a duplicate-free sequence is as large as the sequence is long. */
  lemma {:induction false} CountDistinct<T>(xs: seq<T>, s: set<T>)
    requires forall x :: x in s <==> x in xs
    requires forall i, j :: 0 <= i < j < |xs| ==> xs[i] != xs[j]
    ensures |s| == |xs|
    decreases |xs|
  {
    if xs != [] {
      var last := xs[|xs| - 1];
      CountDistinct(xs[..|xs| - 1], s - {last});
    } else {
      assert s == {};
    }
  }
}
