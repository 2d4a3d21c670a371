/** Facts about sequences of slot numbers, shared by the dense key table (a
    sequence of distinct keys) and by the sort's `order` buffer (a permutation
    of the slots). */
module Permutations {

  /** No value occurs twice in `s`. */
  ghost predicate Distinct(s: seq<int>) {
    forall p, q :: 0 <= p < q < |s| ==> s[p] != s[q]
  }

  /** Every entry of `s` is a slot number below `n`. */
  ghost predicate IndicesIn(s: seq<int>, n: int) {
    forall p :: 0 <= p < |s| ==> 0 <= s[p] < n
  }

  /** `order` lists each of the slots 0 .. n-1 exactly once. */
  ghost predicate IsPermutation(order: seq<int>, n: nat) {
    && |order| == n
    && IndicesIn(order, n)
    && Distinct(order)
    && (forall v :: v in order <==> 0 <= v < n)
  }

  /** A sequence without repetitions has as many distinct elements as entries. */
  lemma {:induction false} DistinctCardinality(s: seq<int>)
    requires Distinct(s)
    ensures |set x | x in s| == |s|
  {
    if s != [] {
      var init, last := s[..|s| - 1], s[|s| - 1];
      assert Distinct(init);
      DistinctCardinality(init);
      assert last !in init;
      assert (set x | x in s) == (set x | x in init) + {last};
    }
  }
}
