/** The permutation that `sps_sort` computes in its temporary `order` buffer
    (src/sps.c:77-98): a stable insertion sort of the slots 0 .. count-1 by the
    components stored in them, as pure functions, and what it guarantees. */
module InsertionSort {
  import opened Permutations

  /** The contract of `sps_sort_func_t` on the components being sorted: the
      result's sign is negated when the arguments are swapped, and "does not
      compare greater" is transitive, so the comparator is a total preorder. */
  ghost predicate TotalPreorderOn<T>(vals: seq<T>, cmp: (T, T) -> int) {
    && (forall i, j :: SignsAgreeAt(vals, cmp, i, j))
    && (forall i, j, k :: TransitiveAt(vals, cmp, i, j, k))
  }

  /** Swapping the components at slots `i` and `j` negates the comparison. */
  ghost predicate SignsAgreeAt<T>(vals: seq<T>, cmp: (T, T) -> int, i: int, j: int) {
    0 <= i < |vals| && 0 <= j < |vals| ==> (cmp(vals[i], vals[j]) < 0 <==> cmp(vals[j], vals[i]) > 0)
  }

  /** "Does not compare greater" is transitive across slots `i`, `j`, `k`. */
  ghost predicate TransitiveAt<T>(vals: seq<T>, cmp: (T, T) -> int, i: int, j: int, k: int) {
    0 <= i < |vals| && 0 <= j < |vals| && 0 <= k < |vals| ==>
      (cmp(vals[i], vals[j]) <= 0 && cmp(vals[j], vals[k]) <= 0 ==> cmp(vals[i], vals[k]) <= 0)
  }

  /** The components at the slots listed in `s` are in non-decreasing order. */
  ghost predicate SortedBy<T>(vals: seq<T>, cmp: (T, T) -> int, s: seq<int>) {
    forall p, q :: 0 <= p < q < |s| ==> NotAbove(vals, cmp, s[p], s[q])
  }

  /** Slots whose components compare equal are listed in their original order. */
  ghost predicate StableBy<T>(vals: seq<T>, cmp: (T, T) -> int, s: seq<int>) {
    forall p, q :: 0 <= p < q < |s| && SameRank(vals, cmp, s[p], s[q]) ==> s[p] < s[q]
  }

  /** Whether the components in slots `a` and `b` compare equal. */
  ghost predicate SameRank<T>(vals: seq<T>, cmp: (T, T) -> int, a: int, b: int) {
    0 <= a < |vals| && 0 <= b < |vals| && cmp(vals[a], vals[b]) == 0
  }

  /** Whether the component in slot `a` does not compare greater than the
      one in slot `b`: the test that ends the inner loop (src/sps.c:91). */
  predicate NotAbove<T>(vals: seq<T>, cmp: (T, T) -> int, a: int, b: int) {
    0 <= a < |vals| && 0 <= b < |vals| && cmp(vals[a], vals[b]) <= 0
  }

  /** One pass of the inner loop: slot `x` is inserted into `s` scanning from
      the back, shifting every slot whose component compares greater than
      `x`'s and stopping at the first one that does not. */
  function Insert<T>(vals: seq<T>, cmp: (T, T) -> int, s: seq<int>, x: int): (r: seq<int>)
    ensures |r| == |s| + 1
    decreases |s|
  {
    if s == [] then [x]
    else if NotAbove(vals, cmp, s[|s| - 1], x) then s + [x]
    else Insert(vals, cmp, s[..|s| - 1], x) + [s[|s| - 1]]
  }

  /** Where the scan of the inner loop stops: at the front, or at the last
      entry `j` that does not compare greater than the inserted slot, every
      later entry comparing greater. The slot goes right after `j`. */
  lemma {:induction false} InsertAt<T>(vals: seq<T>, cmp: (T, T) -> int, s: seq<int>, j: int, x: int)
    requires -1 <= j < |s| && (j >= 0 ==> NotAbove(vals, cmp, s[j], x))
    requires forall t :: j < t < |s| ==> !NotAbove(vals, cmp, s[t], x)
    ensures Insert(vals, cmp, s, x) == s[..j + 1] + [x] + s[j + 1..]
    decreases |s|
  {
    if j + 1 < |s| {
      var init, last := s[..|s| - 1], s[|s| - 1];
      assert !NotAbove(vals, cmp, last, x);
      assert Insert(vals, cmp, s, x) == Insert(vals, cmp, init, x) + [last];
      InsertAt(vals, cmp, init, j, x);
      assert init[..j + 1] == s[..j + 1];
      assert init[j + 1..] + [last] == s[j + 1..];
    } else if s == [] {
      assert Insert(vals, cmp, s, x) == [x];
    } else {
      assert Insert(vals, cmp, s, x) == s + [x];
      assert s[..j + 1] == s && s[j + 1..] == [];
    }
  }

  /** Insertion adds the new slot and keeps every listed one. */
  lemma {:induction false} InsertMembers<T>(vals: seq<T>, cmp: (T, T) -> int, s: seq<int>, x: int)
    ensures forall y :: y in Insert(vals, cmp, s, x) <==> y in s || y == x
    decreases |s|
  {
    if s != [] && !NotAbove(vals, cmp, s[|s| - 1], x) {
      var init := s[..|s| - 1];
      InsertMembers(vals, cmp, init, x);
      assert s == init + [s[|s| - 1]];
    }
  }

  /** The first `n` entries of `order` once the outer loop has inserted the
      slots 0 .. n-1 (src/sps.c:78-98). */
  function InsertionOrder<T>(vals: seq<T>, cmp: (T, T) -> int, n: nat): (r: seq<int>)
    ensures |r| == n
  {
    if n == 0 then [] else Insert(vals, cmp, InsertionOrder(vals, cmp, n - 1), n - 1)
  }

  /** Inserting a new slot into a list without repetitions gives one. */
  lemma {:induction false} InsertKeepsDistinct<T>(vals: seq<T>, cmp: (T, T) -> int, s: seq<int>, x: int)
    requires Distinct(s) && x !in s
    ensures Distinct(Insert(vals, cmp, s, x))
    decreases |s|
  {
    if s != [] && !NotAbove(vals, cmp, s[|s| - 1], x) {
      var init, last := s[..|s| - 1], s[|s| - 1];
      assert Distinct(init);
      InsertKeepsDistinct(vals, cmp, init, x);
      var front := Insert(vals, cmp, init, x);
      InsertMembers(vals, cmp, init, x);
      assert last !in init;
      assert last !in front;
    }
  }

  /** Inserting into a sorted list keeps it sorted, given a total preorder. */
  lemma {:induction false} InsertKeepsSorted<T>(vals: seq<T>, cmp: (T, T) -> int, s: seq<int>, x: int)
    requires IndicesIn(s, |vals|) && 0 <= x < |vals|
    requires TotalPreorderOn(vals, cmp) && SortedBy(vals, cmp, s)
    ensures SortedBy(vals, cmp, Insert(vals, cmp, s, x))
    decreases |s|
  {
    if s != [] {
      var init, last := s[..|s| - 1], s[|s| - 1];
      var r := Insert(vals, cmp, s, x);
      if NotAbove(vals, cmp, last, x) {
        assert r == s + [x];
        forall p | 0 <= p < |s| ensures NotAbove(vals, cmp, s[p], x) {
          if p < |s| - 1 {
            Transitive(vals, cmp, s[p], last, x);
          }
        }
      } else {
        assert SortedBy(vals, cmp, init);
        InsertKeepsSorted(vals, cmp, init, x);
        var front := Insert(vals, cmp, init, x);
        InsertMembers(vals, cmp, init, x);
        assert r == front + [last];
        forall p | 0 <= p < |front| ensures NotAbove(vals, cmp, front[p], last) {
          if front[p] == x {
            assert SignsAgreeAt(vals, cmp, last, x);
          } else {
            assert front[p] in init;
            var p' :| 0 <= p' < |init| && init[p'] == front[p];
            assert s[p'] == front[p];
          }
        }
      }
    }
  }

  /** The transitivity half of TotalPreorderOn, for three given slots. */
  lemma Transitive<T>(vals: seq<T>, cmp: (T, T) -> int, i: int, j: int, k: int)
    requires TotalPreorderOn(vals, cmp)
    requires 0 <= i < |vals| && 0 <= j < |vals| && 0 <= k < |vals|
    requires cmp(vals[i], vals[j]) <= 0 && cmp(vals[j], vals[k]) <= 0
    ensures cmp(vals[i], vals[k]) <= 0
  {
    assert TransitiveAt(vals, cmp, i, j, k);
  }

  /** Inserting a slot numbered above every listed one keeps equal components
      in their original order: the inner loop stops on `compare <= 0`, so the
      new slot never passes one that compares equal. */
  lemma {:induction false} InsertKeepsStable<T>(vals: seq<T>, cmp: (T, T) -> int, s: seq<int>, x: int)
    requires IndicesIn(s, |vals|) && 0 <= x < |vals|
    requires TotalPreorderOn(vals, cmp) && StableBy(vals, cmp, s)
    requires forall y :: y in s ==> y < x
    ensures StableBy(vals, cmp, Insert(vals, cmp, s, x))
    decreases |s|
  {
    if s == [] {
    } else {
      var init, last := s[..|s| - 1], s[|s| - 1];
      var r := Insert(vals, cmp, s, x);
      if NotAbove(vals, cmp, last, x) {
        assert r == s + [x];
        forall p | 0 <= p < |s| ensures s[p] < x {
          assert s[p] in s;
        }
      } else {
        assert StableBy(vals, cmp, init);
        assert forall y :: y in init ==> y in s;
        InsertKeepsStable(vals, cmp, init, x);
        var front := Insert(vals, cmp, init, x);
        InsertMembers(vals, cmp, init, x);
        assert r == front + [last];
        forall p | 0 <= p < |front| ensures SameRank(vals, cmp, front[p], last) ==> front[p] < last {
          if front[p] == x {
            assert SignsAgreeAt(vals, cmp, x, last);
          } else {
            assert front[p] in init;
            var p' :| 0 <= p' < |init| && init[p'] == front[p];
            assert s[p'] == front[p];
          }
        }
      }
    }
  }

  /** The order buffer lists each slot 0 .. n-1 exactly once. */
  lemma {:induction false} InsertionOrderIsPermutation<T>(vals: seq<T>, cmp: (T, T) -> int, n: nat)
    ensures IsPermutation(InsertionOrder(vals, cmp, n), n)
  {
    if n > 0 {
      InsertionOrderIsPermutation(vals, cmp, n - 1);
      InsertKeepsPermutation(vals, cmp, InsertionOrder(vals, cmp, n - 1), n - 1);
    }
  }

  /** One pass of the outer loop: inserting slot `m` into a list of the slots
      0 .. m-1 gives a list of the slots 0 .. m. */
  lemma InsertKeepsPermutation<T>(vals: seq<T>, cmp: (T, T) -> int, prev: seq<int>, m: nat)
    requires IsPermutation(prev, m)
    ensures IsPermutation(Insert(vals, cmp, prev, m), m + 1)
  {
    InsertKeepsDistinct(vals, cmp, prev, m);
    InsertMembers(vals, cmp, prev, m);
    var r := Insert(vals, cmp, prev, m);
    forall p | 0 <= p < |r| ensures 0 <= r[p] < m + 1 {
      assert r[p] in r;
    }
  }

  /** Every entry of the order for `n` slots is a slot below `n`, and so
      below any bound at least `n`. */
  lemma InsertionOrderBelow<T>(vals: seq<T>, cmp: (T, T) -> int, n: nat, bound: int)
    requires n <= bound
    ensures IndicesIn(InsertionOrder(vals, cmp, n), bound)
    ensures forall y :: y in InsertionOrder(vals, cmp, n) ==> 0 <= y < n
  {
    InsertionOrderIsPermutation(vals, cmp, n);
  }

  /** Under a total preorder the order buffer lists the slots by
      non-decreasing component. */
  lemma {:induction false} InsertionOrderIsSorted<T>(vals: seq<T>, cmp: (T, T) -> int, n: nat)
    requires n <= |vals| && TotalPreorderOn(vals, cmp)
    ensures SortedBy(vals, cmp, InsertionOrder(vals, cmp, n))
  {
    if n > 0 {
      var prev := InsertionOrder(vals, cmp, n - 1);
      InsertionOrderIsSorted(vals, cmp, n - 1);
      InsertionOrderBelow(vals, cmp, n - 1, |vals|);
      InsertKeepsSorted(vals, cmp, prev, n - 1);
    }
  }

  /** Under a total preorder the sort is stable: slots whose components compare
      equal stay in their original relative order. */
  lemma {:induction false} InsertionOrderIsStable<T>(vals: seq<T>, cmp: (T, T) -> int, n: nat)
    requires n <= |vals| && TotalPreorderOn(vals, cmp)
    ensures StableBy(vals, cmp, InsertionOrder(vals, cmp, n))
  {
    if n > 0 {
      var prev := InsertionOrder(vals, cmp, n - 1);
      InsertionOrderIsStable(vals, cmp, n - 1);
      InsertionOrderBelow(vals, cmp, n - 1, |vals|);
      InsertKeepsStable(vals, cmp, prev, n - 1);
    }
  }

  /** Laying out the components in the order of a sorted slot list gives
      components in non-decreasing order. */
  lemma SortedPermuted<T>(vals: seq<T>, cmp: (T, T) -> int, perm: seq<int>, out: seq<T>)
    requires |out| == |perm| && IndicesIn(perm, |vals|)
    requires forall p :: 0 <= p < |perm| ==> out[p] == vals[perm[p]]
    requires SortedBy(vals, cmp, perm)
    ensures forall p, q :: 0 <= p < q < |out| ==> cmp(out[p], out[q]) <= 0
  {
    forall p, q | 0 <= p < q < |out| ensures cmp(out[p], out[q]) <= 0 {
      assert NotAbove(vals, cmp, perm[p], perm[q]);
    }
  }

  /** Laying out the components in the order of a stable slot list keeps
      components that compare equal in the order of their original slots. */
  lemma StablePermuted<T>(vals: seq<T>, cmp: (T, T) -> int, perm: seq<int>, out: seq<T>)
    requires |out| == |perm| && IndicesIn(perm, |vals|)
    requires forall p :: 0 <= p < |perm| ==> out[p] == vals[perm[p]]
    requires StableBy(vals, cmp, perm)
    ensures forall p, q :: 0 <= p < q < |out| && cmp(out[p], out[q]) == 0 ==> perm[p] < perm[q]
  {
    forall p, q | 0 <= p < q < |out| && cmp(out[p], out[q]) == 0 ensures perm[p] < perm[q] {
      assert SameRank(vals, cmp, perm[p], perm[q]);
    }
  }

  /** The components laid out in insertion order: under a total preorder
      they are in non-decreasing order, and components that compare equal
      come from slots in their original order. */
  lemma InsertionSortOutcome<T>(vals: seq<T>, cmp: (T, T) -> int, out: seq<T>)
    requires |out| == |vals|
    requires forall p :: 0 <= p < |out| ==> 0 <= InsertionOrder(vals, cmp, |vals|)[p] < |vals|
    requires forall p :: 0 <= p < |out| ==> out[p] == vals[InsertionOrder(vals, cmp, |vals|)[p]]
    ensures TotalPreorderOn(vals, cmp) ==>
      forall p, q :: 0 <= p < q < |out| ==> cmp(out[p], out[q]) <= 0
    ensures TotalPreorderOn(vals, cmp) ==>
      var order := InsertionOrder(vals, cmp, |vals|);
      forall p, q :: 0 <= p < q < |out| && cmp(out[p], out[q]) == 0 ==> order[p] < order[q]
  {
    if TotalPreorderOn(vals, cmp) {
      var order := InsertionOrder(vals, cmp, |vals|);
      InsertionOrderIsPermutation(vals, cmp, |vals|);
      InsertionOrderIsSorted(vals, cmp, |vals|);
      InsertionOrderIsStable(vals, cmp, |vals|);
      SortedPermuted(vals, cmp, order, out);
      StablePermuted(vals, cmp, order, out);
    }
  }
}
