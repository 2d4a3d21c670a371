/** The unit tests of the sparse set (tests/test_sps.c) as client code: each
    test's calls, run on a new set with `int` components of size 4, with what
    the test checks stated as the scenario's postcondition. */
module SpsScenarios {
  import opened SpsTypes
  import opened Permutations
  import opened InsertionSort
  import opened SparseSets
  import opened SparseSetIterators

  /** `compare_ints` (tests/test_sps.c:118-122) on unbounded integers: it
      meets the comparator contract, negative, zero or positive as `a` is
      below, equal to or above `b`. */
  function CompareInts(a: int, b: int): (r: int)
    ensures r < 0 <==> a < b
    ensures r == 0 <==> a == b
    ensures r > 0 <==> a > b
  {
    a - b
  }

  /** Subtraction is a total preorder on any list of integers. */
  lemma CompareIntsIsTotalPreorder(vals: seq<int>)
    ensures TotalPreorderOn(vals, CompareInts)
  {
    forall i, j ensures SignsAgreeAt(vals, CompareInts, i, j) {
    }
    forall i, j, k ensures TransitiveAt(vals, CompareInts, i, j, k) {
    }
  }

  /** The loop `while ((comp = sps_iter_next(&iter, &idx)) != NULL)` of the
      tests: it collects the key and component of every step until the end,
      which are exactly those the cursor had still to visit. */
  method Drain<T(0)>(it: SparseSetIter<T>) returns (keys: seq<u16>, values: seq<T>)
    requires it.target.Allocated()
    modifies it
    ensures keys == old(it.PendingKeys()) && values == old(it.PendingComponents())
  {
    keys, values := [], [];
    ghost var start := it.index;
    ghost var stop := if start < it.target.count then it.target.count else start;
    while true
      invariant start <= it.index <= stop
      invariant keys == it.target.dense[start..it.index]
      invariant values == it.target.components[start..it.index]
      decreases stop - it.index
    {
      var step := it.Next(true);
      if step.End? {
        break;
      }
      keys := keys + [step.key];
      values := values + [it.target.components[step.slot]];
    }
  }

  /** The loops `for (i ...) sps_add(set, indices[i], &values[i])` of the
      tests: new keys, each added with its component, are appended to the live
      slots in order. */
  method AddAll<T(0)>(s: SparseSet<T>, keys: seq<u16>, vals: seq<T>)
    requires s.Valid() && |keys| == |vals| && s.count + |keys| <= MAX
    requires Distinct(keys) && forall k :: k in keys ==> k != MAX && k !in s.Contents()
    modifies s, s.sparse, s.dense, s.components
    ensures s.Valid() && s.count == old(s.count) + |keys|
    ensures s.dense[..s.count] == old(s.dense[..s.count]) + keys
    ensures s.components[..s.count] == old(s.components[..s.count]) + vals
    ensures forall k :: k in s.Contents() <==> k in old(s.Contents()) || k in keys
    ensures forall i :: 0 <= i < |keys| ==> s.Contents()[keys[i]] == vals[i]
  {
    var i := 0;
    while i < |keys|
      invariant 0 <= i <= |keys| && s.Valid() && s.count == old(s.count) + i
      invariant s.dense[..s.count] == old(s.dense[..s.count]) + keys[..i]
      invariant s.components[..s.count] == old(s.components[..s.count]) + vals[..i]
      invariant forall k :: k in s.Contents() <==> k in old(s.Contents()) || k in keys[..i]
      invariant forall j :: 0 <= j < i ==> keys[j] in s.Contents() && s.Contents()[keys[j]] == vals[j]
    {
      assert keys[i] !in keys[..i];
      var _ := s.Add(keys[i], vals[i]);
      assert keys[..i + 1] == keys[..i] + [keys[i]];
      assert vals[..i + 1] == vals[..i] + [vals[i]];
      i := i + 1;
    }
    assert keys[..i] == keys && vals[..i] == vals;
  }

  /** A new set for components of size 4 (`sizeof(int)`). */
  method NewIntSet() returns (s: SparseSet<int>)
    ensures fresh(s) && fresh(s.sparse) && fresh(s.dense) && fresh(s.components)
    ensures s.Valid() && s.count == 0 && s.Contents() == map[]
    ensures forall k :: 0 <= k < MAX ==> s.sparse[k] == MAX && s.dense[k] == MAX
  {
    var created := New<int>(4);
    s := created;
  }

  /** test_sps_add (tests/test_sps.c:17-22): the first add lands in slot 0
      and holds the component given. */
  method AddScenario() returns (placed: Result<u16>, stored: int)
    ensures placed == Ok(0) && stored == 10
  {
    var s := NewIntSet();
    placed := s.Add(5, 10);
    stored := s.components[placed.value];
  }

  /** test_sps_get (tests/test_sps.c:24-35): a key added is found with its
      component; a key never added is not. */
  method GetScenario() returns (found: Lookup, value: int, missing: Lookup)
    ensures found.Found? && value == 42 && missing == Absent
  {
    var s := NewIntSet();
    var _ := s.Add(7, 42);
    found := s.Get(7);
    value := s.components[found.slot];
    missing := s.Get(8);
  }

  /** test_sps_remove (tests/test_sps.c:37-53): after removing the first of
      two keys, it is gone and the other keeps its component. */
  method RemoveScenario() returns (gone: Lookup, kept: int)
    ensures gone == Absent && kept == 20
  {
    var s := NewIntSet();
    var _ := s.Add(5, 10);
    var _ := s.Add(8, 20);
    var _ := s.Remove(5);
    gone := s.Get(5);
    var other := s.Get(8);
    kept := s.components[other.slot];
  }

  /** test_sps_has (tests/test_sps.c:55-61). */
  method HasScenario() returns (present: bool, absent: bool)
    ensures present && !absent
  {
    var s := NewIntSet();
    var _ := s.Add(3, 30);
    present := s.Has(3);
    absent := s.Has(4);
  }

  /** test_sps_iter (tests/test_sps.c:63-95): a pass over three keys visits
      each once, with its component, in the order they were added. */
  method IterScenario() returns (keys: seq<int>, values: seq<int>)
    ensures keys == [10, 20, 30] && values == [100, 200, 300]
  {
    var s := NewIntSet();
    AddAll(s, [10, 20, 30], [100, 200, 300]);
    var it := new SparseSetIter(s);
    keys, values := Drain(it);
  }

  /** test_sps_full (tests/test_sps.c:97-115): the keys 0 .. 99 added with
      their own number as component are all found with it. */
  method FullScenario() returns (values: seq<int>)
    ensures values == seq(100, i => i)
  {
    var s := NewIntSet();
    var i := 0;
    while i < 100
      modifies s, s.sparse, s.dense, s.components
      invariant 0 <= i <= 100 && s.Valid() && s.count == i
      invariant forall j :: j in s.Contents() <==> 0 <= j < i
      invariant forall j :: 0 <= j < i ==> s.Contents()[j] == j
    {
      var _ := s.Add(i, i);
      i := i + 1;
    }
    values := [];
    i := 0;
    while i < 100
      invariant 0 <= i <= 100 && values == seq(i, j => j)
    {
      var r := s.Get(i);
      values := values + [s.components[r.slot]];
      i := i + 1;
    }
  }

  /** test_sps_sort (tests/test_sps.c:124-160): after sorting, a pass visits
      all five keys with components in non-decreasing order, and each key
      still has the component it was added with. */
  method SortScenario() returns (keys: seq<int>, values: seq<int>)
    ensures |keys| == 5 && |values| == 5
    ensures forall p, q :: 0 <= p < q < 5 ==> values[p] <= values[q]
    ensures forall p :: 0 <= p < 5 ==>
      keys[p] in Added() && values[p] == Added()[keys[p]]
  {
    var s := SortedSet();
    var it := new SparseSetIter(s);
    keys, values := Drain(it);
    forall p | 0 <= p < 5 ensures keys[p] in Added() && values[p] == Added()[keys[p]] {
      assert keys[p] == s.dense[p] && s.sparse[s.dense[p]] == p;
    }
  }

  /** The set test_sps_sort builds before it sorts. */
  method SortSet() returns (s: SparseSet<int>)
    ensures fresh(s) && fresh(s.sparse) && fresh(s.dense) && fresh(s.components)
    ensures s.Valid() && s.count == 5 && s.Contents() == Added()
  {
    s := NewIntSet();
    AddAll(s, [5, 6, 7, 8, 9], [30, 10, 20, 15, 25]);
  }

  /** That set sorted by `compare_ints`. */
  method SortedSet() returns (s: SparseSet<int>)
    ensures fresh(s) && s.Valid() && s.count == 5 && s.Contents() == Added()
    ensures forall p, q :: 0 <= p < q < s.count ==> s.components[p] <= s.components[q]
  {
    s := SortSet();
    CompareIntsIsTotalPreorder(s.components[..s.count]);
    s.Sort(CompareInts);
  }

  /** The keys and components that test_sps_sort adds. */
  function Added(): map<int, int> {
    map[5 := 30, 6 := 10, 7 := 20, 8 := 15, 9 := 25]
  }

  /** test_sps_iter_with_modifications (tests/test_sps.c:163-186): a key
      removed after the iterator is created but before its first step is not
      visited; the last key, moved into the freed slot, is visited in its
      place, and the pass sees three keys. */
  method IterWithModificationsScenario() returns (keys: seq<int>)
    ensures keys == [1, 4, 3]
  {
    var s := FourKeySet();
    var it := new SparseSetIter(s);
    var _ := s.Remove(2);
    assert s.dense[..s.count] == [1, 4, 3];
    var values;
    keys, values := Drain(it);
  }

  /** The set test_sps_iter_with_modifications builds: keys 1 .. 4 in
      slots 0 .. 3. */
  method FourKeySet() returns (s: SparseSet<int>)
    ensures fresh(s) && fresh(s.sparse) && fresh(s.dense) && fresh(s.components)
    ensures s.Valid() && s.count == 4 && s.dense[..s.count] == [1, 2, 3, 4]
    ensures s.sparse[2] == 1
  {
    s := NewIntSet();
    AddAll(s, [1, 2, 3, 4], [100, 200, 300, 400]);
    assert s.dense[1] == 2;
  }

  /** test_sps_edge_cases (tests/test_sps.c:189-209), without the NULL
      arguments: the sentinel key and a second add of a key are refused,
      removing an absent key reports it, and it is not found. */
  method EdgeCasesScenario() returns (sentinel: Result<u16>, twice: Result<u16>, removal: Outcome, lookup: Lookup)
    ensures sentinel == Err(InvalidArgument) && twice == Err(AlreadyPresent)
    ensures removal == Fail(NotPresent) && lookup == Absent
  {
    var s := NewIntSet();
    sentinel := s.Add(MAX, 10);
    var _ := s.Add(1, 10);
    twice := s.Add(1, 10);
    removal := s.Remove(2);
    lookup := s.Get(2);
  }

  /** `sps_add_or_replace` on a key already in the set, as written
      (src/sps.c:147-159): instead of replacing the component, it appends a
      second slot for the same key, so a pass visits the key twice and the
      set counts two entries for one key. */
  method AddOrReplaceDuplicateScenario() returns (keys: seq<int>, values: seq<int>, count: nat)
    ensures keys == [1, 1] && values == [10, 20] && count == 2
  {
    var s := DuplicateSet();
    count := s.count;
    var it := new SparseSetIter(s);
    keys, values := Drain(it);
  }

  /** The set those calls leave: two live slots, both for key 1. */
  method DuplicateSet() returns (s: SparseSet<int>)
    ensures fresh(s) && s.Allocated() && s.count == 2
    ensures s.dense[..s.count] == [1, 1] && s.components[..s.count] == [10, 20]
  {
    s := NewIntSet();
    var _ := s.Add(1, 10);
    var _ := s.AddOrReplace(1, 20);
  }

  /** The same calls with the intended replace-in-place: one entry, holding
      the new component. */
  method UpsertScenario() returns (keys: seq<int>, values: seq<int>, count: nat)
    ensures keys == [1] && values == [20] && count == 1
  {
    var s := NewIntSet();
    var _ := s.Add(1, 10);
    var _ := s.Upsert(1, 20);
    count := s.count;
    var it := new SparseSetIter(s);
    keys, values := Drain(it);
  }
}
