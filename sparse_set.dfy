/** The sparse set (include/sps/sps.h:27-43, src/sps.c): a key table
    `sparse` from entity index to dense slot, a packed table `dense` from slot
    back to entity index, and the component stored in each slot. A returned
    component pointer is modelled as the dense slot it points at. */
module SparseSets {
  import opened SpsTypes
  import opened Permutations
  import opened InsertionSort
  import opened SortBuffer

  class SparseSet<T(0)> {
    /** Number of live entries; the dense slots 0 .. count-1 are in use. */
    var count: u16
    /** Size of one component in bytes; the model stores components as values
        of type T, so all that matters is that it is positive. */
    const componentSize: nat
    /** Entity index -> dense slot, or MAX when the entity is not in the set. */
    const sparse: array<u16>
    /** Dense slot -> entity index; MAX in every slot at or above `count`. */
    const dense: array<u16>
    /** The component stored in each dense slot (`components[]`). */
    const components: array<T>

    /** The layout of `sparse_set_t`: both index tables and the component
        buffer have MAX entries and are separate objects. */
    ghost predicate Allocated()
      reads this
    {
      && sparse.Length == MAX && dense.Length == MAX && components.Length == MAX
      && sparse != dense && components as object != sparse && components as object != dense
      && componentSize > 0
    }

    /** The representation invariant: `sparse` and `dense[0 .. count)` are
        inverse bijections between the keys in the set and the live slots, and
        every other entry of either table is the sentinel. */
    ghost predicate Valid()
      reads this, sparse, dense
    {
      && Allocated()
      && (forall k :: 0 <= k < MAX && sparse[k] != MAX ==> sparse[k] < count && dense[sparse[k]] == k)
      && (forall i :: 0 <= i < count ==> dense[i] != MAX && sparse[dense[i]] == i)
      && (forall i :: count <= i < MAX ==> dense[i] == MAX)
    }

    /** The abstract value: each key in the set with the component stored for it. */
    ghost function Contents(): map<int, T>
      reads this, sparse, dense, components
      requires Valid()
    {
      map k | 0 <= k < MAX && sparse[k] != MAX :: components[sparse[k]]
    }

    /** The allocation half of `sps_new` for a positive component size
        (src/sps.c:232-242): both index tables are filled with the sentinel and
        the set is empty. */
    constructor (componentSize: nat)
      requires componentSize > 0
      ensures Valid() && fresh(sparse) && fresh(dense) && fresh(components)
      ensures this.componentSize == componentSize && count == 0
      ensures forall k :: 0 <= k < MAX ==> sparse[k] == MAX && dense[k] == MAX
      ensures Contents() == map[]
    {
      this.componentSize := componentSize;
      sparse := new u16[MAX](_ => MAX);
      dense := new u16[MAX](_ => MAX);
      components := new T[MAX];
      count := 0;
    }

    /** The slots 0 .. count-1 list every key of the set exactly once: what an
        undisturbed pass of the iterator visits. It also shows that `count` is
        the number of keys in the set. */
    lemma DenseListsEachKeyOnce()
      requires Valid()
      ensures Distinct(dense[..count])
      ensures forall k :: k in Contents() <==> k in dense[..count]
      ensures |Contents()| == count
    {
      var live: seq<int> := dense[..count];
      forall p, q | 0 <= p < q < |live| ensures live[p] != live[q] {
        assert sparse[dense[p]] == p && sparse[dense[q]] == q;
      }
      forall k ensures k in Contents() <==> k in live {
        if k in Contents() {
          assert live[sparse[k]] == k;
        }
        if k in live {
          var p :| 0 <= p < |live| && live[p] == k;
          assert sparse[dense[p]] == p;
        }
      }
      DistinctCardinality(live);
      assert Contents().Keys == set x | x in live;
    }

    /** `sps_count`: the number of keys in the set. */
    function Count(): (r: nat)
      reads this, sparse, dense, components
      requires Valid()
      ensures r == |Contents()|
    {
      DenseListsEachKeyOnce();
      count
    }

    /** `sps_has`: whether the key is in the set; the sentinel never is. It
        reads only the key's sparse entry, so it runs on any set, including
        one whose invariant `sps_add_or_replace` has broken. */
    function Has(k: u16): (r: bool)
      reads this, sparse, dense, components
      requires Allocated()
      ensures Valid() ==> (r <==> k in Contents())
      ensures r ==> k != MAX
    {
      k != MAX && sparse[k] != MAX
    }

    /** `sps_get`: the slot holding the key's component, "not found" for a key
        that is not in the set, or an argument error for the sentinel. Like
        `sps_has` it runs on any set. */
    function Get(k: u16): (r: Lookup)
      reads this, sparse, dense, components
      requires Allocated()
      ensures r == InvalidKey <==> k == MAX
      ensures r.Found? <==> k != MAX && sparse[k] != MAX
      ensures Valid() ==> (r == Absent <==> k != MAX && k !in Contents())
      ensures Valid() && r.Found? ==>
        && k in Contents() && r.slot < count && dense[r.slot] == k
        && components[r.slot] == Contents()[k]
    {
      if k == MAX then InvalidKey
      else if sparse[k] == MAX then Absent
      else Found(sparse[k])
    }

    /** `sps_add`: refuses the sentinel key, a full set and a key already in the
        set, in that order, changing nothing; otherwise appends the key and its
        component at slot `count` and returns that slot. */
    method Add(k: u16, v: T) returns (r: Result<u16>)
      requires Valid()
      modifies this, sparse, dense, components
      ensures Valid()
      ensures r == Err(InvalidArgument) <==> k == MAX
      ensures r == Err(Full) <==> k != MAX && old(count) == MAX
      ensures r == Err(AlreadyPresent) <==> k != MAX && old(count) < MAX && k in old(Contents())
      ensures r.Ok? <==> k != MAX && old(count) < MAX && k !in old(Contents())
      ensures r.Err? ==> unchanged(this, sparse, dense, components)
      ensures r.Ok? ==>
        && r.value == old(count) && count == old(count) + 1
        && sparse[..] == old(sparse[..])[k := old(count)]
        && dense[..] == old(dense[..])[old(count) := k]
        && components[..] == old(components[..])[old(count) := v]
      ensures r.Ok? ==>
        && dense[..count] == old(dense[..count]) + [k]
        && components[..count] == old(components[..count]) + [v]
      ensures Contents() == if r.Ok? then old(Contents())[k := v] else old(Contents())
    {
      if k == MAX {
        return Err(InvalidArgument);
      }
      if count == MAX {
        return Err(Full);
      }
      if sparse[k] != MAX {
        return Err(AlreadyPresent);
      }
      r := Ok(count);
      sparse[k] := count;
      dense[count] := k;
      components[count] := v;
      count := count + 1;
      assert forall j :: 0 <= j < MAX && j != k ==> sparse[j] == old(sparse[j]);
    }

    /** `sps_add_or_replace` as written: for any key but the sentinel it
        appends at slot `count`, exactly as `sps_add` does, without looking at
        whether the key is already in the set. For a new key that is a correct
        insertion; for a key already present it leaves the key's old slot
        behind and breaks the representation invariant. */
    method AddOrReplace(k: u16, v: T) returns (r: Result<u16>)
      requires Allocated() && (k == MAX || count < MAX)
      modifies this, sparse, dense, components
      ensures Allocated()
      ensures k == MAX ==> r == Err(InvalidArgument) && unchanged(this, sparse, dense, components)
      ensures k != MAX ==>
        && r == Ok(old(count)) && count == old(count) + 1
        && sparse[..] == old(sparse[..])[k := old(count)]
        && dense[..] == old(dense[..])[old(count) := k]
        && components[..] == old(components[..])[old(count) := v]
      ensures k != MAX ==>
        && dense[..count] == old(dense[..count]) + [k]
        && components[..count] == old(components[..count]) + [v]
      ensures old(Valid()) && k != MAX && old(sparse[k]) == MAX ==>
        Valid() && Contents() == old(Contents())[k := v]
      ensures old(Valid()) && k != MAX && old(sparse[k]) != MAX ==> !Valid()
    {
      if k == MAX {
        return Err(InvalidArgument);
      }
      ghost var was := sparse[k];
      r := Ok(count);
      sparse[k] := count;
      dense[count] := k;
      components[count] := v;
      count := count + 1;
      assert dense[..count] == old(dense[..count]) + [k];
      assert components[..count] == old(components[..count]) + [v];
      assert forall j :: 0 <= j < MAX && j != k ==> sparse[j] == old(sparse[j]);
      if old(Valid()) && was != MAX {
        assert dense[was] == k && sparse[dense[was]] != was;
      }
    }

    /** The evident intent of `sps_add_or_replace` (include/sps/sps.h:102-114):
        the sentinel is refused; a key already in the set gets its component
        replaced in its own slot; a new key is added as by `sps_add`, or
        refused when the set is full. */
    method Upsert(k: u16, v: T) returns (r: Result<u16>)
      requires Valid()
      modifies this, sparse, dense, components
      ensures Valid()
      ensures r == Err(InvalidArgument) <==> k == MAX
      ensures r == Err(Full) <==> k != MAX && k !in old(Contents()) && old(count) == MAX
      ensures r.Ok? <==> k != MAX && (k in old(Contents()) || old(count) < MAX)
      ensures r.Err? ==> unchanged(this, sparse, dense, components)
      ensures r.Ok? ==> r.value < count && dense[r.value] == k && components[r.value] == v
      ensures r.Ok? && k !in old(Contents()) ==>
        && r.value == old(count) && count == old(count) + 1
        && dense[..count] == old(dense[..count]) + [k]
        && components[..count] == old(components[..count]) + [v]
      ensures r.Ok? && k in old(Contents()) ==>
        && r.value == old(sparse[k]) && count == old(count)
        && unchanged(sparse) && unchanged(dense)
        && components[..] == old(components[..])[old(sparse[k]) := v]
      ensures Contents() == if r.Ok? then old(Contents())[k := v] else old(Contents())
    {
      if k == MAX {
        return Err(InvalidArgument);
      }
      if sparse[k] != MAX {
        r := Ok(sparse[k]);
        components[sparse[k]] := v;
        return;
      }
      r := Add(k, v);
    }

    /** `sps_remove`: refuses the sentinel and a key not in the set, changing
        nothing; otherwise moves the key and component of the last live slot
        into the removed key's slot, then marks the last slot and the removed
        key absent. Other keys keep their components; only the last one moves. */
    method Remove(k: u16) returns (r: Outcome)
      requires Valid()
      modifies this, sparse, dense, components
      ensures Valid()
      ensures Contents() == old(Contents()) - {k}
      ensures r == Fail(InvalidArgument) <==> k == MAX
      ensures r == Fail(NotPresent) <==> k != MAX && k !in old(Contents())
      ensures r == Pass <==> k != MAX && k in old(Contents())
      ensures r.Fail? ==> unchanged(this, sparse, dense, components)
      ensures r == Pass ==>
        var slot, last := old(sparse[k]), old(count) - 1;
        var moved := old(dense[last]);
        && count == last
        && components[..] == old(components[..])[slot := old(components[last])]
        && dense[..] == old(dense[..])[slot := moved][last := MAX]
        && sparse[..] == old(sparse[..])[moved := slot][k := MAX]
      ensures r == Pass ==>
        var slot, last := old(sparse[k]), old(count) - 1;
        && dense[..count] == old(dense[..count])[slot := old(dense[last])][..last]
        && components[..count] == old(components[..count])[slot := old(components[last])][..last]
    {
      if k == MAX {
        return Fail(InvalidArgument);
      }
      if sparse[k] == MAX {
        return Fail(NotPresent);
      }
      SwapRemove(k);
      r := Pass;
    }

    /** The body of `sps_remove` past its checks (src/sps.c:196-211). */
    method SwapRemove(k: u16)
      requires Valid() && k != MAX && sparse[k] != MAX
      modifies this, sparse, dense, components
      ensures Valid()
      ensures Contents() == old(Contents()) - {k}
      ensures
        var slot, last := old(sparse[k]), old(count) - 1;
        var moved := old(dense[last]);
        && count == last
        && components[..] == old(components[..])[slot := old(components[last])]
        && dense[..] == old(dense[..])[slot := moved][last := MAX]
        && sparse[..] == old(sparse[..])[moved := slot][k := MAX]
      ensures
        var slot, last := old(sparse[k]), old(count) - 1;
        && dense[..count] == old(dense[..count])[slot := old(dense[last])][..last]
        && components[..count] == old(components[..count])[slot := old(components[last])][..last]
    {
      ghost var slots, vals := sparse[..], components[..];
      assert Contents() == Tabulated(slots, vals);
      var last := count - 1;
      components[sparse[k]] := components[last];
      var moved := dense[last];
      var slot := sparse[k];
      dense[slot] := moved;
      sparse[moved] := slot;
      dense[last] := MAX;
      sparse[k] := MAX;
      count := last;
      RemovedContents(slots, vals, k, slot, last, moved);
    }

    /** The contents after the swap-remove of `k`, described against the key
        table `slots` and the components `vals` before it: the key `moved`
        from the last slot `last` takes over `k`'s slot `slot`. */
    lemma RemovedContents(slots: seq<int>, vals: seq<T>, k: int, slot: int, last: int, moved: int)
      requires Valid() && |slots| == MAX && |vals| == MAX
      requires 0 <= k < MAX && 0 <= moved < MAX && 0 <= slot <= last < MAX
      requires slots[k] == slot && slots[moved] == last
      requires forall j :: 0 <= j < MAX && slots[j] != MAX ==> 0 <= slots[j] < MAX
      requires forall j :: 0 <= j < MAX && slots[j] == slot ==> j == k
      requires sparse[..] == slots[moved := slot][k := MAX]
      requires components[..] == vals[slot := vals[last]]
      ensures Contents() == Tabulated(slots, vals) - {k}
    {
    }

    /** `sps_sort`: nothing changes when there are fewer than two entries.
        Otherwise the live slots are rearranged in the order that a stable
        insertion sort of their components gives (the `order` buffer), the
        keys move with their components and `sparse` follows them. Whatever
        the comparator, every key keeps its component; when it is a total
        preorder on the components, they end up in non-decreasing order and
        keys whose components compare equal keep their relative order. */
    method Sort(cmp: (T, T) -> int)
      requires Valid()
      modifies sparse, dense, components
      ensures Valid() && Contents() == old(Contents())
      ensures old(count) <= 1 ==> unchanged(sparse, dense, components)
      ensures var order := InsertionOrder(old(components[..count]), cmp, count);
        forall p :: 0 <= p < count ==>
          && 0 <= order[p] < count
          && dense[p] == old(dense[order[p]]) && components[p] == old(components[order[p]])
      ensures dense[count..] == old(dense[count..]) && components[count..] == old(components[count..])
      ensures TotalPreorderOn(old(components[..count]), cmp) ==>
        forall p, q :: 0 <= p < q < count ==> cmp(components[p], components[q]) <= 0
      ensures TotalPreorderOn(old(components[..count]), cmp) ==>
        var order := InsertionOrder(old(components[..count]), cmp, count);
        forall p, q :: 0 <= p < q < count && cmp(components[p], components[q]) == 0 ==> order[p] < order[q]
    {
      if count <= 1 {
        if count == 1 {
          assert InsertionOrder(components[..count], cmp, count) == [0];
        }
        return;
      }
      var order := SortOrder(components[..count], cmp);
      assert Valid() && Contents() == old(Contents());
      ApplyOrder(order, cmp);
    }

    /** The rearrangement by an `order` buffer that holds the insertion
        order of the live components. */
    method ApplyOrder(order: array<u16>, cmp: (T, T) -> int)
      requires Valid() && count > 1
      requires order != sparse && order != dense && order as object != components
      requires order[..] == InsertionOrder(components[..count], cmp, count)
      modifies sparse, dense, components
      ensures Valid() && Contents() == old(Contents())
      ensures var order := InsertionOrder(old(components[..count]), cmp, count);
        forall p :: 0 <= p < count ==>
          && 0 <= order[p] < count
          && dense[p] == old(dense[order[p]]) && components[p] == old(components[order[p]])
      ensures dense[count..] == old(dense[count..]) && components[count..] == old(components[count..])
      ensures TotalPreorderOn(old(components[..count]), cmp) ==>
        forall p, q :: 0 <= p < q < count ==> cmp(components[p], components[q]) <= 0
      ensures TotalPreorderOn(old(components[..count]), cmp) ==>
        var order := InsertionOrder(old(components[..count]), cmp, count);
        forall p, q :: 0 <= p < q < count && cmp(components[p], components[q]) == 0 ==> order[p] < order[q]
    {
      ghost var vals := components[..count];
      InsertionOrderIsPermutation(vals, cmp, count);
      Rearrange(order);
      InsertionSortOutcome(vals, cmp, components[..count]);
    }

    /** The second half of `sps_sort` (src/sps.c:112-130): the components and
        keys are gathered into temporary buffers in `order`, each key's sparse
        entry is pointed at its new slot, and the buffers are copied back over
        the live slots. */
    method Rearrange(order: array<u16>)
      requires Valid() && order != sparse && order != dense && order as object != components
      requires IsPermutation(order[..], count)
      modifies sparse, dense, components
      ensures Valid() && Contents() == old(Contents())
      ensures forall p :: 0 <= p < count ==>
        && dense[p] == old(dense[order[p]]) && components[p] == old(components[order[p]])
        && (var k := dense[p]; old(sparse[k]) == order[p])
      ensures dense[count..] == old(dense[count..]) && components[count..] == old(components[count..])
    {
      ghost var perm, vals, keys, slots := order[..], components[..], dense[..], sparse[..];
      assert Contents() == Tabulated(slots, vals);
      var tempComponents, tempDense := Gather(order);
      CopyBack(tempComponents, tempDense);
      RearrangedTables(perm, keys, slots, vals);
    }

    /** The copy-back of `sps_sort` (src/sps.c:128-130): the temporary
        buffers overwrite the live slots of the components and of `dense`. */
    method CopyBack(tempComponents: array<T>, tempDense: array<u16>)
      requires Allocated() && tempComponents.Length == count && tempDense.Length == count
      requires tempComponents != components && tempDense != dense
      requires tempComponents as object != dense && tempDense as object != components
      modifies dense, components
      ensures forall p :: 0 <= p < count ==> components[p] == tempComponents[p] && dense[p] == tempDense[p]
      ensures dense[count..] == old(dense[count..]) && components[count..] == old(components[count..])
    {
      forall t | 0 <= t < count {
        components[t] := tempComponents[t];
      }
      forall t | 0 <= t < count {
        dense[t] := tempDense[t];
      }
    }

    /** The state that the rearrangement leaves, described against the
        tables before it (`keys` for `dense`, `slots` for `sparse`, `vals` for
        the components) and the permutation `perm`, is a valid set with the
        same contents. */
    lemma RearrangedTables(perm: seq<int>, keys: seq<int>, slots: seq<int>, vals: seq<T>)
      requires Allocated() && IsPermutation(perm, count)
      requires |keys| == MAX && |slots| == MAX && |vals| == MAX
      requires forall k :: 0 <= k < MAX && slots[k] != MAX ==> 0 <= slots[k] < count && keys[slots[k]] == k
      requires forall i :: 0 <= i < count ==> 0 <= keys[i] < MAX && slots[keys[i]] == i
      requires forall p :: 0 <= p < count ==> dense[p] == keys[perm[p]] && components[p] == vals[perm[p]]
      requires forall p :: count <= p < MAX ==> dense[p] == MAX
      requires forall k :: 0 <= k < MAX && slots[k] != MAX ==> sparse[k] < count && perm[sparse[k]] == slots[k]
      requires forall k :: 0 <= k < MAX && slots[k] == MAX ==> sparse[k] == MAX
      ensures Valid()
      ensures Contents() == Tabulated(slots, vals)
    {
      forall i | 0 <= i < count ensures dense[i] != MAX && sparse[dense[i]] == i {
        var s := perm[i];
        assert keys[s] != MAX && slots[keys[s]] == s;
        assert perm[sparse[keys[s]]] == s;
      }
      forall k | 0 <= k < MAX && sparse[k] != MAX
        ensures sparse[k] < count && dense[sparse[k]] == k && components[sparse[k]] == vals[slots[k]]
      {
        assert slots[k] != MAX;
      }
    }

    /** The gathering loop of `sps_sort` (src/sps.c:113-126): slot `i` of the
        temporary buffers receives the component and key from slot `order[i]`,
        and that key's sparse entry is set to `i`. Keys not in the set keep
        the sentinel. */
    method Gather(order: array<u16>) returns (tempComponents: array<T>, tempDense: array<u16>)
      requires Valid() && order != sparse && order != dense && order as object != components
      requires IsPermutation(order[..], count)
      modifies sparse
      ensures fresh(tempComponents) && fresh(tempDense)
      ensures tempComponents.Length == count && tempDense.Length == count
      ensures forall t :: 0 <= t < count ==>
        tempComponents[t] == components[order[t]] && tempDense[t] == dense[order[t]]
      ensures forall k :: 0 <= k < MAX && old(sparse[k]) != MAX ==>
        sparse[k] < count && order[sparse[k]] == old(sparse[k])
      ensures forall k :: 0 <= k < MAX && old(sparse[k]) == MAX ==> sparse[k] == MAX
    {
      var n := count;
      ghost var perm, slots := order[..], sparse[..];
      tempComponents := new T[n];
      tempDense := new u16[n];
      var i := 0;
      while i < n
        modifies tempComponents, tempDense, sparse
        invariant 0 <= i <= n
        invariant forall t :: 0 <= t < i ==>
          tempComponents[t] == components[perm[t]] && tempDense[t] == dense[perm[t]]
        invariant forall t :: 0 <= t < i ==> sparse[dense[perm[t]]] == t
        invariant forall k :: 0 <= k < MAX && slots[k] == MAX ==> sparse[k] == MAX
      {
        var oldPos := order[i];
        tempComponents[i] := components[oldPos];
        tempDense[i] := dense[oldPos];
        sparse[dense[oldPos]] := i;
        i := i + 1;
      }
      // Every key in the set now points at the slot its component moved to.
      forall k | 0 <= k < MAX && slots[k] != MAX
        ensures sparse[k] < n && perm[sparse[k]] == slots[k]
      {
        var s := slots[k];
        assert s in perm;
        var t :| 0 <= t < n && perm[t] == s;
        assert dense[s] == k;
      }
    }
  }

  /** The contents described by a key table `slots` and the components
      `vals` it points into. */
  ghost function Tabulated<T>(slots: seq<int>, vals: seq<T>): map<int, T>
    requires |slots| == MAX
    requires forall k :: 0 <= k < MAX && slots[k] != MAX ==> 0 <= slots[k] < |vals|
  {
    map k | 0 <= k < MAX && slots[k] != MAX :: vals[slots[k]]
  }

  /** `sps_new`: no set for a component size of zero, otherwise a new empty
      set whose index tables hold only the sentinel. */
  method New<T(0)>(componentSize: nat) returns (s: SparseSet?<T>)
    ensures s == null <==> componentSize == 0
    ensures s != null ==>
      && fresh(s) && fresh(s.sparse) && fresh(s.dense) && fresh(s.components) && s.Valid() && s.count == 0 && s.componentSize == componentSize
      && (forall k :: 0 <= k < MAX ==> s.sparse[k] == MAX && s.dense[k] == MAX)
      && s.Contents() == map[]
  {
    if componentSize == 0 {
      return null;
    }
    s := new SparseSet(componentSize);
  }
}
