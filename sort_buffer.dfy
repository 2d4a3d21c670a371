/** The first half of `sps_sort` (src/sps.c:70-98) as the loops that build
    the temporary `order` buffer. The components are only read while the
    buffer is built, so they are passed as the sequence of live components. */
module SortBuffer {
  import opened SpsTypes
  import opened InsertionSort

  /** The `order` buffer: filled with the live slots 0 .. n-1 and then
      insertion-sorted by the component stored in each slot. */
  method SortOrder<T>(vals: seq<T>, cmp: (T, T) -> int) returns (order: array<u16>)
    requires 1 < |vals| <= MAX
    ensures fresh(order)
    ensures order[..] == InsertionOrder(vals, cmp, |vals|)
  {
    order := Identity(|vals|);
    InsertionPasses(vals, order, cmp);
  }

  /** The initialisation loop (src/sps.c:77-80): slot `i` at position `i`. */
  method Identity(n: nat) returns (order: array<u16>)
    requires n <= MAX
    ensures fresh(order) && order.Length == n
    ensures forall t :: 0 <= t < n ==> order[t] == t
  {
    order := new u16[n];
    var i := 0;
    while i < n
      invariant 0 <= i <= n
      invariant forall t :: 0 <= t < i ==> order[t] == t
    {
      order[i] := i;
      i := i + 1;
    }
  }

  /** The outer loop (src/sps.c:82-98): after the pass for `i`, the first
      i+1 entries are the slots 0 .. i in insertion order. */
  method InsertionPasses<T>(vals: seq<T>, order: array<u16>, cmp: (T, T) -> int)
    requires 1 < order.Length == |vals|
    requires forall t :: 0 <= t < order.Length ==> order[t] == t
    modifies order
    ensures order[..] == InsertionOrder(vals, cmp, |vals|)
  {
    var n := order.Length;
    assert order[..1] == [0] == InsertionOrder(vals, cmp, 1);
    var i := 1;
    while i < n
      invariant 1 <= i <= n
      invariant order[..i] == InsertionOrder(vals, cmp, i)
      invariant forall t :: i <= t < n ==> order[t] == t
      invariant forall t :: 0 <= t < n ==> order[t] < n
    {
      InsertSlot(vals, order, i, cmp);
      i := i + 1;
    }
    assert order[..] == order[..n];
  }

  /** One pass of the inner loop (src/sps.c:84-97): the slot at `order[i]` is
      moved back past every earlier entry whose component compares greater
      than its own. */
  method InsertSlot<T>(vals: seq<T>, order: array<u16>, i: nat, cmp: (T, T) -> int)
    requires i < order.Length <= |vals|
    requires forall t :: 0 <= t < order.Length ==> order[t] < |vals|
    modifies order
    ensures order[..i + 1] == Insert(vals, cmp, old(order[..i]), old(order[i]))
    ensures forall t :: i < t < order.Length ==> order[t] == old(order[t])
    ensures forall t :: 0 <= t < order.Length ==> order[t] < |vals|
  {
    ghost var prev := order[..i];
    var key := order[i];
    var j := ShiftGreater(vals, order, i, key, cmp, prev);
    order[j + 1] := key;
    Spliced(vals, cmp, order[..], prev, j, key);
    assert order[..i + 1] == order[..][..i + 1];
  }

  /** The scan of the inner loop (src/sps.c:89-96): from slot `i - 1` back,
      every entry whose component compares greater than `key`'s moves one
      place further back, until one that does not (its index `j`) or the
      front (`j == -1`). */
  method ShiftGreater<T>(vals: seq<T>, order: array<u16>, i: nat, key: u16, cmp: (T, T) -> int, ghost prev: seq<int>)
      returns (j: int)
    requires i < order.Length <= |vals| && key < |vals| && prev == order[..i]
    requires forall t :: 0 <= t < order.Length ==> order[t] < |vals|
    modifies order
    ensures -1 <= j < i && (j >= 0 ==> NotAbove(vals, cmp, prev[j], key))
    ensures forall t :: j < t < i ==> !NotAbove(vals, cmp, prev[t], key)
    ensures forall t {:trigger prev[t]} :: 0 <= t <= j ==> order[t] == prev[t]
    ensures forall t :: j + 1 <= t < i ==> order[t + 1] == prev[t]
    ensures forall t :: i < t < order.Length ==> order[t] == old(order[t])
    ensures forall t :: 0 <= t < order.Length ==> order[t] < |vals|
  {
    j := i - 1;
    while j >= 0
      invariant -1 <= j < i
      invariant forall t {:trigger prev[t]} :: 0 <= t <= j ==> order[t] == prev[t]
      invariant forall t :: j + 1 <= t < i ==> order[t + 1] == prev[t]
      invariant forall t :: i < t < order.Length ==> order[t] == old(order[t])
      invariant forall t :: 0 <= t < order.Length ==> order[t] < |vals|
      invariant forall t :: j < t < i ==> !NotAbove(vals, cmp, prev[t], key)
      decreases j
    {
      if cmp(vals[order[j]], vals[key]) <= 0 {
        return;
      }
      order[j + 1] := order[j];
      j := j - 1;
    }
  }

  /** The buffer after the inner loop: the entries up to `j` untouched, the
      inserted slot at `j + 1`, and the rest of the scanned prefix one place
      further back. */
  lemma Spliced<T>(vals: seq<T>, cmp: (T, T) -> int, cur: seq<int>, prev: seq<int>, j: int, key: int)
    requires -1 <= j < |prev| < |cur|
    requires j >= 0 ==> NotAbove(vals, cmp, prev[j], key)
    requires forall t :: j < t < |prev| ==> !NotAbove(vals, cmp, prev[t], key)
    requires forall t {:trigger prev[t]} :: 0 <= t <= j ==> cur[t] == prev[t]
    requires cur[j + 1] == key
    requires forall t :: j + 1 <= t < |prev| ==> cur[t + 1] == prev[t]
    ensures cur[..|prev| + 1] == Insert(vals, cmp, prev, key)
  {
    InsertAt(vals, cmp, prev, j, key);
  }
}
