/** The iterator (include/sps/sps.h:40-43, src/sps.c:24-49): a cursor into
    the dense slots of a set, which reads the set's current `count` on every
    step rather than a snapshot taken when it was created. */
module SparseSetIterators {
  import opened SpsTypes
  import opened Permutations
  import opened SparseSets

  class SparseSetIter<T(0)> {
    /** The set being iterated (`set`). */
    const target: SparseSet<T>
    /** The next dense slot to visit (`index`). */
    var index: u16

    /** `sps_iter_new`: a cursor at slot 0 of the given set. */
    constructor (target: SparseSet<T>)
      ensures this.target == target && index == 0
    {
      this.target := target;
      index := 0;
    }

    /** The keys the cursor has still to visit, in the set's current state. */
    function PendingKeys(): (r: seq<u16>)
      reads this, target, target.dense
      requires target.Allocated()
      ensures |r| == if index < target.count then target.count - index else 0
    {
      if index < target.count then target.dense[index..target.count] else []
    }

    /** The components the cursor has still to visit, slot by slot. */
    function PendingComponents(): (r: seq<T>)
      reads this, target, target.components
      requires target.Allocated()
      ensures |r| == if index < target.count then target.count - index else 0
    {
      if index < target.count then target.components[index..target.count] else []
    }

    /** `sps_iter_next`: without somewhere to write the key (a NULL `index`
        out-parameter, refused in src/sps.c:25-28 although
        include/sps/sps.h:59 allows it) or once the cursor has reached the
        set's current `count`, the end and no move; otherwise the key and the
        slot under the cursor, and the cursor moves on by one. */
    method Next(hasIndexOut: bool) returns (step: Step)
      requires target.Allocated()
      modifies this
      ensures !hasIndexOut || old(index) >= target.count ==> step == End && index == old(index)
      ensures hasIndexOut && old(index) < target.count ==>
        && step == Item(target.dense[old(index)], old(index))
        && index == old(index) + 1
    {
      if !hasIndexOut {
        return End;
      }
      if index >= target.count {
        return End;
      }
      step := Item(target.dense[index], index);
      index := index + 1;
    }

    /** A cursor at slot 0 of a valid set has every key of the set still to
        visit, each exactly once. */
    lemma FreshPassVisitsEachKeyOnce()
      requires target.Valid() && index == 0
      ensures Distinct(PendingKeys())
      ensures forall k :: k in PendingKeys() <==> k in target.Contents()
    {
      target.DenseListsEachKeyOnce();
      assert PendingKeys() == target.dense[..target.count];
    }
  }
}
