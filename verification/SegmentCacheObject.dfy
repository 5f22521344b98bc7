/** The cache as the program holds it: a list and a byte counter, both updated in
    place by every operation.
 */
module SegmentCacheObject {
  import opened Wrappers
  import opened ExactStateHash
  import opened SegmentTreeObject
  import SegmentCache
  import CacheRuns

  class ExactSegmentCache {
    const h: Hasher
    const budget: nat
    var entries: seq<SegmentCache.Entry>
    var bytes: nat

    function Value(): SegmentCache.Cache
      reads this
    {
      SegmentCache.Cache(entries, bytes, budget)
    }

    constructor (h: Hasher, budget: nat)
      ensures this.h == h && Value() == SegmentCache.Cache([], 0, budget)
      ensures Value().Valid() && Value().Drift() == 0
    {
      this.h := h;
      this.budget := budget;
      entries := [];
      bytes := 0;
    }

    method Get(id: SegmentCache.SegmentId) returns (tree: Option<Tree>)
      ensures tree == SegmentCache.Lookup(Value(), id)
    {
      for k := 0 to |entries|
        invariant SegmentCache.Position(entries, id, k) == SegmentCache.Position(entries, id)
      {
        if entries[k].id == id {
          return Some(entries[k].tree);
        }
      }
      return None;
    }

    method Remove(id: SegmentCache.SegmentId)
      requires Value().Valid()
      modifies this
      ensures Value() == SegmentCache.Remove(old(Value()), id)
      ensures Value().Valid() && Value().Drift() == old(Value().Drift())
    {
      SegmentCache.RemoveKeepsValid(Value(), id);
      SegmentCache.RemoveAccounts(Value(), id);
      var k := SegmentCache.Position(entries, id);
      if k < |entries| {
        var tree := entries[k].tree;
        SegmentCache.ResidentCut(entries, k);
        entries := SegmentCache.Cut(entries, k);
        bytes := bytes - tree.ResidentBytes();
      }
    }

    /** Drop the oldest entries until `need` more bytes fit; false when none is left to drop. */
    method MakeRoom(need: nat) returns (completed: bool)
      requires SegmentCache.Resident(entries) <= bytes
      modifies `entries, `bytes
      ensures var goal := SegmentCache.Evict(old(entries), old(bytes), need, budget);
              (completed <==> goal.Some?) && (completed ==> (entries, bytes) == goal.value)
    {
      ghost var goal := SegmentCache.Evict(entries, bytes, need, budget);
      while bytes + need > budget
        invariant SegmentCache.Resident(entries) <= bytes
        invariant SegmentCache.Evict(entries, bytes, need, budget) == goal
        decreases |entries|
      {
        if entries == [] {
          return false;
        }
        var oldest := entries[0];
        entries := entries[1..];
        bytes := bytes - oldest.tree.ResidentBytes();
      }
      return true;
    }

    /** `completed` is false when the eviction loop would take from an empty list. */
    method Insert(id: SegmentCache.SegmentId, tree: Tree) returns (completed: bool)
      requires Value().Valid() && tree.Valid()
      modifies this
      ensures completed <==> SegmentCache.Insert(old(Value()), id, tree).Some?
      ensures completed ==> Value() == SegmentCache.Insert(old(Value()), id, tree).value
      ensures completed ==> Value().Valid() && Value().Drift() == old(Value().Drift())
      ensures old(Value().Drift()) == 0 ==> completed
    {
      hide SegmentCache.Resident, SegmentCache.Evict, SegmentCache.Remove, SegmentCache.SuffixKept;
      ghost var before := Value();
      ghost var n := SegmentCache.InsertOutcome(before, id, tree);
      if SegmentCache.Insert(before, id, tree).Some? { CacheRuns.InsertKeepsValid(before, id, tree); }
      Remove(id);
      var need := tree.ResidentBytes();
      if need > budget {
        return true;
      }
      completed := MakeRoom(need);
      if completed {
        entries := entries + [SegmentCache.Entry(id, tree)];
        bytes := bytes + need;
      }
    }

    method UpdateSlot(id: SegmentCache.SegmentId, local: nat, value: SlotValue, clone: Option<SegmentCache.Capacities>)
      requires Value().Valid() && SegmentCache.WritableAt(Value(), id, local, clone)
      modifies this`entries
      ensures Value() == SegmentCache.UpdateSlot(h, old(Value()), id, local, value, clone)
      ensures Value().Valid() && Value().Drift() >= old(Value().Drift())
      ensures clone.None? ==> Value().Drift() == old(Value().Drift())
    {
      CacheRuns.UpdateKeepsValid(h, Value(), id, local, value, clone);
      var k := SegmentCache.Position(entries, id);
      if k < |entries| {
        var tree := SegmentCache.Recapacitate(entries[k].tree, clone);
        entries := SegmentCache.Cut(entries, k);
        entries := entries + [SegmentCache.Entry(id, tree.SetSlot(h, local, value))];
      }
    }

    method Clear()
      modifies this
      ensures Value() == SegmentCache.Clear(old(Value())) && entries == [] && bytes == 0
      ensures Value().Valid() && Value().Drift() == 0
    {
      entries := [];
      bytes := 0;
    }

    method TruncateSegments(count: nat)
      requires Value().Valid()
      modifies this
      ensures Value() == SegmentCache.TruncateSegments(old(Value()), count)
      ensures Value().Valid() && Value().Drift() == 0
    {
      CacheRuns.TruncateKeepsValid(Value(), count);
      entries := SegmentCache.Retain(entries, count);
      bytes := SegmentCache.Resident(entries);
    }
  }
}
