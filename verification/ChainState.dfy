/** The chain's state root: refreshed from the segments that changed, predicted for a batch before it is
    applied, and always the plain Merkle root of every slot, resident or evicted.
 */
module ChainState {
  import opened Wrappers
  import opened Powers
  import opened ExactStateHash
  import opened SegmentTree
  import opened SegmentTreeObject
  import opened SegmentCache
  import opened SegmentedState
  import opened SegmentedResize
  import opened SegmentedStateObject
  import opened StateRoots
  import opened StateContents
  import opened StateUpdates
  import opened StateSupply
  import opened StateTransition
  import StreamingRoot
  import opened StateFrontier
  import SparseMultiproof
  import SparseMerkleObject

  datatype FrontierError = DepthMismatch | CompactRootMismatch | InvalidIndices | FrontierEvicted(id: nat)

  datatype TransitionError = HeaderLogSlotsMismatch | IndexOutOfRange | SegmentEvicted(id: nat) | CachedRootMismatch
    | SupplyInvariant

  class ChainState {
    const h: Hasher
    const state: SegmentedFriState
    const roots: ExactSegmentRootCache
    var utxoRoot: StateHash
    var supply: nat
    /** Copied from the header of the last applied transition. */
    var activeSlots: nat
    var allocCounter: nat
    ghost var store: Store

    /** The supply is the sum over every slot, resident or evicted. */
    ghost predicate Balanced()
      requires Valid()
      reads this, state, state.cache, roots
    {
      supply == Supply(Flat(Contents(state.Now(), store)))
    }

    ghost predicate Valid()
      reads this, state, state.cache, roots
    {
      && state.h == h && roots.h == h && state.Valid() && roots.Valid()
      && Stored(state.Now(), store)
      && InLine(state.Now(), state.exactDirty, roots.logSlots)
      && Sealed(h, state.Now(), store, state.exactDirty,
                GrownRoots(h, roots.logSlots, roots.segmentRoots, state.logSlots))
    }

    /** No change is waiting for a refresh. */
    ghost predicate Current()
      requires Valid()
      reads this, state, state.cache, roots
    {
      state.exactDirty == {} && roots.logSlots == state.logSlots && utxoRoot == PlainRoot(h, state.Now(), store)
    }

    constructor (h: Hasher, fill: StateHash, logSlots: nat, budget: nat)
      requires 1 <= logSlots <= LOG_SLOTS_MAX
      ensures Valid() && this.h == h && Current() && Balanced() && state.logSlots == logSlots
      ensures utxoRoot == ZeroRoot(h, logSlots) && fresh(state) && fresh(state.cache) && fresh(roots)
      ensures state.evicted == {} && state.Now().Exact()
      ensures Flat(Contents(state.Now(), store)) == ZeroSlots(Pow2(logSlots))
    {
      hide Flat;
      this.h := h;
      state := new SegmentedFriState(h, logSlots, budget);
      roots := new ExactSegmentRootCache(h, fill, logSlots);
      utxoRoot := ZeroRoot(h, logSlots);
      supply, activeSlots, allocCounter := 0, 0, 0;
      store := map[];
      new;
      FreshSealed(h, state.Now(), roots.segmentRoots);
      FreshSlots(state.Now());
      SupplyOfZeros(Pow2(logSlots));
    }

    /** Apply a batch without refreshing the root: what it changes is marked. */
    method ApplyDelta(deltas: seq<(nat, SlotValue)>) returns (result: Result<(), StateError>)
      requires Valid()
      modifies state, state.cache
      ensures Valid() && state.logSlots == old(state.logSlots)
      ensures result.Ok? <==> forall i :: 0 <= i < |deltas| ==> deltas[i].0 < Pow2(state.logSlots)
      ensures result.Err? ==> result.error == SlotOutOfRange
      ensures result.Err? ==> state.Now() == old(state.Now())
      ensures result.Ok? ==> Applied(old(state.Now()), deltas, state.Now())
      ensures old(state.exactDirty * state.evicted) == {} ==> state.exactDirty * state.evicted == {}
      ensures MarksOnly(old(state.Now()), deltas, old(state.exactDirty), state.exactDirty)
      ensures state.evicted <= old(state.evicted)
    {
      hide Pow2, Sealed, Applied, SameExcept, State.Valid, GrownRoots, MarksOnly;
      ghost var before := state.Now();
      result := state.ApplyDelta(deltas);
      StillStored(before, state.Now(), store, state.exactDirty);
      StillSealed(h, before, state.Now(), store, old(state.exactDirty), state.exactDirty,
                  GrownRoots(h, roots.logSlots, roots.segmentRoots, state.logSlots));
    }

    /** Drop columns that durable storage holds. */
    method EvictSegment(seg: SegmentId)
      requires Valid() && seg < |state.segments|
      modifies state, state.cache, this`store
      ensures Valid() && state.exactDirty == old(state.exactDirty) && state.logSlots == old(state.logSlots)
      ensures Contents(state.Now(), store) == old(Contents(state.Now(), store))
    {
      hide Pow2, SlotsRoot, GrownRoots, CountLive, Resident;
      ghost var before := state.Now();
      if state.segments[seg].Some? {
        store := store[seg := state.segments[seg].value];
      }
      state.EvictSegment(seg);
      EvictedContents(before, state.Now(), old(store), store, seg);
    }

    /** Reinstall columns from durable storage, once they match the recorded root and count. Nothing else
        in the domain changes, and neither does its root unless the segment was waiting for a refresh.
        `completed` is false where the source aborts: a record that reaches further than the domain lets
        empty columns pass for a segment the domain no longer has. */
    method RestoreEvictedSegment(seg: SegmentId, columns: seq<SlotValue>, capacities: Capacities, columnBytes: nat)
      returns (completed: bool, ok: bool)
      requires Valid()
      requires capacities.nodes >= 2 * state.Now().Size() && capacities.zeros >= LogSegment(state.logSlots) + 1
      modifies state, state.cache
      ensures Valid() && state.exactDirty == old(state.exactDirty) && state.logSlots == old(state.logSlots)
      ensures ok <==> completed && Authentic(h, old(state.Now()), roots.segmentRoots, seg, columns)
      ensures completed
              <==> !(seg >= |state.segments| && Authentic(h, old(state.Now()), roots.segmentRoots, seg, columns))
      ensures ok ==>
                && seg !in state.evicted
                && Contents(state.Now(), store) == old(Contents(state.Now(), store))[seg := columns]
      ensures !ok ==> state.Now() == old(state.Now())
      ensures old(Current()) ==> Current()
    {
      hide Pow2, SlotsRoot, MerkleRoot, NumSegments, LogSegment, State.Valid, Sealed, PlainRoot, CountLive, FreshNodes,
           ZeroRoots, GrownRoots;
      ghost var before := state.Now();
      SegmentIds(before);
      var count := if seg < |state.live| then state.live[seg] else 0;
      if |columns| != Pow2(LogSegment(state.logSlots)) || CountLive(columns) != count {
        return true, false;
      }
      var log := LogSegment(state.logSlots);
      var tree := Tree(log, FreshNodes(h, columns), ZeroRoots(h, log), capacities.nodes, capacities.zeros, columnBytes);
      RootOfTree(h, log, columns);
      if seg >= |roots.segmentRoots| || roots.segmentRoots[seg] != tree.nodes[1] {
        return true, false;
      }
      if seg >= |state.segments| {
        return false, false;
      }
      state.RestoreEvictedSegment(seg, columns);
      Reinstalled(before, seg, columns);
      SegmentIds(state.Now());
      if state.live[seg] != 0 {
        state.RememberExactSegmentTree(seg, tree);
      }
      return true, true;
    }

    /** What reinstalling authentic columns does to the record. */
    lemma {:induction false} Reinstalled(before: State, seg: nat, columns: seq<SlotValue>)
      requires state.h == h && roots.h == h && state.Valid() && roots.Valid() && before.Valid() && Stored(before, store)
      requires InLine(before, state.exactDirty, roots.logSlots)
      requires Sealed(h, before, store, state.exactDirty,
                      GrownRoots(h, roots.logSlots, roots.segmentRoots, before.logSlots))
      requires Authentic(h, before, roots.segmentRoots, seg, columns) && seg < |before.segments|
      requires state.logSlots == before.logSlots && |state.segments| == |before.segments|
      requires seg !in state.evicted && state.Now().Slots(seg) == columns
      requires forall s :: 0 <= s < |state.segments| && s != seg ==>
                 state.Now().Slots(s) == before.Slots(s) && (s in state.evicted <==> s in before.evicted)
      ensures Valid() && Contents(state.Now(), store) == Contents(before, store)[seg := columns]
      ensures state.exactDirty == {} && roots.logSlots == state.logSlots ==>
                PlainRoot(h, state.Now(), store) == PlainRoot(h, before, store)
    {
      hide Pow2, SlotsRoot, MerkleRoot, NumSegments, LogSegment, State.Valid, Sealed, PlainRoot, CountLive, GrownRoots;
      SegmentIds(before);
      SegmentIds(state.Now());
      var record := GrownRoots(h, roots.logSlots, roots.segmentRoots, state.logSlots);
      RecordedOrMarked(h, before, state.exactDirty, roots.logSlots, roots.segmentRoots, seg);
      RestoredContents(before, state.Now(), store, seg, columns);
      RestoredSealed(h, before, state.Now(), store, state.exactDirty, record, seg, columns);
      if state.exactDirty == {} && roots.logSlots == state.logSlots {
        RecordRoot(h, before, store, roots.logSlots, roots.segmentRoots);
        RecordRoot(h, state.Now(), store, roots.logSlots, roots.segmentRoots);
      }
    }

    /** Refresh the segments that changed, in any order, and read off the root. */
    method TryStateRoot(capacities: Capacities, columnBytes: nat) returns (result: Result<StateHash, StateError>)
      requires Valid() && capacities.nodes >= 2 * state.Now().Size()
      requires capacities.zeros >= LogSegment(state.logSlots) + 1
      modifies state`exactDirty, state.cache, roots, this`utxoRoot
      ensures Valid() && state.Now() == old(state.Now())
      ensures result.Ok? <==> old(state.exactDirty) * state.evicted == {}
      ensures result.Ok? ==> Current() && result.value == utxoRoot == PlainRoot(h, state.Now(), store)
      ensures result.Err? ==> result.error.EvictedSegment? && result.error.id in old(state.exactDirty) * state.evicted
    {
      hide Pow2, SlotsRoot, MerkleRoot, NumSegments, LogSegment, State.Valid, Stored, Sealed, PlainRoot, GrownRoots;
      SegmentIds(state.Now());
      ReachDomain();
      GrownAlready(h, roots.logSlots, roots.segmentRoots, state.logSlots);
      var blocked := RefreshMarked(capacities, columnBytes);
      if blocked.Some? {
        return Err(EvictedSegment(blocked.value));
      }
      state.exactDirty := {};
      GrownAlready(h, roots.logSlots, roots.segmentRoots, state.logSlots);
      var root := roots.Root();
      SealedRoot(h, state.Now(), store, roots.segmentRoots);
      utxoRoot := root;
      return Ok(root);
    }

    /** Bring the hierarchy to the depth of the domain, from below or from above. */
    method ReachDomain()
      requires Valid()
      modifies roots
      ensures Valid() && roots.logSlots == state.logSlots
    {
      hide Pow2, SlotsRoot, MerkleRoot, NumSegments, LogSegment, State.Valid, Stored, Sealed, ExpandedRoots;
      SegmentIds(state.Now());
      while roots.logSlots < state.logSlots
        invariant roots.Valid() && InLine(state.Now(), state.exactDirty, roots.logSlots)
        invariant Sealed(h, state.Now(), store, state.exactDirty,
                         GrownRoots(h, roots.logSlots, roots.segmentRoots, state.logSlots))
      {
        roots.ExpandOne();
      }
      if roots.logSlots > state.logSlots {
        ghost var logRoots, recorded := roots.logSlots, roots.segmentRoots;
        roots.ShrinkTo(state.logSlots);
        ShrinkSealed(h, state.Now(), store, state.exactDirty, logRoots, recorded, roots.segmentRoots);
      }
    }

    /** Record the root of every marked segment, or stop at one that is evicted. */
    method RefreshMarked(capacities: Capacities, columnBytes: nat) returns (blocked: Option<nat>)
      requires Valid() && roots.logSlots == state.logSlots
      requires capacities.nodes >= 2 * state.Now().Size() && capacities.zeros >= LogSegment(state.logSlots) + 1
      modifies state.cache, roots`segmentRoots, roots`tree
      ensures Valid() && state.Valid()
      ensures blocked.None? <==> state.exactDirty * state.evicted == {}
      ensures blocked.Some? ==> blocked.value in state.exactDirty * state.evicted
      ensures blocked.None? ==> Sealed(h, state.Now(), store, {}, roots.segmentRoots)
    {
      hide Pow2, SlotsRoot, MerkleRoot, NumSegments, LogSegment, State.Valid, Stored, Sealed, GrownRoots;
      SegmentIds(state.Now());
      GrownAlready(h, roots.logSlots, roots.segmentRoots, state.logSlots);
      var left := state.exactDirty;
      while left != {}
        invariant state.Valid() && roots.Valid() && left <= state.exactDirty
        invariant (state.exactDirty - left) * state.evicted == {}
        invariant Sealed(h, state.Now(), store, left, roots.segmentRoots)
        decreases left
      {
        var seg :| seg in left;
        var root := state.ExactSegmentRoot(seg, capacities, columnBytes);
        if root.Err? {
          assert seg in state.exactDirty * state.evicted;
          SealedMore(h, state.Now(), store, left, state.exactDirty, roots.segmentRoots);
          GrownAlready(h, roots.logSlots, roots.segmentRoots, state.logSlots);
          return Some(seg);
        }
        SealOne(h, state.Now(), store, left, roots.segmentRoots, seg, root.value);
        roots.SetSegmentRoot(seg, root.value);
        left := left - {seg};
      }
      SealedMore(h, state.Now(), store, {}, state.exactDirty, roots.segmentRoots);
      GrownAlready(h, roots.logSlots, roots.segmentRoots, state.logSlots);
      blocked := None;
    }

    /** Double the raw domain alone and leave the hierarchy behind, for the next refresh to grow. */
    method ExpandRaw() returns (completed: bool)
      requires Valid() && state.logSlots < LOG_SLOTS_MAX
      modifies state, state.cache
      ensures completed <==> !ExpandAborts(old(state.Now()))
      ensures completed ==> state.Now() == Expanded(old(state.Now()))
      ensures completed ==> (Valid() <==> old(UpperHalfFree(h, state.Now(), roots.logSlots, roots.segmentRoots)))
      ensures !completed ==> Valid() && state.Now() == old(state.Now())
    {
      hide Pow2, SlotsRoot, MerkleRoot, NumSegments, LogSegment, State.Valid, Stored, Sealed, Expanded, GrownRoots,
           UpperHalfFree;
      ghost var before, dirty := state.Now(), state.exactDirty;
      completed := state.Expand();
      if completed {
        ExpandedInLine(h, before, store, dirty, state.exactDirty, roots.logSlots, roots.segmentRoots, false);
      }
    }

    /** Double the domain. The old tree goes under a new node beside an empty one, so a current root stays
        current without a refresh. After a rollback that was not refreshed, the recorded roots reach into
        the new half, and stay right exactly if they are empty there. `completed` is false where the source
        aborts. */
    method ExpandOne() returns (completed: bool)
      requires Valid() && state.logSlots < LOG_SLOTS_MAX
      modifies state, state.cache, roots, this`utxoRoot
      ensures completed <==> !ExpandAborts(old(state.Now()))
      ensures completed ==> state.Now() == Expanded(old(state.Now())) && roots.logSlots == old(roots.logSlots) + 1
      ensures completed ==>
                && state.Valid()
                && Remarked(old(state.logSlots), old(state.exactDirty), state.exactDirty,
                            old(roots.logSlots == state.logSlots))
      ensures completed ==>
                roots.Valid() && roots.segmentRoots == ExpandedRoots(h, old(roots.logSlots), old(roots.segmentRoots))
      ensures completed ==> (Valid() <==> old(UpperHalfFree(h, state.Now(), roots.logSlots, roots.segmentRoots)))
      ensures completed && old(Current()) ==> Valid() && Current()
      ensures completed && Valid() && old(Balanced()) ==> Balanced()
      ensures completed ==>
                state.exactDirty <= old(state.exactDirty) || (state.exactDirty == old(state.exactDirty) + {0}
                                                              && 0 !in state.evicted)
      ensures completed ==> utxoRoot == Join(h, old(utxoRoot), ZeroRoot(h, old(state.logSlots)))
      ensures !completed ==> Valid() && state.Now() == old(state.Now())
    {
      hide Pow2, SlotsRoot, MerkleRoot, NumSegments, LogSegment, State.Valid, Stored, Sealed, PlainRoot, Join,
           ZeroRoot, Expanded, ExpandedRoots, Flat, Supply, UpperHalfFree, GrownRoots, CacheMatches, TreeOver;
      ghost var before, dirty, recorded, logRoots := state.Now(), state.exactDirty, roots.segmentRoots, roots.logSlots;
      var oldLog := state.logSlots;
      var root := roots.Root();
      var wasCurrent := state.exactDirty == {} && roots.logSlots == state.logSlots && root == utxoRoot;
      InStepIsFree(h, before, recorded);
      if dirty == {} && logRoots == oldLog { RecordRoot(h, before, store, logRoots, recorded); }
      completed := state.Expand();
      if !completed {
        return;
      }
      roots.ExpandOne();
      utxoRoot := Join(h, utxoRoot, ZeroRoot(h, oldLog));
      if wasCurrent {
        state.exactDirty := {};
      }
      ExpandedTogether(before, dirty, logRoots, recorded);
      ExpandedSupply(before, store);
      if wasCurrent { RecordRoot(h, state.Now(), store, roots.logSlots, roots.segmentRoots); }
    }

    /** What doubling the domain and the hierarchy together does to the record. */
    lemma {:induction false} ExpandedTogether(before: State, dirty: set<nat>, logRoots: nat, recorded: seq<StateHash>)
      requires before.Valid() && Stored(before, store) && !ExpandAborts(before) && before.logSlots < LOG_SLOTS_MAX
      requires |recorded| == NumSegments(logRoots) && InLine(before, dirty, logRoots)
      requires Sealed(h, before, store, dirty, GrownRoots(h, logRoots, recorded, before.logSlots))
      requires forall s :: s in dirty ==> s < |before.segments|
      requires state.h == h && roots.h == h && state.Valid() && roots.Valid() && state.Now() == Expanded(before)
      requires roots.logSlots == logRoots + 1 && roots.segmentRoots == ExpandedRoots(h, logRoots, recorded)
      requires Remarked(before.logSlots, dirty, state.exactDirty, logRoots == before.logSlots)
      ensures Valid() <==> UpperHalfFree(h, before, logRoots, recorded)
    {
      hide Pow2, SlotsRoot, MerkleRoot, NumSegments, LogSegment, State.Valid, Stored, Sealed, ZeroRoot, Expanded,
           ExpandedRoots, UpperHalfFree, GrownRoots, Remarked, InLine;
      ExpandedInLine(h, before, store, dirty, state.exactDirty, logRoots, recorded, true);
    }

    /** Roll back to an earlier depth, for the caller to refresh the root afterwards: the slots are the
        first ones of before, and what is dropped held nothing. `completed` is false where the source aborts. */
    method ShrinkState(target: nat) returns (completed: bool, result: Result<(), StateError>)
      requires Valid()
      modifies state, state.cache
      ensures Valid() && state.logSlots <= old(state.logSlots)
      ensures old(|Flat(Contents(state.Now(), store))|) >= Pow2(state.logSlots)
      ensures completed <==> (1 <= target < old(state.logSlots) ==> old(state.dirty) * old(state.evicted) == {})
      ensures completed && 1 <= target <= old(state.logSlots) ==>
                (result.Ok? <==> ClearFrom(old(state.Now()), Pow2(target))) && (result.Ok? ==> state.logSlots == target)
      ensures !completed || target < 1 || target > old(state.logSlots) ==> state.Now() == old(state.Now())
      ensures Flat(Contents(state.Now(), store)) == old(Flat(Contents(state.Now(), store)))[..Pow2(state.logSlots)]
      ensures Prefixed(old(state.Now()), state.Now(), old(state.exactDirty), state.exactDirty)
      ensures old(Balanced()) ==> Balanced()
    {
      hide Pow2, SlotsRoot, NumSegments, LogSegment, State.Valid, Stored, Sealed, Narrows, ClearFrom, GrownRoots, Flat,
           Supply, Prefixed, Contents;
      ghost var before, dirty := state.Now(), state.exactDirty;
      completed, result := state.ShrinkToLogSlots(target);
      NarrowedSealed(h, before, state.Now(), store, dirty, state.exactDirty, roots.logSlots, roots.segmentRoots);
      NarrowedSlots(before, state.Now(), store, dirty, state.exactDirty);
      if state.Now() != before { NarrowedSupply(before, state.Now(), store, dirty, state.exactDirty); }
    }

    // --------------------------------------------------------------------- frontiers

    /** One node of the domain's tree: above the segments from the recorded roots, inside a segment from
        its cached tree or its columns. */
    method ReadNode(level: nat, index: nat) returns (node: Result<StateHash, FrontierError>)
      requires Valid() && state.exactDirty == {} && roots.logSlots == state.logSlots
      requires level <= state.logSlots && index < Pow2(state.logSlots - level)
      ensures node.Ok? <==> NodeReadable(state.Now(), level, index)
      ensures node.Ok? ==>
                var leaves := AllLeaves(h, state.Now(), store);
                Inside(level, index, |leaves|) && node.value == NodeRoot(h, leaves, level, index)
    {
      hide Pow2, SlotsRoot, MerkleRoot, NumSegments, LogSegment, State.Valid, Sealed, Stored, NodeRoot, Inside, Flat,
           Quotient, Remainder;
      var low := LogSegment(state.logSlots);
      SegmentCount(state.logSlots);
      SegmentIds(state.Now());
      SealedIsRoots(h, state.Now(), store, roots.segmentRoots);
      if level >= low {
        var found := SegmentNodeHash(roots, level - low, index);
        NodeAbove(h, low, Contents(state.Now(), store), level - low, index);
        return Ok(found.value);
      }
      var width := Pow2(low - level);
      var seg, local := Quotient(index, width), Remainder(index, width);
      SegmentOfNode(state.Now(), level, index);
      if seg in state.evicted {
        return Err(FrontierEvicted(seg));
      }
      NodeWithin(h, low, Contents(state.Now(), store), level, seg, local);
      PlainSlots(state.Now(), seg);
      var cached := state.cache.Get(seg);
      if cached.Some? {
        CachedNode(h, state.Now(), state.cache.Value(), seg, level, local);
        var root := SubtreeRoot(low, cached.value.nodes, level, local);
        return Ok(root.value);
      }
      var root := ExactLocalSubtreeRoot(h, state.segments[seg], level, local, Pow2(low));
      return Ok(root);
    }

    method ReadNodes(positions: seq<(nat, nat)>) returns (result: Result<seq<StateHash>, FrontierError>)
      requires Valid() && state.exactDirty == {} && roots.logSlots == state.logSlots
      requires forall i :: 0 <= i < |positions| ==>
                 positions[i].0 <= state.logSlots && positions[i].1 < Pow2(state.logSlots - positions[i].0)
      ensures result.Ok? <==> AllReadable(state.Now(), positions)
      ensures result.Ok? ==> Reads(h, AllLeaves(h, state.Now(), store), positions, result.value)
    {
      hide Pow2, NumSegments, LogSegment, State.Valid, Sealed, Stored, Reads, NodeReadable, AllLeaves, Quotient;
      ghost var leaves := AllLeaves(h, state.Now(), store);
      var siblings := [];
      NoReads(h, leaves, positions);
      for i := 0 to |positions|
        invariant Reads(h, leaves, positions[..i], siblings)
        invariant forall k :: 0 <= k < i ==> NodeReadable(state.Now(), positions[k].0, positions[k].1)
      {
        var node := ReadNode(positions[i].0, positions[i].1);
        if node.Err? {
          return Err(node.error);
        }
        MoreReads(h, leaves, positions, i, siblings, node.value);
        siblings := siblings + [node.value];
      }
      assert positions[..|positions|] == positions;
      return Ok(siblings);
    }

    /** The frontier a multiproof of these slots needs. With it, the true leaves fold to the state root. */
    method ExactFrontierSiblings(touched: seq<nat>, depth: nat) returns (result: Result<seq<StateHash>, FrontierError>)
      requires Valid()
      ensures result.Ok? <==>
              && depth == state.logSlots == roots.logSlots && state.exactDirty == {}
              && utxoRoot == PlainRoot(h, state.Now(), store)
              && SparseMultiproof.Positions(touched, depth)
              && AllReadable(state.Now(), SparseMerkleObject.FrontierPositions(touched, depth, 0))
      ensures result.Ok? ==>
                var leaves := AllLeaves(h, state.Now(), store);
                && result.value == SparseMultiproof.Frontier(h, leaves, touched, depth)
                && SparseMultiproof.Fold(h, touched, SparseMultiproof.Pick(leaves, touched), result.value, depth)
                  == utxoRoot
    {
      hide Pow2, SlotsRoot, MerkleRoot, NumSegments, LogSegment, State.Valid, Sealed, Stored, PlainRoot, Reads,
           AllReadable, AllLeaves, GrownRoots, CacheMatches, TreeOver,
           SparseMultiproof.Positions, SparseMultiproof.Frontier, SparseMultiproof.Fold,
               SparseMerkleObject.FrontierPositions;
      if depth != state.logSlots || roots.logSlots != state.logSlots {
        return Err(DepthMismatch);
      }
      SegmentIds(state.Now());
      if state.exactDirty == {} { RecordRoot(h, state.Now(), store, roots.logSlots, roots.segmentRoots); }
      var root := roots.Root();
      if state.exactDirty != {} || root != utxoRoot {
        return Err(CompactRootMismatch);
      }
      DepthFits(state.Now());
      var valid := SparseMerkleObject.ValidateIndices(touched, depth);
      if valid.Err? {
        return Err(InvalidIndices);
      }
      var positions := SparseMerkleObject.FrontierPositions(touched, depth, 0);
      forall i | 0 <= i < |positions| ensures positions[i].0 <= depth && positions[i].1 < Pow2(depth - positions[i].0) {
        CoordinateInside(touched, depth, 0, depth, i);
      }
      result := ReadNodes(positions);
      if result.Ok? { FrontierFolds(h, state.Now(), store, touched, result.value); }
    }

    // ------------------------------------------------------------------- prediction

    /** The root of one segment with a batch laid over it: from its cached tree if that has the right
        depth, otherwise streamed from its columns. */
    method SegmentRootWithUpdates(seg: SegmentId, log: nat, local: Local) returns (root: StateHash)
      requires state.h == h && state.Valid() && forall loc :: loc in local ==> loc < Pow2(log)
      ensures var columns := if seg < |state.segments| then state.segments[seg] else None;
              root == SlotsRoot(h, log, StreamingRoot.SlotsWith(columns, local, Pow2(log)))
    {
      hide Pow2, SlotsRoot, StreamingRoot.SlotsWith, Entries, RootWithUpdates;
      var cached := state.cache.Get(seg);
      if cached.Some? && cached.value.log == log {
        ghost var columns := CachedColumns(h, state.Now(), state.cache.Value(), seg);
        OverlayIsUpdated(h, log, columns, local);
        EntriesShape(local, Pow2(log));
        return RootWithUpdates(h, log, cached.value.zeros, cached.value.nodes, Entries(local, Pow2(log)));
      }
      var columns := if seg < |state.segments| then state.segments[seg] else None;
      root := StreamingRoot.ExactSegmentRootWithUpdates(h, log, columns, local);
    }

    /** A copy of the recorded roots with every marked segment refreshed, or a marked segment that is evicted. */
    method RefreshedCopy() returns (copy: ExactSegmentRootCache, blocked: Option<nat>)
      requires Valid() && roots.logSlots == state.logSlots
      ensures fresh(copy) && copy.Valid() && copy.h == h && copy.logSlots == state.logSlots
      ensures blocked.None? <==> state.exactDirty * state.evicted == {}
      ensures blocked.Some? ==> blocked.value in state.exactDirty * state.evicted
      ensures blocked.None? ==> copy.segmentRoots == Roots(h, LogSegment(state.logSlots), Contents(state.Now(), store))
    {
      hide Pow2, SlotsRoot, MerkleRoot, NumSegments, State.Valid, Stored, Sealed, StreamingRoot.SlotsWith;
      copy := new ExactSegmentRootCache.Copy(roots);
      SegmentIds(state.Now());
      var left := state.exactDirty;
      while left != {}
        invariant fresh(copy) && copy.Valid() && copy.h == h && copy.logSlots == state.logSlots
        invariant left <= state.exactDirty && (state.exactDirty - left) * state.evicted == {}
        invariant Sealed(h, state.Now(), store, left, copy.segmentRoots)
        decreases left
      {
        var seg :| seg in left;
        if seg in state.evicted {
          assert seg in state.exactDirty * state.evicted;
          return copy, Some(seg);
        }
        var root := SegmentRootWithUpdates(seg, LogSegment(state.logSlots), map[]);
        PlainSlots(state.Now(), seg);
        SealOne(h, state.Now(), store, left, copy.segmentRoots, seg, root);
        copy.SetSegmentRoot(seg, root);
        left := left - {seg};
      }
      SealedIsRoots(h, state.Now(), store, copy.segmentRoots);
      blocked := None;
    }

    /** Record the updated root of every group, or stop at a group whose segment is evicted. */
    method RecordGroups(copy: ExactSegmentRootCache, log: nat, groups: map<nat, Local>) returns (blocked: Option<nat>)
      requires Valid() && state.logSlots <= log <= state.logSlots + 1 && log <= LOG_SLOTS_MAX && copy != roots
      requires copy.Valid() && copy.h == h && copy.logSlots == log
      requires copy.segmentRoots == Roots(h, LogSegment(log), BaseParts(state.Now(), store, log))
      requires GroupsFit(groups, log)
      modifies copy
      ensures copy.Valid() && copy.h == h && copy.logSlots == log
      ensures blocked.None? <==> groups.Keys * state.evicted == {}
      ensures blocked.Some? ==> blocked.value in groups.Keys * state.evicted
      ensures blocked.None? ==>
                var updated := UpdatedParts(BaseParts(state.Now(), store, log), groups);
                Sized(updated, Pow2(LogSegment(log))) && copy.segmentRoots == Roots(h, LogSegment(log), updated)
    {
      hide Pow2, SlotsRoot, MerkleRoot, NumSegments, LogSegment, State.Valid, Stored, Sealed, StreamingRoot.SlotsWith,
           BaseParts, GroupsFit, Sized;
      ghost var parts, low := BaseParts(state.Now(), store, log), LogSegment(log);
      RecordNone(h, low, parts, groups);
      UpdatedSized(parts, Restricted(groups, {}), Pow2(low));
      var left := groups.Keys;
      while left != {}
        invariant copy.Valid() && copy.h == h && copy.logSlots == log && left <= groups.Keys
        invariant (groups.Keys - left) * state.evicted == {}
        invariant Sized(UpdatedParts(parts, Restricted(groups, groups.Keys - left)), Pow2(low))
        invariant copy.segmentRoots == Roots(h, low, UpdatedParts(parts, Restricted(groups, groups.Keys - left)))
        decreases left
      {
        var seg :| seg in left;
        if seg in state.evicted {
          assert seg in groups.Keys * state.evicted;
          return Some(seg);
        }
        GroupFits(groups, log, seg);
        SegmentIdsFit(log);
        var root := SegmentRootWithUpdates(seg, LogSegment(log), groups[seg]);
        PaddedBase(state.Now(), store, log, seg, groups[seg]);
        RecordOne(h, low, parts, groups, groups.Keys - left, seg, root);
        assert groups.Keys - left + {seg} == groups.Keys - (left - {seg});
        copy.SetSegmentRoot(seg, root);
        left := left - {seg};
      }
      assert groups.Keys - {} == groups.Keys;
      UpdatedSized(parts, groups, Pow2(low));
      blocked := None;
    }

    /** The root that applying a batch will give, computed without changing anything. */
    method ExactUtxoRootAfterSlotUpdates(log: nat, updates: Updates)
      returns (result: Result<StateHash, TransitionError>)
      requires Valid() && roots.logSlots == state.logSlots && log <= LOG_SLOTS_MAX
      ensures result.Ok? <==>
              && Predictable(state.Now(), state.exactDirty, log, updates)
              && utxoRoot == PlainRoot(h, state.Now(), store)
      ensures result.Ok? ==> result.value == PredictedRoot(h, state.Now(), store, log, updates)
    {
      hide Pow2, SlotsRoot, MerkleRoot, NumSegments, LogSegment, State.Valid, Stored, Sealed, PlainRoot, BaseParts,
           GroupsFit, Quotient;
      if log < state.logSlots || log > state.logSlots + 1 {
        return Err(HeaderLogSlotsMismatch);
      }
      for i := 0 to |updates|
        invariant forall k :: 0 <= k < i ==> updates[k].0 < Pow2(log)
      {
        if updates[i].0 >= Pow2(log) {
          return Err(IndexOutOfRange);
        }
      }
      var groups := Grouped(Pow2(LogSegment(log)), updates);
      GroupedFit(log, updates);
      var copy, blocked := RefreshedCopy();
      if blocked.Some? {
        return Err(SegmentEvicted(blocked.value));
      }
      RootsTotal(h, state.Now(), store, copy.segmentRoots);
      var root := copy.Root();
      if root != utxoRoot {
        return Err(CachedRootMismatch);
      }
      BaseRoots(h, state.Now(), store, log);
      if log > state.logSlots {
        copy.ExpandOne();
      }
      blocked := RecordGroups(copy, log, groups);
      ReloadedGroups(state.Now(), log, updates);
      if blocked.Some? {
        return Err(SegmentEvicted(blocked.value));
      }
      PredictedTotal(h, state.Now(), store, log, updates, copy.segmentRoots);
      root := copy.Root();
      return Ok(root);
    }

    /** The supply after a batch, from the slots it touches. */
    method SupplyAfterSlotUpdates(log: nat, updates: Updates) returns (result: Option<nat>)
      requires Valid() && state.logSlots <= log <= state.logSlots + 1
      requires forall i :: 0 <= i < |updates| ==> updates[i].0 < Pow2(log)
      ensures Balanced() ==>
                && (result.Some? <==> TouchesResident(state.Now(), updates))
                && (result.Some? ==> result.value == Supply(Flat(UpdatedBase(state.Now(), store, log, updates))))
    {
      hide Pow2, NumSegments, LogSegment, State.Valid, Stored, Sealed, Flat, Supply, Amount, Overlaid, Quotient,
           Remainder, TouchesResident, BaseParts, UpdatedBase, Canonical;
      var canonical := Canonical(updates);
      ghost var slots := BaseFlat(state.Now(), store, log);
      var total: nat := supply;
      OverlaidNone(slots, canonical);
      BaseSupply(state.Now(), store, log);
      CanonicalBelow(updates, Pow2(log));
      var left := canonical.Keys;
      assert canonical.Keys - left == {};
      while left != {}
        invariant left <= canonical.Keys
        invariant Balanced() ==> total == Supply(Overlaid(slots, canonical, canonical.Keys - left))
        invariant forall k :: k in canonical && k !in left ==> SlotResident(state.Now(), k)
        decreases left
      {
        var k :| k in left;
        BaseAt(state.Now(), store, log, k);
        SupplyOneMore(slots, canonical, canonical.Keys - left, k);
        assert canonical.Keys - left + {k} == canonical.Keys - (left - {k});
        var previous := EMPTY;
        if k < Pow2(state.logSlots) {
          var size := Pow2(LogSegment(state.logSlots));
          var seg := Quotient(k, size);
          if seg in state.evicted {
            NotResident(state.Now(), updates, k);
            return None;
          }
          var columns := state.segments[seg];
          previous := if columns.Some? then columns.value[Remainder(k, size)] else EMPTY;
        }
        if total < Amount(previous) {
          return None;
        }
        total := total - Amount(previous) + Amount(canonical[k]);
        left := left - {k};
      }
      assert canonical.Keys - {} == canonical.Keys;
      AllResident(state.Now(), updates);
      UpdatedFlat(state.Now(), store, log, updates);
      return Some(total);
    }

    /** Grow if asked to, then write: the content becomes the predicted one. */
    method GrowAndWrite(log: nat, updates: Updates) returns (completed: bool)
      requires Valid() && roots.logSlots == state.logSlots && log <= LOG_SLOTS_MAX
      requires Predictable(state.Now(), state.exactDirty, log, updates)
      modifies state, state.cache, roots, this`utxoRoot
      ensures completed <==> !(log == old(state.logSlots) + 1 && ExpandAborts(old(state.Now())))
      ensures completed ==> Valid() && state.logSlots == log && state.exactDirty * state.evicted == {}
      ensures completed ==> Transition(old(state.Now()), log, updates, state.Now())
      ensures completed ==> Contents(state.Now(), store) == old(UpdatedBase(state.Now(), store, log, updates))
    {
      hide Pow2, SlotsRoot, MerkleRoot, NumSegments, LogSegment, State.Valid, Stored, Sealed, PlainRoot, UpdatedBase,
           Applied, Expanded, Quotient, UpperHalfFree;
      ghost var before := state.Now();
      if log == state.logSlots + 1 {
        InStepIsFree(h, before, roots.segmentRoots);
        completed := ExpandOne();
        if !completed {
          return;
        }
      }
      ghost var grown := state.Now();
      GrownReloaded(before, log, updates);
      NoneEvicted(before, grown, old(state.exactDirty), state.exactDirty);
      var applied := ApplyDelta(updates);
      PredictionHolds(h, before, store, log, updates, grown, state.Now());
      completed := true;
    }

    /** Apply a batch whose root a verified proof claims: predict, compare, grow, write and refresh. The
        refreshed root is the predicted one. `completed` is false where growing aborts. */
    method ApplyVerifiedExactTransition(log: nat, childRoot: StateHash, updates: Updates, activeSlotCount: nat,
                                        counter: nat,
                                        capacities: Capacities, columnBytes: nat)
      returns (completed: bool, result: Result<StateHash, TransitionError>)
      requires Valid() && roots.logSlots == state.logSlots && log <= LOG_SLOTS_MAX
      requires capacities.nodes >= 2 * Pow2(LogSegment(log)) && capacities.zeros >= LogSegment(log) + 1
      modifies state, state.cache, roots, this`utxoRoot, this`supply, this`activeSlots, this`allocCounter
      ensures completed && old(Balanced()) ==>
                (result.Ok? <==> old(Vetted(log, childRoot, updates)))
      ensures completed && result.Ok? ==>
                && Valid() && Current() && result.value == utxoRoot == childRoot && state.logSlots == log
                && Transition(old(state.Now()), log, updates, state.Now()) && (old(Balanced()) ==> Balanced())
                && activeSlots == activeSlotCount && allocCounter == counter
      ensures completed && result.Err? ==>
                && Valid() && state.Now() == old(state.Now()) && utxoRoot == old(utxoRoot) && supply == old(supply)
                && activeSlots == old(activeSlots) && allocCounter == old(allocCounter)
      ensures !completed ==> log == old(state.logSlots) + 1 && ExpandAborts(old(state.Now()))
    {
      hide Pow2, SlotsRoot, MerkleRoot, NumSegments, LogSegment, State.Valid, Stored, Sealed, PlainRoot, PredictedRoot,
           UpdatedBase,
           Transition, Quotient, Flat, Supply, GrownRoots, Contents, CacheMatches, TreeOver, LogSegment;
      ghost var before := state.Now();
      var after := CheckTransition(log, childRoot, updates);
      if after.Err? {
        return true, Err(after.error);
      }
      completed := GrowAndWrite(log, updates);
      if !completed {
        return false, Ok(childRoot);
      }
      SameContentsSameRoot(h, before, store, log, updates, state.Now());
      var root := TryStateRoot(capacities, columnBytes);
      activeSlots, allocCounter, supply := activeSlotCount, counter, after.value;
      return true, Ok(root.value);
    }

    /** Everything that can refuse a transition, before anything changes. The new supply. */
    method CheckTransition(log: nat, childRoot: StateHash, updates: Updates)
      returns (result: Result<nat, TransitionError>)
      requires Valid() && roots.logSlots == state.logSlots && log <= LOG_SLOTS_MAX
      ensures result.Ok? ==> Vetted(log, childRoot, updates)
      ensures Balanced() && Vetted(log, childRoot, updates) ==>
                result == Ok(Supply(Flat(UpdatedBase(state.Now(), store, log, updates))))
    {
      hide Pow2, SlotsRoot, MerkleRoot, NumSegments, LogSegment, State.Valid, Stored, Sealed, PlainRoot, PredictedRoot,
           UpdatedBase, Flat,
           Supply, Quotient, GrownRoots, Contents, TouchesResident;
      var predicted := ExactUtxoRootAfterSlotUpdates(log, updates);
      if predicted.Err? {
        return Err(predicted.error);
      }
      if predicted.value != childRoot {
        return Err(CachedRootMismatch);
      }
      var after := SupplyAfterSlotUpdates(log, updates);
      PredictableIsResident(state.Now(), log, updates);
      if after.None? {
        return Err(SupplyInvariant);
      }
      return Ok(after.value);
    }

    /** The batch fits, what it reads is in memory, the root is current, and the claimed one is the predicted one. */
    ghost predicate Vetted(log: nat, childRoot: StateHash, updates: Updates)
      requires Valid()
      reads this, state, state.cache, roots
    {
      && Predictable(state.Now(), state.exactDirty, log, updates)
      && utxoRoot == PlainRoot(h, state.Now(), store)
      && childRoot == PredictedRoot(h, state.Now(), store, log, updates)
    }
  }
}
