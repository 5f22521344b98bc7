/** What the chain state's operations rest on: which columns may be restored, what a predicted batch gives,
    which nodes a frontier can read, and what a batch does to the supply.
 */
module StateTransition {
  import opened Wrappers
  import opened Powers
  import opened ExactStateHash
  import opened SegmentTree
  import opened SegmentTreeObject
  import opened SegmentCache
  import opened SegmentedState
  import opened SegmentedResize
  import opened StateRoots
  import opened StateContents
  import opened StateUpdates
  import opened StateSupply
  import opened StateFrontier
  import StreamingRoot
  import BinaryTree
  import SparseMultiproof
  import SparseMerkleObject

  // ------------------------------------------------------------------- applying a batch

  ghost predicate Transition(before: State, log: nat, updates: Updates, st: State) {
    && before.Valid() && st.Valid() && |before.segments| >= 1
    && (log == before.logSlots ==> Applied(before, updates, st))
    && (log == before.logSlots + 1 ==>
          !ExpandAborts(before) && Expanded(before).Valid() && Applied(Expanded(before), updates, st))
  }

  ghost function Grown(st: State, log: nat): State
    requires |st.segments| >= 1 && (log == st.logSlots + 1 ==> !ExpandAborts(st))
  {
    if log == st.logSlots + 1 then Expanded(st) else st
  }

  lemma {:induction false} GrownReloaded(st: State, log: nat, updates: Updates)
    requires st.Valid() && st.logSlots <= log <= st.logSlots + 1 && log <= LOG_SLOTS_MAX
    requires (log == st.logSlots + 1 ==> !ExpandAborts(st))
    requires Predictable(st, {}, log, updates)
    ensures |st.segments| >= 1 && Grown(st, log).Valid() && Grown(st, log).logSlots == log
    ensures Grown(st, log).evicted == st.evicted
    ensures Reloaded(Grown(st, log), updates)
  {
    if log == st.logSlots + 1 { ExpandedValid(st); }
    hide Pow2, Quotient, NumSegments;
  }

  lemma {:induction false} PredictionHolds(h: Hasher, st: State, store: Store, log: nat, updates: Updates, grown: State,
                                           st': State)
    requires st.Valid() && Stored(st, store) && st.logSlots <= log <= st.logSlots + 1 && log <= LOG_SLOTS_MAX
    requires (log == st.logSlots + 1 ==> !ExpandAborts(st))
    requires |st.segments| >= 1 && grown == Grown(st, log) && grown.Valid() && Stored(grown, store)
    requires Reloaded(grown, updates)
    requires st'.Valid() && Stored(st', store) && Applied(grown, updates, st')
    ensures st'.logSlots == log && PlainRoot(h, st', store) == PredictedRoot(h, st, store, log, updates)
    ensures Contents(st', store) == UpdatedBase(st, store, log, updates)
  {
    hide Pow2, SlotsRoot, NumSegments, LogSegment, Applied, Expanded, Flat, Reloaded;
    AppliedContents(grown, st', store, updates);
    SameWidth(grown, st', updates);
    if log == st.logSlots + 1 {
      WiderContents(st, store);
      ExpandedDepth(st);
    }
  }

  lemma {:induction false} SameContentsSameRoot(h: Hasher, st: State, store: Store, log: nat, updates: Updates,
                                                st': State)
    requires st.Valid() && Stored(st, store) && st.logSlots <= log <= st.logSlots + 1 && st'.Valid()
    requires Stored(st', store) && st'.logSlots == log
    requires Contents(st', store) == UpdatedBase(st, store, log, updates)
    ensures PlainRoot(h, st', store) == PredictedRoot(h, st, store, log, updates)
  {
    hide UpdatedBase, SlotsRoot, Flat, Pow2;
  }

  lemma {:induction false} PredictableIsResident(st: State, log: nat, updates: Updates)
    requires st.Valid() && Predictable(st, {}, log, updates)
    ensures TouchesResident(st, updates)
  {
    hide Pow2, Quotient, NumSegments;
    forall i | 0 <= i < |updates| ensures SlotResident(st, updates[i].0) {
      if st.logSlots + 1 <= LOG_SEGMENT_SIZE && log == st.logSlots + 1 && updates[i].0 < Pow2(st.logSlots) {
        FirstSegment(st.logSlots, updates[i].0);
      }
    }
  }

  lemma {:induction false} FirstSegment(logSlots: nat, idx: nat)
    requires logSlots + 1 <= LOG_SEGMENT_SIZE && idx < Pow2(logSlots)
    ensures Quotient(idx, Pow2(LogSegment(logSlots))) == 0 && Quotient(idx, Pow2(LogSegment(logSlots + 1))) == 0
  {
    hide Quotient, Pow2;
    Pow2Doubles(logSlots);
    SameQuotient(idx, Pow2(logSlots), 0);
    SameQuotient(idx, Pow2(logSlots + 1), 0);
  }

  lemma {:induction false} NoneEvicted(before: State, grown: State, dirty: set<nat>, dirty': set<nat>)
    requires dirty * before.evicted == {} && grown.evicted == before.evicted
    requires dirty' <= dirty || (dirty' == dirty + {0} && 0 !in before.evicted)
    ensures dirty' * grown.evicted == {}
  {
  }

  // ----------------------------------------------------------------- restoring a segment

  /** Columns of the right size whose live count and root are the recorded ones. */
  ghost predicate Authentic(h: Hasher, st: State, roots: seq<StateHash>, seg: nat, columns: seq<SlotValue>) {
    && seg < |roots| && |columns| == Pow2(LogSegment(st.logSlots))
    && CountLive(columns) == (if seg < |st.live| then st.live[seg] else 0)
    && roots[seg] == SlotsRoot(h, LogSegment(st.logSlots), columns)
  }

  lemma {:induction false} RootOfTree(h: Hasher, log: nat, columns: seq<SlotValue>)
    requires |columns| == Pow2(log)
    ensures |FreshNodes(h, columns)| == 2 * Pow2(log) && |ZeroRoots(h, log)| == log + 1
    ensures FreshNodes(h, columns)[1] == SlotsRoot(h, log, columns)
  {
    RootHeadsTree(h, log, HashLeaves(h, columns));
  }

  lemma {:induction false} RestoredContents(before: State, st: State, store: Store, seg: nat, columns: seq<SlotValue>)
    requires before.Valid() && st.Valid() && Stored(before, store) && st.logSlots == before.logSlots
    requires seg < |st.segments| == |before.segments|
    requires seg !in st.evicted && st.Slots(seg) == columns
    requires forall s :: 0 <= s < |st.segments| && s != seg ==>
               st.Slots(s) == before.Slots(s) && (s in st.evicted <==> s in before.evicted)
    ensures Stored(st, store) && Contents(st, store) == Contents(before, store)[seg := columns]
  {
    hide Pow2, NumSegments, LogSegment, CountLive;
  }

  lemma {:induction false} RestoredSealed(h: Hasher, before: State, st: State, store: Store, dirty: set<nat>,
                                          roots: seq<StateHash>, seg: nat, columns: seq<SlotValue>)
    requires before.Valid() && st.Valid() && Stored(before, store) && Stored(st, store)
    requires Sealed(h, before, store, dirty, roots)
    requires seg < |before.segments| && |columns| == Pow2(LogSegment(st.logSlots))
    requires seg in dirty || (seg < |roots| && roots[seg] == SlotsRoot(h, LogSegment(st.logSlots), columns))
    requires st.logSlots == before.logSlots && Contents(st, store) == Contents(before, store)[seg := columns]
    ensures Sealed(h, st, store, dirty, roots)
  {
    hide Pow2, NumSegments, LogSegment, CountLive, SlotsRoot;
    forall s | 0 <= s < |st.segments| && s != seg ensures Content(st, store, s) == Content(before, store, s) {
      assert Contents(st, store)[s] == Contents(before, store)[s];
    }
    assert Contents(st, store)[seg] == columns;
  }

  ghost function PairAt(nodes: seq<StateHash>, k: nat): BinaryTree.Pair<StateHash>
    requires 2 * k + 1 < |nodes|
  {
    BinaryTree.Pair(nodes[2 * k], nodes[2 * k + 1])
  }

  /** Slots under one root are the same slots; otherwise the two trees collide at node `k`, or two slots
      have one leaf hash at position `k`. So columns that pass the check are those that were evicted. */
  lemma {:induction false} SegmentBinds(h: Hasher, log: nat, xs: seq<SlotValue>, ys: seq<SlotValue>) returns (k: nat)
    requires |xs| == |ys| == Pow2(log) && SlotsRoot(h, log, xs) == SlotsRoot(h, log, ys)
    ensures || xs == ys
            || (k < |xs| && xs[k] != ys[k] && h.leaf(xs[k]) == h.leaf(ys[k]))
            || (1 <= k < |xs| && BinaryTree.Collision(h.node, PairAt(FreshNodes(h, xs), k),
                                                      PairAt(FreshNodes(h, ys), k)))
  {
    RootOfTree(h, log, xs);
    RootOfTree(h, log, ys);
    hide SlotsRoot, FreshNodes, Pow2, BinaryTree.Collision;
    var a, b, n := FreshNodes(h, xs), FreshNodes(h, ys), |xs|;
    k := 1;
    while k < n && PairAt(a, k) == PairAt(b, k)
      invariant 1 <= k <= n && forall j :: 1 <= j < 2 * k ==> a[j] == b[j]
    {
      k := k + 1;
    }
    if k < n {
      PairsCollide(h, xs, ys, k);
    } else {
      assert a[1..] == b[1..];
      k := SlotsCollide(h, xs, ys);
    }
  }

  lemma {:induction false} PairsCollide(h: Hasher, xs: seq<SlotValue>, ys: seq<SlotValue>, k: nat)
    requires |xs| == |ys| && 1 <= k < |xs| && FreshNodes(h, xs)[k] == FreshNodes(h, ys)[k]
    requires PairAt(FreshNodes(h, xs), k) != PairAt(FreshNodes(h, ys), k)
    ensures BinaryTree.Collision(h.node, PairAt(FreshNodes(h, xs), k), PairAt(FreshNodes(h, ys), k))
  {
    NodesObeyLocalRules(h, HashLeaves(h, xs));
    NodesObeyLocalRules(h, HashLeaves(h, ys));
    hide FreshNodes;
    assert NodeOk(h, FreshNodes(h, xs), k) && NodeOk(h, FreshNodes(h, ys), k);
  }

  lemma {:induction false} SlotsCollide(h: Hasher, xs: seq<SlotValue>, ys: seq<SlotValue>) returns (k: nat)
    requires |xs| == |ys| >= 1 && FreshNodes(h, xs)[1..] == FreshNodes(h, ys)[1..]
    ensures xs == ys || (k < |xs| && xs[k] != ys[k] && h.leaf(xs[k]) == h.leaf(ys[k]))
  {
    NodesObeyLocalRules(h, HashLeaves(h, xs));
    NodesObeyLocalRules(h, HashLeaves(h, ys));
    hide FreshNodes;
    k := 0;
    while k < |xs| && xs[k] == ys[k]
      invariant k <= |xs| && xs[..k] == ys[..k]
    {
      k := k + 1;
    }
    if k < |xs| {
      var n := |xs|;
      assert FreshNodes(h, xs)[n..][k] == FreshNodes(h, xs)[1..][n - 1 + k];
      assert FreshNodes(h, ys)[n..][k] == FreshNodes(h, ys)[1..][n - 1 + k];
    }
  }

  // ------------------------------------------------------------------ predicting a batch

  ghost predicate GroupsFit(groups: map<nat, Local>, log: nat) {
    forall seg :: seg in groups ==>
      seg < NumSegments(log) && forall loc :: loc in groups[seg] ==> loc < Pow2(LogSegment(log))
  }

  lemma {:induction false} GroupFits(groups: map<nat, Local>, log: nat, seg: nat)
    requires GroupsFit(groups, log) && seg in groups
    ensures seg < NumSegments(log) && forall loc :: loc in groups[seg] ==> loc < Pow2(LogSegment(log))
  {
    hide Pow2, NumSegments, LogSegment;
  }

  lemma {:induction false} GroupedFit(log: nat, updates: Updates)
    requires forall k :: 0 <= k < |updates| ==> updates[k].0 < Pow2(log)
    ensures GroupsFit(Grouped(Pow2(LogSegment(log)), updates), log)
  {
    hide Pow2, NumSegments, LogSegment, Quotient, Grouped;
    var size := Pow2(LogSegment(log));
    var groups := Grouped(size, updates);
    SegmentsCoverSlots(log);
    forall seg | seg in groups ensures seg < NumSegments(log) && forall loc :: loc in groups[seg] ==> loc < size {
      GroupedKeys(size, updates, seg);
      var i :| 0 <= i < |updates| && Quotient(updates[i].0, size) == seg;
      QuotientBound(updates[i].0, NumSegments(log), size);
    }
  }

  /** What a caller can check before predicting: the depth, the indices, and that nothing involved is evicted. */
  ghost predicate Predictable(st: State, dirty: set<nat>, log: nat, updates: Updates) {
    && st.logSlots <= log <= st.logSlots + 1
    && (forall i :: 0 <= i < |updates| ==> updates[i].0 < Pow2(log))
    && dirty * st.evicted == {}
    && (forall i :: 0 <= i < |updates| ==> Quotient(updates[i].0, Pow2(LogSegment(log))) !in st.evicted)
  }

  /** The domain with the batch laid over it. */
  ghost function UpdatedBase(st: State, store: Store, log: nat, updates: Updates): (parts: seq<seq<SlotValue>>)
    requires st.Valid() && Stored(st, store) && st.logSlots <= log <= st.logSlots + 1
    ensures |parts| == NumSegments(log) && Sized(parts, Pow2(LogSegment(log)))
  {
    UpdatedSized(BaseParts(st, store, log), Grouped(Pow2(LogSegment(log)), updates), Pow2(LogSegment(log)));
    UpdatedParts(BaseParts(st, store, log), Grouped(Pow2(LogSegment(log)), updates))
  }

  ghost function PredictedRoot(h: Hasher, st: State, store: Store, log: nat, updates: Updates): StateHash
    requires st.Valid() && Stored(st, store) && st.logSlots <= log <= st.logSlots + 1
  {
    DomainSize(log, UpdatedBase(st, store, log, updates));
    SlotsRoot(h, log, Flat(UpdatedBase(st, store, log, updates)))
  }

  lemma {:induction false} PredictedTotal(h: Hasher, st: State, store: Store, log: nat, updates: Updates,
                                          roots: seq<StateHash>)
    requires st.Valid() && Stored(st, store) && st.logSlots <= log <= st.logSlots + 1
    requires roots == Roots(h, LogSegment(log), UpdatedBase(st, store, log, updates))
    ensures |roots| == Pow2(UpperDepth(log))
    ensures MerkleRoot(h, UpperDepth(log), roots) == PredictedRoot(h, st, store, log, updates)
  {
    hide Pow2, SlotsRoot, MerkleRoot, UpdatedBase;
    SegmentCount(log);
    RootOfRoots(h, UpperDepth(log), LogSegment(log), UpdatedBase(st, store, log, updates));
  }

  lemma {:induction false} RootsTotal(h: Hasher, st: State, store: Store, roots: seq<StateHash>)
    requires st.Valid() && Stored(st, store) && roots == Roots(h, LogSegment(st.logSlots), Contents(st, store))
    ensures |roots| == Pow2(UpperDepth(st.logSlots))
    ensures MerkleRoot(h, UpperDepth(st.logSlots), roots) == PlainRoot(h, st, store)
  {
    hide Pow2, SlotsRoot, MerkleRoot, LogSegment;
    SegmentCount(st.logSlots);
    RootOfRoots(h, UpperDepth(st.logSlots), LogSegment(st.logSlots), Contents(st, store));
  }

  lemma {:induction false} BaseRoots(h: Hasher, st: State, store: Store, log: nat)
    requires st.Valid() && Stored(st, store) && st.logSlots <= log <= st.logSlots + 1
    ensures var roots := Roots(h, LogSegment(st.logSlots), Contents(st, store));
            && |roots| == NumSegments(st.logSlots)
            && Roots(h, LogSegment(log), BaseParts(st, store, log))
              == if log == st.logSlots then roots else ExpandedRoots(h, st.logSlots, roots)
  {
    hide Pow2, SlotsRoot, LogSegment, NumSegments, ExpandedRoots, WiderParts;
    SegmentIds(st);
    WiderRoots(h, st.logSlots, Contents(st, store));
  }

  lemma {:induction false} ReloadedGroups(st: State, log: nat, updates: Updates)
    ensures Grouped(Pow2(LogSegment(log)), updates).Keys * st.evicted == {} <==>
            forall i :: 0 <= i < |updates| ==> Quotient(updates[i].0, Pow2(LogSegment(log))) !in st.evicted
  {
    hide Pow2, LogSegment, Quotient, Grouped;
    var size := Pow2(LogSegment(log));
    var groups := Grouped(size, updates);
    if groups.Keys * st.evicted == {} {
      forall i | 0 <= i < |updates| ensures Quotient(updates[i].0, size) !in st.evicted {
        GroupedKeys(size, updates, Quotient(updates[i].0, size));
        assert Quotient(updates[i].0, size) !in groups.Keys * st.evicted;
      }
    }
    if forall i :: 0 <= i < |updates| ==> Quotient(updates[i].0, size) !in st.evicted {
      forall seg | seg in groups ensures seg !in st.evicted {
        GroupedKeys(size, updates, seg);
      }
    }
  }

  /** A cached tree was built from the columns its segment holds. */
  lemma {:induction false} CachedColumns(h: Hasher, st: State, c: Cache, seg: SegmentId)
    returns (columns: seq<SlotValue>)
    requires CacheMatches(h, st, c) && Lookup(c, seg).Some?
    ensures seg < |st.segments| && st.segments[seg] == Some(columns) && Lookup(c, seg).value.Commits(h, columns)
  {
    hide Pow2, FreshNodes, ZeroRoots;
    assert c.entries[Position(c.entries, seg)] in c.entries;
    columns := st.segments[seg].value;
  }

  lemma {:induction false} PlainSlots(st: State, seg: nat)
    requires st.Valid() && seg < |st.segments|
    ensures |st.Slots(seg)| == st.Size()
    ensures StreamingRoot.SlotsWith(st.segments[seg], map[], Pow2(LogSegment(st.logSlots))) == st.Slots(seg)
  {
    hide Pow2, CountLive, StreamingRoot.SlotsWith;
    assert st.SegmentOk(seg);
  }

  lemma {:induction false} SealedIsRoots(h: Hasher, st: State, store: Store, roots: seq<StateHash>)
    requires st.Valid() && Stored(st, store) && Sealed(h, st, store, {}, roots) && |roots| == |st.segments|
    ensures roots == Roots(h, LogSegment(st.logSlots), Contents(st, store))
  {
    hide SlotsRoot, Pow2;
  }

  // ---------------------------------------------------------------- reading the frontier

  /** The leaf hash of every slot of the domain. */
  ghost function AllLeaves(h: Hasher, st: State, store: Store): (leaves: seq<StateHash>)
    requires st.Valid() && Stored(st, store)
    ensures |leaves| == Pow2(st.logSlots)
  {
    DomainSize(st.logSlots, Contents(st, store));
    HashLeaves(h, Flat(Contents(st, store)))
  }

  /** A node above the segments, or inside one that is in memory. */
  ghost predicate NodeReadable(st: State, level: nat, index: nat) {
    level < LogSegment(st.logSlots) ==> Quotient(index, Pow2(LogSegment(st.logSlots) - level)) !in st.evicted
  }

  ghost predicate AllReadable(st: State, positions: seq<(nat, nat)>) {
    forall i :: 0 <= i < |positions| ==> NodeReadable(st, positions[i].0, positions[i].1)
  }

  lemma {:induction false} SegmentOfNode(st: State, level: nat, index: nat)
    requires st.Valid() && level < LogSegment(st.logSlots) && index < Pow2(st.logSlots - level)
    ensures var width := Pow2(LogSegment(st.logSlots) - level);
            && Quotient(index, width) < |st.segments|
            && Inside(level, Remainder(index, width), Pow2(LogSegment(st.logSlots)))
            && index == Times(Quotient(index, width), width) + Remainder(index, width)
  {
    hide Pow2, Quotient, Remainder;
    var low, up := LogSegment(st.logSlots), UpperDepth(st.logSlots);
    SegmentCount(st.logSlots);
    SegmentIds(st);
    Pow2Adds(up, low - level);
    QuotientBound(index, |st.segments|, Pow2(low - level));
    NodeInside(low, level, Remainder(index, Pow2(low - level)));
  }

  lemma {:induction false} TreeNodeIs(h: Hasher, low: nat, columns: seq<SlotValue>, level: nat, local: nat)
    requires |columns| == Pow2(low) && Inside(level, local, Pow2(low))
    ensures SubtreeRoot(low, FreshNodes(h, columns), level, local)
         == Some(SlotsRoot(h, level, columns[From(level, local)..From(level, local) + Pow2(level)]))
  {
    hide Pow2, FreshNodes, SubtreeRoot, MerkleRoot;
    Next(local, Pow2(level));
    SubtreeRootIsSliceRoot(h, low, columns, level, local);
    RootOfTree(h, level, Slice(columns, level, local));
  }

  lemma {:induction false} CachedNode(h: Hasher, st: State, c: Cache, seg: SegmentId, level: nat, local: nat)
    requires st.Valid() && CacheMatches(h, st, c) && Lookup(c, seg).Some? && seg < |st.segments|
    requires |st.Slots(seg)| == Pow2(LogSegment(st.logSlots))
    requires Inside(level, local, Pow2(LogSegment(st.logSlots)))
    ensures var tree, low := Lookup(c, seg).value, LogSegment(st.logSlots);
            && |tree.nodes| == 2 * Pow2(low)
            && SubtreeRoot(low, tree.nodes, level, local)
              == Some(SlotsRoot(h, level, st.Slots(seg)[From(level, local)..From(level, local) + Pow2(level)]))
  {
    hide Pow2, FreshNodes, ZeroRoots, SlotsRoot, SubtreeRoot, CacheMatches, Inside, From, LogSegment, NumSegments,
         CountLive;
    var columns := CachedColumns(h, st, c, seg);
    TreeNodeIs(h, LogSegment(st.logSlots), columns, level, local);
  }

  lemma {:induction false} DepthFits(st: State)
    requires st.Valid()
    ensures st.logSlots <= 32 == SparseMerkleObject.MAX_DEPTH
  {
  }

  lemma {:induction false} NoReads(h: Hasher, leaves: seq<StateHash>, positions: seq<(nat, nat)>)
    ensures Reads(h, leaves, positions[..0], [])
  {
  }

  lemma {:induction false} MoreReads(h: Hasher, leaves: seq<StateHash>, positions: seq<(nat, nat)>, i: nat,
                                     siblings: seq<StateHash>, node: StateHash)
    requires i < |positions| && Reads(h, leaves, positions[..i], siblings)
    requires Inside(positions[i].0, positions[i].1, |leaves|)
    requires node == NodeRoot(h, leaves, positions[i].0, positions[i].1)
    ensures Reads(h, leaves, positions[..i + 1], siblings + [node])
  {
    hide NodeRoot, Inside;
    assert positions[..i + 1] == positions[..i] + [positions[i]];
  }

  /** The nodes read are the honest frontier, and with the true leaves it folds to the plain root. */
  lemma {:induction false} FrontierFolds(h: Hasher, st: State, store: Store, touched: seq<nat>,
                                         siblings: seq<StateHash>)
    requires st.Valid() && Stored(st, store) && SparseMultiproof.Positions(touched, st.logSlots)
    requires Reads(h, AllLeaves(h, st, store), SparseMerkleObject.FrontierPositions(touched, st.logSlots, 0), siblings)
    ensures var leaves := AllLeaves(h, st, store);
            && siblings == SparseMultiproof.Frontier(h, leaves, touched, st.logSlots)
            && SparseMultiproof.Fold(h, touched, SparseMultiproof.Pick(leaves, touched), siblings, st.logSlots)
              == PlainRoot(h, st, store)
  {
    hide Pow2, MerkleRoot, SparseMultiproof.Frontier, SparseMultiproof.Fold, Reads, Flat, State.Valid, Stored;
    var leaves := AllLeaves(h, st, store);
    NoLevels(h, leaves);
    ReadsAreFrontier(h, leaves, st.logSlots, 0, st.logSlots, touched, siblings);
    SparseMultiproof.FoldOfPlain(h, leaves, touched, st.logSlots);
  }

  // ----------------------------------------------------------------------------- supply

  lemma {:induction false} FreshSlots(st: State)
    requires st.Valid() && st.evicted == {}
    requires forall s :: 0 <= s < |st.segments| ==> st.Slots(s) == ZeroSlots(Pow2(LogSegment(st.logSlots)))
    ensures Flat(Contents(st, map[])) == ZeroSlots(Pow2(st.logSlots))
  {
    SegmentIds(st);
    hide Pow2, Flat, NumSegments, LogSegment, CountLive;
    var parts, size := Contents(st, map[]), Pow2(LogSegment(st.logSlots));
    forall i | 0 <= i < |parts| ensures parts[i] == ZeroSlots(size) {
    }
    FlatZeros(parts, size);
    DomainSize(st.logSlots, parts);
  }

  /** A batch on a domain with nothing evicted leaves the last write to every slot. */
  lemma {:induction false} SlotAfter(before: State, st: State, store: Store, deltas: Updates, idx: nat)
    requires before.Valid() && st.Valid() && Stored(before, store) && Stored(st, store) && before.evicted == {}
    requires st.evicted == {}
    requires Applied(before, deltas, st) && idx < Pow2(st.logSlots)
    ensures |Flat(Contents(before, store))| == |Flat(Contents(st, store))| == Pow2(st.logSlots)
    ensures Flat(Contents(st, store))[idx] == LastWrite(Flat(Contents(before, store))[idx], deltas, idx)
  {
    hide Pow2, Flat, Quotient, Remainder, NumSegments, CountLive, Contents, LastWrite;
    SlotIs(before, store, idx);
    SlotIs(st, store, idx);
  }

  lemma {:induction false} ExpandedSupply(st: State, store: Store)
    requires st.Valid() && Stored(st, store) && !ExpandAborts(st) && st.logSlots < LOG_SLOTS_MAX
    ensures Expanded(st).Valid() && Stored(Expanded(st), store)
    ensures Flat(Contents(Expanded(st), store)) == Flat(Contents(st, store)) + ZeroSlots(Pow2(st.logSlots))
    ensures Supply(Flat(Contents(Expanded(st), store))) == Supply(Flat(Contents(st, store)))
  {
    WiderContents(st, store);
    SegmentIds(st);
    hide Pow2, Flat, Supply, NumSegments, LogSegment, Expanded;
    WiderFlat(st.logSlots, Contents(st, store));
    SupplyConcat(Flat(Contents(st, store)), ZeroSlots(Pow2(st.logSlots)));
    SupplyOfZeros(Pow2(st.logSlots));
  }

  /** A slot of the whole domain is the slot of its segment. */
  lemma {:induction false} SlotIs(st: State, store: Store, idx: nat)
    requires st.Valid() && Stored(st, store) && idx < Pow2(st.logSlots)
    ensures |Flat(Contents(st, store))| == Pow2(st.logSlots) && SegmentOf(st, idx) < |st.segments|
    ensures Flat(Contents(st, store))[idx] == Content(st, store, SegmentOf(st, idx))[LocalOf(st, idx)]
  {
    SegmentIds(st);
    hide Pow2, Flat, Quotient, Remainder, NumSegments, CountLive, Content, State.Valid;
    DomainSize(st.logSlots, Contents(st, store));
    IndexInside(st, idx);
    FlatAt(Contents(st, store), st.Size(), SegmentOf(st, idx), LocalOf(st, idx));
  }

  /** A narrower domain holds the first slots of the wider one, evicted ones included. */
  lemma {:induction false} NarrowedSlots(before: State, st: State, store: Store, dirty: set<nat>, dirty': set<nat>)
    requires before.Valid() && st.Valid() && Stored(before, store) && Stored(st, store)
    requires Narrows(before, st) && Prefixed(before, st, dirty, dirty')
    ensures |Flat(Contents(before, store))| == Pow2(before.logSlots) >= Pow2(st.logSlots)
    ensures Flat(Contents(st, store)) == Flat(Contents(before, store))[..Pow2(st.logSlots)]
  {
    SegmentIds(before);
    SegmentIds(st);
    hide Pow2, Flat, Quotient, Remainder, NumSegments, CountLive, Content, State.Valid, Prefixed;
    Pow2Monotone(st.logSlots, before.logSlots);
    DomainSize(before.logSlots, Contents(before, store));
    DomainSize(st.logSlots, Contents(st, store));
    forall idx: nat | idx < Pow2(st.logSlots)
      ensures Flat(Contents(st, store))[idx] == Flat(Contents(before, store))[idx] {
      assert SameSlot(before, st, idx);
      SlotIs(before, store, idx);
      SlotIs(st, store, idx);
      NarrowedContent(before, st, store, dirty, dirty', idx);
    }
  }

  lemma {:induction false} NarrowedContent(before: State, st: State, store: Store, dirty: set<nat>, dirty': set<nat>,
                                           idx: nat)
    requires before.Valid() && st.Valid() && Stored(before, store) && Stored(st, store)
    requires SameSlot(before, st, idx) && Prefixed(before, st, dirty, dirty')
    ensures Content(st, store, SegmentOf(st, idx))[LocalOf(st, idx)]
         == Content(before, store, SegmentOf(before, idx))[LocalOf(before, idx)]
  {
    hide Pow2, Quotient, Remainder, NumSegments, CountLive, State.Slots;
  }

  /** Dropping clear slots keeps the supply. */
  lemma {:induction false} NarrowedSupply(before: State, st: State, store: Store, dirty: set<nat>, dirty': set<nat>)
    requires before.Valid() && st.Valid() && Stored(before, store) && Stored(st, store)
    requires Narrows(before, st) && Prefixed(before, st, dirty, dirty') && ClearFrom(before, Pow2(st.logSlots))
    ensures Supply(Flat(Contents(st, store))) == Supply(Flat(Contents(before, store)))
  {
    hide Pow2, Flat, Quotient, Remainder, NumSegments, CountLive, Content, State.Valid, Prefixed, Narrows, Supply,
         Contents;
    NarrowedSlots(before, st, store, dirty, dirty');
    var slots, n := Flat(Contents(before, store)), Pow2(st.logSlots);
    forall idx: nat | n <= idx < |slots| ensures slots[idx] == EMPTY {
      assert ClearAt(before, idx);
      SlotIs(before, store, idx);
      ResidentContent(before, store, SegmentOf(before, idx));
    }
    assert slots[n..] == ZeroSlots(|slots| - n);
    assert slots == slots[..n] + slots[n..];
    SupplyConcat(slots[..n], slots[n..]);
    SupplyOfZeros(|slots| - n);
  }

  lemma {:induction false} ResidentContent(st: State, store: Store, s: nat)
    requires st.Valid() && Stored(st, store) && s < |st.segments| && s !in st.evicted
    ensures Content(st, store, s) == st.Slots(s)
  {
  }

  /** A slot beyond the domain, or in a segment that is in memory. */
  ghost predicate SlotResident(st: State, idx: nat) {
    idx < Pow2(st.logSlots) ==> SegmentOf(st, idx) !in st.evicted
  }

  ghost predicate TouchesResident(st: State, updates: Updates) {
    forall i :: 0 <= i < |updates| ==> SlotResident(st, updates[i].0)
  }

  ghost function BaseFlat(st: State, store: Store, log: nat): (slots: seq<SlotValue>)
    requires st.Valid() && Stored(st, store) && st.logSlots <= log <= st.logSlots + 1
    ensures |slots| == Pow2(log)
  {
    DomainSize(log, BaseParts(st, store, log));
    Flat(BaseParts(st, store, log))
  }

  lemma {:induction false} BaseFlatIs(st: State, store: Store, log: nat)
    requires st.Valid() && Stored(st, store) && st.logSlots <= log <= st.logSlots + 1
    ensures |Flat(Contents(st, store))| == Pow2(st.logSlots)
    ensures BaseFlat(st, store, log)
         == Flat(Contents(st, store)) + if log == st.logSlots then [] else ZeroSlots(Pow2(st.logSlots))
  {
    SegmentIds(st);
    hide Pow2, Flat, NumSegments, LogSegment, WiderParts;
    DomainSize(st.logSlots, Contents(st, store));
    WiderFlat(st.logSlots, Contents(st, store));
  }

  lemma {:induction false} BaseSupply(st: State, store: Store, log: nat)
    requires st.Valid() && Stored(st, store) && st.logSlots <= log <= st.logSlots + 1
    ensures Supply(BaseFlat(st, store, log)) == Supply(Flat(Contents(st, store)))
  {
    hide Pow2, Flat, Supply, BaseFlat;
    BaseFlatIs(st, store, log);
    SupplyConcat(Flat(Contents(st, store)), ZeroSlots(Pow2(st.logSlots)));
    SupplyOfZeros(Pow2(st.logSlots));
    if log == st.logSlots { assert BaseFlat(st, store, log) == Flat(Contents(st, store)); }
  }

  /** What a slot of the base reads as: empty beyond the domain, else what its segment holds. */
  lemma {:induction false} BaseAt(st: State, store: Store, log: nat, k: nat)
    requires st.Valid() && Stored(st, store) && st.logSlots <= log <= st.logSlots + 1 && k < Pow2(log)
    ensures k >= Pow2(st.logSlots) ==> BaseFlat(st, store, log)[k] == EMPTY
    ensures k < Pow2(st.logSlots) ==>
              var size := Pow2(LogSegment(st.logSlots));
              var seg, loc := Quotient(k, size), Remainder(k, size);
              && seg < |st.segments| && (st.segments[seg].Some? ==> |st.segments[seg].value| == size)
              && (seg !in st.evicted ==>
                    BaseFlat(st, store, log)[k]
                      == if st.segments[seg].Some? then st.segments[seg].value[loc] else EMPTY)
  {
    hide Pow2, Flat, BaseFlat, Quotient, Remainder, NumSegments, CountLive;
    BaseFlatIs(st, store, log);
    if k < Pow2(st.logSlots) {
      IndexInside(st, k);
      var seg, loc := SegmentOf(st, k), LocalOf(st, k);
      assert st.SegmentOk(seg);
      FlatAt(Contents(st, store), st.Size(), seg, loc);
    }
  }

  lemma {:induction false} CanonicalBelow(updates: Updates, bound: nat)
    requires forall i :: 0 <= i < |updates| ==> updates[i].0 < bound
    ensures forall k :: k in Canonical(updates) ==> k < bound
  {
    hide Canonical;
    forall k | k in Canonical(updates) ensures k < bound {
      CanonicalKeys(updates, k);
    }
  }

  lemma {:induction false} NotResident(st: State, updates: Updates, k: nat)
    requires k in Canonical(updates) && k < Pow2(st.logSlots) && SegmentOf(st, k) in st.evicted
    ensures !TouchesResident(st, updates)
  {
    hide Canonical, Pow2, SegmentOf;
    CanonicalKeys(updates, k);
    var i :| 0 <= i < |updates| && updates[i].0 == k;
    assert !SlotResident(st, updates[i].0);
  }

  lemma {:induction false} AllResident(st: State, updates: Updates)
    requires forall k :: k in Canonical(updates) ==> SlotResident(st, k)
    ensures TouchesResident(st, updates)
  {
    hide Canonical, SlotResident;
    forall i | 0 <= i < |updates| ensures SlotResident(st, updates[i].0) {
      CanonicalKeys(updates, updates[i].0);
    }
  }

  lemma {:induction false} UpdatedFlat(st: State, store: Store, log: nat, updates: Updates)
    requires st.Valid() && Stored(st, store) && st.logSlots <= log <= st.logSlots + 1
    ensures Flat(UpdatedBase(st, store, log, updates))
         == StreamingRoot.SlotsWith(Some(BaseFlat(st, store, log)), Canonical(updates), Pow2(log))
  {
    hide Pow2, Flat, Grouped, Canonical, LogSegment, NumSegments;
    FlatUpdated(BaseParts(st, store, log), Pow2(LogSegment(log)), updates);
  }
}
