/** Where each hash of a proof frontier can be read without a node map of the whole domain: above the
    segments from the recorded roots, inside a segment from its tree or its columns.
 */
module StateFrontier {
  import opened Wrappers
  import opened Powers
  import opened ExactStateHash
  import opened SparseMultiproof
  import opened SparseMerkleObject
  import opened SegmentedState
  import opened StateRoots
  import SegmentTree
  import StreamingRoot

  // ----------------------------------------------------------------- nodes as slices

  /** Where the leaves under a node start. */
  function From(level: nat, index: nat): nat {
    Times(index, Pow2(level))
  }

  ghost predicate Inside(level: nat, index: nat, size: nat) {
    From(level, index) + Pow2(level) <= size
  }

  /** The plain root of the leaves under a node. */
  ghost function NodeRoot(h: Hasher, leaves: seq<StateHash>, level: nat, index: nat): StateHash
    requires Inside(level, index, |leaves|)
  {
    MerkleRoot(h, level, leaves[From(level, index)..From(level, index) + Pow2(level)])
  }

  lemma {:induction false} NodeInside(depth: nat, level: nat, index: nat)
    requires level <= depth && index < Pow2(depth - level)
    ensures Inside(level, index, Pow2(depth))
  {
    hide Pow2;
    Pow2Adds(depth - level, level);
    TimesUpTo(index, Pow2(depth - level), Pow2(level));
  }

  lemma {:induction false} TimesUpTo(i: nat, n: nat, d: nat)
    requires i < n
    ensures Times(i, d) + d <= Times(n, d)
  {
    assert (i + 1) * d <= n * d;
  }

  lemma {:induction false} ChildrenFrom(level: nat, index: nat)
    requires level >= 1
    ensures From(level - 1, 2 * index) == From(level, index)
    ensures From(level - 1, 2 * index + 1) == From(level, index) + Pow2(level - 1)
    ensures Pow2(level) == 2 * Pow2(level - 1)
  {
    hide Pow2, Times;
    Pow2Doubles(level - 1);
    TimesAround(index, Pow2(level - 1));
    TimesOneMore(2 * index, Pow2(level - 1));
  }

  lemma {:induction false} TimesAround(i: nat, d: nat)
    ensures Times(2 * i, d) == Times(i, 2 * d)
  {
  }

  lemma {:induction false} NodeRootSplits(h: Hasher, leaves: seq<StateHash>, level: nat, index: nat)
    requires level >= 1 && Inside(level, index, |leaves|)
    ensures Inside(level - 1, 2 * index, |leaves|) && Inside(level - 1, 2 * index + 1, |leaves|)
    ensures NodeRoot(h, leaves, level, index)
         == Join(h, NodeRoot(h, leaves, level - 1, 2 * index), NodeRoot(h, leaves, level - 1, 2 * index + 1))
  {
    ChildrenFrom(level, index);
    hide Join, Pow2, MerkleRoot, From;
    var start, half := From(level, index), Pow2(level - 1);
    var all := leaves[start..start + 2 * half];
    MerkleSplits(h, level, all);
    assert all[..half] == leaves[start..start + half] && all[half..] == leaves[start + half..start + half + half];
  }

  /** Hashing level by level gives the plain root of the leaves under each node. */
  lemma {:induction false} LevelNodeIs(h: Hasher, leaves: seq<StateHash>, depth: nat, level: nat, index: nat)
    requires level <= depth && |leaves| == Pow2(depth) && index < Pow2(depth - level)
    ensures Inside(level, index, |leaves|) && |LevelNodes(h, leaves, level)| == Pow2(depth - level)
    ensures LevelNodes(h, leaves, level)[index] == NodeRoot(h, leaves, level, index)
    decreases level
  {
    hide Join, Pow2, NodeRoot, Inside, LevelNodes;
    NodeInside(depth, level, index);
    LevelNodesSize(h, leaves, depth, level);
    if level == 0 {
      LeafNode(h, leaves, index);
      NoLevels(h, leaves);
    } else {
      Pow2Doubles(depth - level);
      LevelNodeIs(h, leaves, depth, level - 1, 2 * index);
      LevelNodeIs(h, leaves, depth, level - 1, 2 * index + 1);
      NodeRootSplits(h, leaves, level, index);
      OneLevel(h, leaves, level, index);
    }
  }

  lemma {:induction false} NoLevels(h: Hasher, leaves: seq<StateHash>)
    ensures LevelNodes(h, leaves, 0) == leaves
  {
  }

  lemma {:induction false} OneLevel(h: Hasher, leaves: seq<StateHash>, level: nat, index: nat)
    requires level >= 1 && 2 * index + 1 < |LevelNodes(h, leaves, level - 1)| && index < |LevelNodes(h, leaves, level)|
    ensures LevelNodes(h, leaves, level)[index]
         == Join(h, LevelNodes(h, leaves, level - 1)[2 * index], LevelNodes(h, leaves, level - 1)[2 * index + 1])
  {
    hide Join;
  }

  lemma {:induction false} LeafNode(h: Hasher, leaves: seq<StateHash>, index: nat)
    requires Inside(0, index, |leaves|)
    ensures index < |leaves| && NodeRoot(h, leaves, 0, index) == leaves[index]
  {
  }

  // ------------------------------------------------------------------- the frontier

  /** The siblings are the nodes at these coordinates. */
  ghost predicate Reads(h: Hasher, leaves: seq<StateHash>, positions: seq<(nat, nat)>, siblings: seq<StateHash>) {
    && |siblings| == |positions|
    && forall i :: 0 <= i < |positions| ==>
         && Inside(positions[i].0, positions[i].1, |leaves|)
         && siblings[i] == NodeRoot(h, leaves, positions[i].0, positions[i].1)
  }

  lemma {:induction false} LevelReads(h: Hasher, leaves: seq<StateHash>, depth: nat, level: nat, missing: seq<nat>,
                                      siblings: seq<StateHash>)
    requires level <= depth && |leaves| == Pow2(depth) && Below(missing, Pow2(depth - level))
    requires Reads(h, leaves, Coordinates(level, missing), siblings)
    ensures |LevelNodes(h, leaves, level)| == Pow2(depth - level)
    ensures siblings == Pick(LevelNodes(h, leaves, level), missing)
  {
    hide Pow2, NodeRoot, Inside, LevelNodes;
    LevelNodesSize(h, leaves, depth, level);
    forall i | 0 <= i < |missing| ensures siblings[i] == LevelNodes(h, leaves, level)[missing[i]] {
      LevelNodeIs(h, leaves, depth, level, missing[i]);
      assert Coordinates(level, missing)[i] == (level, missing[i]);
    }
  }

  /** Reading every missing node gives the honest frontier. */
  lemma {:induction false} ReadsAreFrontier(h: Hasher, leaves: seq<StateHash>, depth: nat, level: nat, rest: nat,
                                            ps: seq<nat>, siblings: seq<StateHash>)
    requires level + rest == depth && |leaves| == Pow2(depth) && Positions(ps, rest)
    requires Reads(h, leaves, FrontierPositions(ps, rest, level), siblings)
    ensures |LevelNodes(h, leaves, level)| == Pow2(rest)
    ensures siblings == Frontier(h, LevelNodes(h, leaves, level), ps, rest)
    decreases rest
  {
    hide Join, Pow2, NodeRoot, Inside, Parents, Missing, LevelNodes, LevelUp, Positions, Frontier, FrontierPositions,
         Reads;
    LevelNodesSize(h, leaves, depth, level);
    if rest == 0 {
      NothingToRead(h, leaves, LevelNodes(h, leaves, level), ps, level, siblings);
    } else {
      var missing, n := Missing(ps), |Missing(ps)|;
      PositionsUp(ps, rest);
      MissingInside(ps, rest);
      FrontierUnfolds(h, LevelNodes(h, leaves, level), ps, rest, level);
      ReadsSplit(h, leaves, Coordinates(level, missing), FrontierPositions(Parents(ps), rest - 1, level + 1), siblings);
      ReadsLength(h, leaves, Coordinates(level, missing) + FrontierPositions(Parents(ps), rest - 1, level + 1),
                  siblings);
      LevelReads(h, leaves, depth, level, missing, siblings[..n]);
      ReadsAreFrontier(h, leaves, depth, level + 1, rest - 1, Parents(ps), siblings[n..]);
      NextLevel(h, leaves, level);
      assert siblings == siblings[..n] + siblings[n..];
    }
  }

  lemma {:induction false} ReadsLength(h: Hasher, leaves: seq<StateHash>, positions: seq<(nat, nat)>,
                                       siblings: seq<StateHash>)
    requires Reads(h, leaves, positions, siblings)
    ensures |siblings| == |positions|
  {
  }

  lemma {:induction false} NextLevel(h: Hasher, leaves: seq<StateHash>, level: nat)
    ensures LevelNodes(h, leaves, level + 1) == LevelUp(h, LevelNodes(h, leaves, level))
  {
  }

  lemma {:induction false} NothingToRead(h: Hasher, leaves: seq<StateHash>, nodes: seq<StateHash>, ps: seq<nat>,
                                         level: nat, siblings: seq<StateHash>)
    requires Positions(ps, 0) && |nodes| == Pow2(0) && Reads(h, leaves, FrontierPositions(ps, 0, level), siblings)
    ensures siblings == Frontier(h, nodes, ps, 0)
  {
  }

  lemma {:induction false} FrontierUnfolds(h: Hasher, nodes: seq<StateHash>, ps: seq<nat>, rest: nat, level: nat)
    requires rest >= 1 && Positions(ps, rest) && |nodes| == Pow2(rest)
    requires Positions(Parents(ps), rest - 1) && Below(Missing(ps), Pow2(rest))
    ensures |LevelUp(h, nodes)| == Pow2(rest - 1)
    ensures Frontier(h, nodes, ps, rest)
         == Pick(nodes, Missing(ps)) + Frontier(h, LevelUp(h, nodes), Parents(ps), rest - 1)
    ensures FrontierPositions(ps, rest, level)
         == Coordinates(level, Missing(ps)) + FrontierPositions(Parents(ps), rest - 1, level + 1)
  {
    hide Join, Missing, Parents, Positions;
  }

  lemma {:induction false} MissingInside(ps: seq<nat>, rest: nat)
    requires rest >= 1 && Positions(ps, rest)
    ensures Below(Missing(ps), Pow2(rest))
  {
    MissingShape(ps, Pow2(rest - 1));
  }

  lemma {:induction false} ReadsSplit(h: Hasher, leaves: seq<StateHash>, a: seq<(nat, nat)>, b: seq<(nat, nat)>,
                                      siblings: seq<StateHash>)
    requires Reads(h, leaves, a + b, siblings)
    ensures Reads(h, leaves, a, siblings[..|a|]) && Reads(h, leaves, b, siblings[|a|..])
  {
    hide Inside, NodeRoot;
    forall i | 0 <= i < |a| ensures (a + b)[i] == a[i] {
    }
    forall i | 0 <= i < |b| ensures (a + b)[|a| + i] == b[i] {
    }
  }

  /** Every coordinate lies in the domain. */
  lemma {:induction false} CoordinateInside(ps: seq<nat>, depth: nat, level: nat, rest: nat, i: nat)
    requires level + rest == depth && Positions(ps, rest) && i < |FrontierPositions(ps, rest, level)|
    ensures var p := FrontierPositions(ps, rest, level)[i];
            level <= p.0 < depth && p.1 < Pow2(depth - p.0)
    decreases rest
  {
    hide Pow2, Parents, Missing, Positions;
    if rest > 0 {
      var n := |Missing(ps)|;
      PositionsUp(ps, rest);
      MissingInside(ps, rest);
      if i >= n { CoordinateInside(Parents(ps), depth, level + 1, rest - 1, i - n); }
    }
  }

  // ------------------------------------------------------------- inside and above segments

  lemma {:induction false} FlatSlice(parts: seq<seq<SlotValue>>, size: nat, from: nat, to: nat)
    requires Sized(parts, size) && from <= to <= |parts|
    ensures Times(from, size) <= Times(to, size) <= |Flat(parts)|
    ensures Flat(parts)[Times(from, size)..Times(to, size)] == Flat(parts[from..to])
  {
    hide Times, Flat, Sized;
    SizedSlices(parts, size, from, to);
    FlatLength(parts[..from], size);
    FlatLength(parts[..to], size);
    assert parts == parts[..to] + parts[to..] && parts[..to] == parts[..from] + parts[from..to];
    FlatConcat(parts[..to], parts[to..]);
    FlatConcat(parts[..from], parts[from..to]);
  }

  lemma {:induction false} SizedSlices(parts: seq<seq<SlotValue>>, size: nat, from: nat, to: nat)
    requires Sized(parts, size) && from <= to <= |parts|
    ensures Sized(parts[..from], size) && Sized(parts[..to], size) && Sized(parts[from..to], size)
  {
  }

  lemma {:induction false} HashSlice(h: Hasher, slots: seq<SlotValue>, from: nat, to: nat)
    requires from <= to <= |slots|
    ensures HashLeaves(h, slots)[from..to] == HashLeaves(h, slots[from..to])
  {
  }

  /** A node above the segments is a node over their roots. */
  lemma {:induction false} NodeAbove(h: Hasher, low: nat, parts: seq<seq<SlotValue>>, level: nat, index: nat)
    requires Sized(parts, Pow2(low)) && Inside(level, index, |parts|)
    ensures Inside(level + low, index, |HashLeaves(h, Flat(parts))|)
    ensures NodeRoot(h, HashLeaves(h, Flat(parts)), level + low, index)
         == NodeRoot(h, Roots(h, low, parts), level, index)
  {
    hide Pow2, MerkleRoot, SlotsRoot, Flat, Times, Sized;
    var from, size := From(level, index), Pow2(low);
    var to := from + Pow2(level);
    var slice := parts[from..to];
    FlatSlice(parts, size, from, to);
    FromScaled(level, low, index);
    HashSlice(h, Flat(parts), Times(from, size), Times(to, size));
    SizedSlices(parts, size, from, to);
    RootOfRoots(h, level, low, slice);
    SlotsRootIs(h, level + low, Flat(slice));
    RootsSlice(h, low, parts, from, to);
  }

  lemma {:induction false} FromScaled(level: nat, low: nat, index: nat)
    ensures From(level + low, index) == Times(From(level, index), Pow2(low))
    ensures From(level + low, index) + Pow2(level + low) == Times(From(level, index) + Pow2(level), Pow2(low))
  {
    hide Pow2;
    Pow2Adds(level, low);
    var i, p, q := index, Pow2(level), Pow2(low);
    assert i * (p * q) == (i * p) * q;
    assert (i * p + p) * q == (i * p) * q + p * q;
  }

  lemma {:induction false} SlotsRootIs(h: Hasher, depth: nat, slots: seq<SlotValue>)
    requires |slots| == Pow2(depth)
    ensures SlotsRoot(h, depth, slots) == MerkleRoot(h, depth, HashLeaves(h, slots))
  {
  }

  lemma {:induction false} RootsSlice(h: Hasher, low: nat, parts: seq<seq<SlotValue>>, from: nat, to: nat)
    requires Sized(parts, Pow2(low)) && from <= to <= |parts| && Sized(parts[from..to], Pow2(low))
    ensures Roots(h, low, parts)[from..to] == Roots(h, low, parts[from..to])
  {
    hide Pow2, SlotsRoot;
  }

  /** A node inside a segment is the root of a slice of that segment. */
  lemma {:induction false} NodeWithin(h: Hasher, low: nat, parts: seq<seq<SlotValue>>, level: nat, seg: nat, local: nat)
    requires Sized(parts, Pow2(low)) && seg < |parts| && level <= low && Inside(level, local, Pow2(low))
    ensures var index, leaves := Times(seg, Pow2(low - level)) + local, HashLeaves(h, Flat(parts));
            && Inside(level, index, |leaves|)
            && NodeRoot(h, leaves, level, index)
              == SlotsRoot(h, level, parts[seg][From(level, local)..From(level, local) + Pow2(level)])
  {
    hide Pow2, MerkleRoot, SlotsRoot, Flat, Times;
    var size, start := Pow2(low), From(level, local);
    var base := Times(seg, size);
    FlatSlice(parts, size, seg, seg + 1);
    TimesOneMore(seg, size);
    assert parts[seg..seg + 1] == [parts[seg]];
    FlatOne(parts[seg]);
    FromWithin(level, low, seg, local);
    var slots := Flat(parts);
    assert slots[base..base + size] == parts[seg];
    SliceOfSlice(slots, base, size, start, Pow2(level));
    HashSlice(h, slots, base + start, base + start + Pow2(level));
    SlotsRootIs(h, level, parts[seg][start..start + Pow2(level)]);
  }

  lemma {:induction false} SliceOfSlice(s: seq<SlotValue>, base: nat, size: nat, start: nat, length: nat)
    requires base + size <= |s| && start + length <= size
    ensures s[base..base + size][start..start + length] == s[base + start..base + start + length]
  {
    var part, whole := s[base..base + size][start..start + length], s[base + start..base + start + length];
    forall i | 0 <= i < length ensures part[i] == whole[i] {
      assert s[base..base + size][start + i] == s[base + start + i];
    }
  }

  lemma {:induction false} FromWithin(level: nat, low: nat, seg: nat, local: nat)
    requires level <= low
    ensures From(level, Times(seg, Pow2(low - level)) + local) == Times(seg, Pow2(low)) + From(level, local)
  {
    hide Pow2;
    Pow2Adds(low - level, level);
    var p, q := Pow2(low - level), Pow2(level);
    assert (seg * p + local) * q == seg * (p * q) + local * q;
  }

  /** The upper tree holds every node over the segment roots. */
  lemma {:induction false} TreeNode(h: Hasher, up: nat, roots: seq<StateHash>, tree: seq<StateHash>, level: nat,
                                    index: nat)
    requires |roots| == Pow2(up) && TreeOver(h, roots, tree) && level <= up && index < Pow2(up - level)
    ensures Inside(level, index, |roots|) && Pow2(up - level) + index < |tree|
    ensures tree[Pow2(up - level) + index] == NodeRoot(h, roots, level, index)
  {
    NodeInside(up, level, index);
    var nodes, node := tree[0 := ZeroRoot(h, 0)], Pow2(up - level) + index;
    SegmentTree.NodesObeyLocalRules(h, roots);
    Pow2Monotone(up - level, up);
    AlignedAt(up, level, index);
    SegmentTree.RulesFormSubtrees(h, roots, nodes, node, From(level, index), level);
    hide SegmentTree.NodesOver, MerkleRoot, Pow2;
  }

  lemma {:induction false} AlignedAt(up: nat, level: nat, index: nat)
    requires level <= up && index < Pow2(up - level) && Inside(level, index, Pow2(up))
    ensures SegmentTree.Covers(Pow2(up), Pow2(up - level) + index, From(level, index), level)
  {
    hide Pow2;
    Next(index, Pow2(level));
    SegmentTree.AlignedCovers(up, level, index);
  }

  lemma {:induction false} Next(index: nat, width: nat)
    ensures (index + 1) * width == Times(index, width) + width && index * width == Times(index, width)
  {
  }

  // ------------------------------------------------------------------------- reading

  /** A node over the segment roots, if there is one at that level and index. */
  method SegmentNodeHash(cache: ExactSegmentRootCache, level: nat, index: nat) returns (node: Option<StateHash>)
    requires cache.Valid()
    ensures node.Some? <==> level <= UpperDepth(cache.logSlots) && index < Pow2(UpperDepth(cache.logSlots) - level)
    ensures node.Some? ==>
              && Inside(level, index, |cache.segmentRoots|)
              && node.value == NodeRoot(cache.h, cache.segmentRoots, level, index)
  {
    hide Pow2, TreeOver, NodeRoot, Inside;
    var up := UpperDepth(cache.logSlots);
    SegmentCount(cache.logSlots);
    if level > up || index >= Pow2(up - level) {
      return None;
    }
    NodeInside(up, level, index);
    if level == 0 {
      LeafNode(cache.h, cache.segmentRoots, index);
      return Some(cache.segmentRoots[index]);
    }
    Pow2StrictlyMonotone(0, up);
    TreeNode(cache.h, up, cache.segmentRoots, cache.tree, level, index);
    return Some(cache.tree[Pow2(up - level) + index]);
  }

  /** The root of an aligned part of a segment, streamed; an absent segment is empty. */
  method ExactLocalSubtreeRoot(h: Hasher, columns: Option<seq<SlotValue>>, level: nat, local: nat, size: nat)
    returns (root: StateHash)
    requires Inside(level, local, size) && (columns.Some? ==> |columns.value| == size)
    ensures var slots := if columns.Some? then columns.value else ZeroSlots(size);
            root == SlotsRoot(h, level, slots[From(level, local)..From(level, local) + Pow2(level)])
  {
    hide Pow2, MerkleRoot, From, ZeroRoot;
    var start := From(level, local);
    match columns {
      case None =>
        EmptySlotsRoot(h, level, ZeroSlots(size)[start..start + Pow2(level)]);
        return ZeroRoots(h, level)[level];
      case Some(slots) =>
        var slice := slots[start..start + Pow2(level)];
        root := StreamingRoot.ExactSegmentRootWithUpdates(h, level, Some(slice), map[]);
        assert StreamingRoot.SlotsWith(Some(slice), map[], Pow2(level)) == slice;
    }
  }
}
