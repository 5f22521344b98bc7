/** Hot-segment Merkle tree: one rebuild, one in-place path update and one
    read-only overlay over the same heap-shaped node array.
 */
module SegmentTree {
  import opened Wrappers
  import opened Powers
  import opened ExactStateHash

  // ---------------------------------------------------------------- reference

  /** Plain value of heap position `n` over the leaf hashes. Position 0 is never
      read by any operation and keeps the fill value of the allocation. */
  function NodeValue(h: Hasher, leaves: seq<StateHash>, n: nat): StateHash
    requires n < 2 * |leaves|
    decreases 2 * |leaves| - n
  {
    if n == 0 then ZeroRoot(h, 0)
    else if n >= |leaves| then leaves[n - |leaves|]
    else Join(h, NodeValue(h, leaves, 2 * n), NodeValue(h, leaves, 2 * n + 1))
  }

  function NodesOver(h: Hasher, leaves: seq<StateHash>): (nodes: seq<StateHash>)
    ensures |nodes| == 2 * |leaves|
    ensures forall n {:trigger nodes[n]} :: 0 <= n < |nodes| ==> nodes[n] == NodeValue(h, leaves, n)
  {
    seq(2 * |leaves|, n requires 0 <= n < 2 * |leaves| => NodeValue(h, leaves, n))
  }

  /** The node array of a fresh build over `slots`. */
  function FreshNodes(h: Hasher, slots: seq<SlotValue>): (nodes: seq<StateHash>)
    ensures |nodes| == 2 * |slots|
  {
    NodesOver(h, HashLeaves(h, slots))
  }

  /** The interior rule at one position, named so that it can be instantiated. */
  ghost predicate NodeOk(h: Hasher, nodes: seq<StateHash>, n: nat)
    requires 2 * n + 1 < |nodes|
  {
    nodes[n] == Join(h, nodes[2 * n], nodes[2 * n + 1])
  }

  ghost predicate LeavesOk(h: Hasher, leaves: seq<StateHash>, nodes: seq<StateHash>) {
    && |nodes| == 2 * |leaves|
    && |leaves| >= 1
    && nodes[0] == ZeroRoot(h, 0)
    && nodes[|leaves|..] == leaves
  }

  /** The local rules determine every position of the array. */
  lemma {:induction false} LocalRulesGiveValue(h: Hasher, leaves: seq<StateHash>, nodes: seq<StateHash>, n: nat)
    requires LeavesOk(h, leaves, nodes)
    requires forall m :: 1 <= m < |leaves| ==> NodeOk(h, nodes, m)
    requires n < |nodes|
    ensures nodes[n] == NodeValue(h, leaves, n)
    decreases |nodes| - n
  {
    hide Join;
    if n >= |leaves| {
      assert nodes[|leaves|..][n - |leaves|] == leaves[n - |leaves|];
    } else if n >= 1 {
      assert NodeOk(h, nodes, n);
      LocalRulesGiveValue(h, leaves, nodes, 2 * n);
      LocalRulesGiveValue(h, leaves, nodes, 2 * n + 1);
    }
  }

  lemma {:induction false} LocalRulesGiveNodes(h: Hasher, leaves: seq<StateHash>, nodes: seq<StateHash>)
    requires LeavesOk(h, leaves, nodes)
    requires forall m :: 1 <= m < |leaves| ==> NodeOk(h, nodes, m)
    ensures nodes == NodesOver(h, leaves)
  {
    forall n | 0 <= n < |nodes| ensures nodes[n] == NodesOver(h, leaves)[n] {
      LocalRulesGiveValue(h, leaves, nodes, n);
    }
  }

  lemma {:induction false} NodesObeyLocalRules(h: Hasher, leaves: seq<StateHash>)
    requires |leaves| >= 1
    ensures LeavesOk(h, leaves, NodesOver(h, leaves))
    ensures forall m :: 1 <= m < |leaves| ==> NodeOk(h, NodesOver(h, leaves), m)
  {
  }

  /** Leftmost heap position `depth` levels below `node`. */
  function FirstLeaf(node: nat, depth: nat): (leaf: nat)
    ensures leaf >= node
    decreases depth
  {
    if depth == 0 then node else FirstLeaf(2 * node, depth - 1)
  }

  lemma {:induction false} FirstLeafStep(node: nat, depth: nat)
    ensures FirstLeaf(node + 1, depth) == FirstLeaf(node, depth) + Pow2(depth)
    decreases depth
  {
    if depth != 0 {
      FirstLeafStep(2 * node, depth - 1);
      FirstLeafStep(2 * node + 1, depth - 1);
    }
  }

  lemma {:induction false} FirstLeafIsProduct(node: nat, depth: nat)
    ensures FirstLeaf(node, depth) == node * Pow2(depth)
    decreases depth
  {
    if depth != 0 {
      FirstLeafIsProduct(2 * node, depth - 1);
      assert (2 * node) * Pow2(depth - 1) == node * (2 * Pow2(depth - 1));
    }
  }

  /** `node` is the heap position above the leaves `start .. start + 2^depth`. */
  ghost predicate Covers(size: nat, node: nat, start: nat, depth: nat) {
    && 1 <= node < 2 * size
    && FirstLeaf(node, depth) == size + start
    && start + Pow2(depth) <= size
  }

  lemma {:induction false} ChildrenCover(size: nat, node: nat, start: nat, depth: nat)
    requires Covers(size, node, start, depth) && depth >= 1
    ensures node < size
    ensures Covers(size, 2 * node, start, depth - 1)
    ensures Covers(size, 2 * node + 1, start + Pow2(depth - 1), depth - 1)
  {
    FirstLeafStep(2 * node, depth - 1);
  }

  /** The nodes at and below `node` are the plain tree over `leaves`. */
  ghost predicate SubtreeOf(h: Hasher, nodes: seq<StateHash>, node: nat, depth: nat, leaves: seq<StateHash>)
    requires |leaves| == Pow2(depth)
    decreases depth
  {
    && node < |nodes|
    && nodes[node] == MerkleRoot(h, depth, leaves)
    && (depth > 0 ==>
          && SubtreeOf(h, nodes, 2 * node, depth - 1, leaves[..Pow2(depth - 1)])
          && SubtreeOf(h, nodes, 2 * node + 1, depth - 1, leaves[Pow2(depth - 1)..]))
  }

  /** Every heap position heads the plain tree over the leaves below it. */
  lemma {:induction false} RulesFormSubtrees(h: Hasher, leaves: seq<StateHash>, nodes: seq<StateHash>, node: nat,
                                             start: nat, depth: nat)
    requires LeavesOk(h, leaves, nodes) && Covers(|leaves|, node, start, depth)
    requires forall m :: 1 <= m < |leaves| ==> NodeOk(h, nodes, m)
    ensures SubtreeOf(h, nodes, node, depth, leaves[start..start + Pow2(depth)])
    decreases depth
  {
    hide Join;
    if depth == 0 {
      assert nodes[|leaves|..][start] == leaves[start..start + 1][0];
    } else {
      var half := Pow2(depth - 1);
      var slice := leaves[start..start + 2 * half];
      ChildrenCover(|leaves|, node, start, depth);
      assert SubtreeOf(h, nodes, 2 * node, depth - 1, slice[..half]) by {
        RulesFormSubtrees(h, leaves, nodes, 2 * node, start, depth - 1);
        assert slice[..half] == leaves[start..start + half];
      }
      assert SubtreeOf(h, nodes, 2 * node + 1, depth - 1, slice[half..]) by {
        RulesFormSubtrees(h, leaves, nodes, 2 * node + 1, start + half, depth - 1);
        assert slice[half..] == leaves[start + half..start + half + half];
      }
      assert NodeOk(h, nodes, node);
    }
  }

  lemma {:induction false} RootHeadsTree(h: Hasher, log: nat, leaves: seq<StateHash>)
    requires |leaves| == Pow2(log)
    ensures SubtreeOf(h, NodesOver(h, leaves), 1, log, leaves)
    ensures NodesOver(h, leaves)[1] == MerkleRoot(h, log, leaves)
  {
    FirstLeafIsProduct(1, log);
    NodesObeyLocalRules(h, leaves);
    RulesFormSubtrees(h, leaves, NodesOver(h, leaves), 1, 0, log);
    assert leaves[0..0 + Pow2(log)] == leaves;
  }

  // --------------------------------------------------- hashing with shortcuts

  function LeafHash(h: Hasher, zeros: seq<StateHash>, slot: SlotValue): StateHash
    requires |zeros| >= 1
  {
    if slot.IsEmpty() then zeros[0] else h.leaf(slot)
  }

  /** Parent of two nodes of `level`, reading the zero table when both are empty. */
  function ParentHash(h: Hasher, zeros: seq<StateHash>, level: nat, left: StateHash, right: StateHash): StateHash
    requires level + 1 < |zeros|
  {
    if left == zeros[level] && right == zeros[level] then zeros[level + 1] else Join(h, left, right)
  }

  // ------------------------------------------------------------ slot updates

  /** The path loop of a slot write: rehash ancestors of `node` until one is unchanged. */
  function Climb(h: Hasher, zeros: seq<StateHash>, nodes: seq<StateHash>, node: nat, level: nat): (r: seq<StateHash>)
    requires level < |zeros| && 1 <= node < Pow2(|zeros| - level)
    requires node < |nodes| && |nodes| % 2 == 0
    ensures |r| == |nodes|
    decreases node
  {
    if node == 1 then nodes
    else
      assert |zeros| - level >= 2;
      var parent := node / 2;
      var hash := ParentHash(h, zeros, level, nodes[2 * parent], nodes[2 * parent + 1]);
      if nodes[parent] == hash then nodes
      else Climb(h, zeros, nodes[parent := hash], parent, level + 1)
  }

  function SetSlotNodes(h: Hasher, log: nat, zeros: seq<StateHash>, nodes: seq<StateHash>, local: nat,
                        value: SlotValue): (r: seq<StateHash>)
    requires |zeros| == log + 1 && |nodes| == 2 * Pow2(log) && local < Pow2(log)
    ensures |r| == |nodes|
  {
    var node := Pow2(log) + local;
    var hash := LeafHash(h, zeros, value);
    if nodes[node] == hash then nodes else Climb(h, zeros, nodes[node := hash], node, 0)
  }

  /** If only the parent of `node` may be stale, climbing restores every rule. */
  lemma {:induction false} ClimbRestores(h: Hasher, log: nat, leaves: seq<StateHash>, nodes: seq<StateHash>, node: nat,
                                         level: nat)
    requires |leaves| == Pow2(log) && level <= log
    requires 1 <= node < |nodes| && node < Pow2(log + 1 - level)
    requires LeavesOk(h, leaves, nodes)
    requires forall m :: 1 <= m < |leaves| && m != node / 2 ==> NodeOk(h, nodes, m)
    ensures Climb(h, ZeroRoots(h, log), nodes, node, level) == NodesOver(h, leaves)
    decreases node
  {
    hide Join;
    if node == 1 {
      LocalRulesGiveNodes(h, leaves, nodes);
    } else {
      assert log + 1 - level >= 2;
      var zeros := ZeroRoots(h, log);
      var parent := node / 2;
      var hash := ParentHash(h, zeros, level, nodes[2 * parent], nodes[2 * parent + 1]);
      assert hash == Join(h, nodes[2 * parent], nodes[2 * parent + 1]) by {
        assert zeros[level + 1] == Join(h, zeros[level], zeros[level]);
      }
      if nodes[parent] == hash {
        assert NodeOk(h, nodes, parent);
        LocalRulesGiveNodes(h, leaves, nodes);
      } else {
        var nodes' := nodes[parent := hash];
        assert nodes'[|leaves|..] == nodes[|leaves|..];
        forall m | 1 <= m < |leaves| && m != parent / 2 ensures NodeOk(h, nodes', m) {
          if m != parent { assert NodeOk(h, nodes, m); }
        }
        ClimbRestores(h, log, leaves, nodes', parent, level + 1);
      }
    }
  }

  /** A slot write leaves the whole array as a rebuild over the edited columns would. */
  lemma {:induction false} SetSlotIsRebuild(h: Hasher, log: nat, slots: seq<SlotValue>, local: nat, value: SlotValue)
    requires |slots| == Pow2(log) && local < |slots|
    ensures SetSlotNodes(h, log, ZeroRoots(h, log), FreshNodes(h, slots), local, value)
         == FreshNodes(h, slots[local := value])
  {
    var leaves := HashLeaves(h, slots);
    var edited := leaves[local := h.leaf(value)];
    assert edited == HashLeaves(h, slots[local := value]);
    assert LeafHash(h, ZeroRoots(h, log), value) == h.leaf(value);
    SetLeafIsRebuild(h, log, leaves, local, h.leaf(value));
  }

  lemma {:induction false} SetLeafIsRebuild(h: Hasher, log: nat, leaves: seq<StateHash>, local: nat, hash: StateHash)
    requires |leaves| == Pow2(log) && local < |leaves|
    ensures var nodes, node := NodesOver(h, leaves), Pow2(log) + local;
            && (nodes[node] == hash ==> nodes == NodesOver(h, leaves[local := hash]))
            && Climb(h, ZeroRoots(h, log), nodes[node := hash], node, 0) == NodesOver(h, leaves[local := hash])
  {
    var nodes, node, edited := NodesOver(h, leaves), Pow2(log) + local, leaves[local := hash];
    var nodes' := nodes[node := hash];
    NodesObeyLocalRules(h, leaves);
    assert nodes'[|leaves|..] == nodes[|leaves|..][local := hash];
    forall m | 1 <= m < |leaves| && m != node / 2 ensures NodeOk(h, nodes', m) {
      assert NodeOk(h, nodes, m);
    }
    ClimbRestores(h, log, edited, nodes', node, 0);
    if nodes[node] == hash {
      assert leaves[local] == nodes[node];
      assert edited == leaves;
    }
  }

  // ----------------------------------------------------------------- overlay

  /** The entries of an ordered map, in the order it iterates them. */
  ghost predicate AscendingKeys<T>(entries: seq<(nat, T)>) {
    forall i, j :: 0 <= i < j < |entries| ==> entries[i].0 < entries[j].0
  }

  ghost predicate Touches<T>(entries: seq<(nat, T)>, key: nat) {
    exists j :: 0 <= j < |entries| && entries[j].0 == key
  }

  ghost predicate KeysBelow<T>(entries: seq<(nat, T)>, bound: nat) {
    forall j :: 0 <= j < |entries| ==> entries[j].0 < bound
  }

  function PartitionPoint(updates: seq<(nat, StateHash)>, bound: nat, from: nat := 0): (split: nat)
    requires from <= |updates|
    ensures from <= split <= |updates|
    ensures forall i :: from <= i < split ==> updates[i].0 < bound
    ensures split < |updates| ==> updates[split].0 >= bound
    decreases |updates| - from
  {
    if from < |updates| && updates[from].0 < bound then PartitionPoint(updates, bound, from + 1) else from
  }

  /** `node` and everything `depth` levels below it lie inside `length` nodes. */
  ghost predicate Reachable(length: nat, node: nat, depth: nat)
    decreases depth
  {
    && node < length
    && (depth > 0 ==> Reachable(length, 2 * node, depth - 1) && Reachable(length, 2 * node + 1, depth - 1))
  }

  lemma {:induction false} CoveredIsReachable(size: nat, node: nat, start: nat, depth: nat)
    requires Covers(size, node, start, depth)
    ensures Reachable(2 * size, node, depth)
    decreases depth
  {
    if depth != 0 {
      ChildrenCover(size, node, start, depth);
      CoveredIsReachable(size, 2 * node, start, depth - 1);
      CoveredIsReachable(size, 2 * node + 1, start + Pow2(depth - 1), depth - 1);
    }
  }

  /** Root of the subtree at `node` after a batch. The width of its slot range is
      carried as the exponent `depth`. */
  function OverlayRoot(h: Hasher, nodes: seq<StateHash>, node: nat, start: nat, depth: nat,
                       updates: seq<(nat, StateHash)>): StateHash
    requires Reachable(|nodes|, node, depth)
    decreases depth
  {
    if updates == [] then nodes[node]
    else if depth == 0 then updates[0].1
    else
      var half := Pow2(depth - 1);
      var split := PartitionPoint(updates, start + half);
      Join(h, OverlayRoot(h, nodes, 2 * node, start, depth - 1, updates[..split]),
             OverlayRoot(h, nodes, 2 * node + 1, start + half, depth - 1, updates[split..]))
  }

  /** `updates` is an ordered batch that turns the leaves `before`, which start at
      slot `start`, into `after`. */
  ghost predicate Describes(before: seq<StateHash>, after: seq<StateHash>, start: nat, updates: seq<(nat, StateHash)>) {
    && |before| == |after|
    && AscendingKeys(updates)
    && (forall j :: 0 <= j < |updates| ==>
          start <= updates[j].0 < start + |before| && updates[j].1 == after[updates[j].0 - start])
    && (forall i :: 0 <= i < |before| && !Touches(updates, start + i) ==> after[i] == before[i])
  }

  lemma {:induction false} OverlayIsMerkleRoot(h: Hasher, nodes: seq<StateHash>, before: seq<StateHash>,
                                               after: seq<StateHash>,
                                               node: nat, start: nat, depth: nat, updates: seq<(nat, StateHash)>)
    requires |before| == Pow2(depth) && SubtreeOf(h, nodes, node, depth, before)
    requires Reachable(|nodes|, node, depth)
    requires Describes(before, after, start, updates)
    ensures OverlayRoot(h, nodes, node, start, depth, updates) == MerkleRoot(h, depth, after)
    decreases depth
  {
    hide Join, PartitionPoint, Describes, Reachable;
    DescribesEnds(before, after, start, updates);
    if updates != [] && depth > 0 {
      OverlayHalves(h, nodes, before, after, node, start, depth, updates,
                    PartitionPoint(updates, start + Pow2(depth - 1)));
      hide SubtreeOf;
    }
  }

  lemma {:induction false} OverlayHalves(h: Hasher, nodes: seq<StateHash>, before: seq<StateHash>,
                                         after: seq<StateHash>,
                                         node: nat, start: nat, depth: nat, updates: seq<(nat, StateHash)>, split: nat)
    requires depth > 0 && |before| == Pow2(depth) && SubtreeOf(h, nodes, node, depth, before)
    requires Reachable(|nodes|, node, depth)
    requires Describes(before, after, start, updates) && split == PartitionPoint(updates, start + Pow2(depth - 1))
    ensures |after| == Pow2(depth)
    ensures OverlayRoot(h, nodes, 2 * node, start, depth - 1, updates[..split])
         == MerkleRoot(h, depth - 1, after[..Pow2(depth - 1)])
    ensures OverlayRoot(h, nodes, 2 * node + 1, start + Pow2(depth - 1), depth - 1, updates[split..])
         == MerkleRoot(h, depth - 1, after[Pow2(depth - 1)..])
    decreases depth, 0
  {
    hide Join, PartitionPoint, Describes, MerkleRoot, OverlayRoot;
    var half := Pow2(depth - 1);
    DescribesEnds(before, after, start, updates);
    SplitLower(before, after, start, half, updates, split);
    SplitUpper(before, after, start, half, updates, split);
    OverlayIsMerkleRoot(h, nodes, before[..half], after[..half], 2 * node, start, depth - 1, updates[..split]);
    OverlayIsMerkleRoot(h, nodes, before[half..], after[half..], 2 * node + 1, start + half, depth - 1,
                        updates[split..]);
  }

  /** No update leaves the leaves as they were, and an update of one leaf names it. */
  lemma {:induction false} DescribesEnds(before: seq<StateHash>, after: seq<StateHash>, start: nat,
                                         updates: seq<(nat, StateHash)>)
    requires Describes(before, after, start, updates)
    ensures |before| == |after| && (updates == [] ==> before == after)
    ensures updates != [] && |before| == 1 ==> updates[0].1 == after[0]
  {
    if updates == [] {
      forall i | 0 <= i < |before| ensures after[i] == before[i] {
        assert !Touches(updates, start + i);
      }
    }
  }

  /** Cutting an ordered batch at a bound splits what it describes. */
  lemma {:induction false} SplitLower(before: seq<StateHash>, after: seq<StateHash>, start: nat, half: nat,
                                      updates: seq<(nat, StateHash)>, split: nat)
    requires Describes(before, after, start, updates) && half <= |before| && split <= |updates|
    requires forall i :: 0 <= i < split ==> updates[i].0 < start + half
    requires split < |updates| ==> updates[split].0 >= start + half
    ensures Describes(before[..half], after[..half], start, updates[..split])
  {
    var lower := updates[..split];
    forall i | 0 <= i < half && !Touches(lower, start + i) ensures after[i] == before[i] {
      forall j | 0 <= j < |updates| ensures updates[j].0 != start + i {
        if j < split { assert lower[j].0 != start + i; }
      }
      assert !Touches(updates, start + i);
    }
  }

  lemma {:induction false} SplitUpper(before: seq<StateHash>, after: seq<StateHash>, start: nat, half: nat,
                                      updates: seq<(nat, StateHash)>, split: nat)
    requires Describes(before, after, start, updates) && half <= |before| && split <= |updates|
    requires forall i :: 0 <= i < split ==> updates[i].0 < start + half
    requires split < |updates| ==> updates[split].0 >= start + half
    ensures Describes(before[half..], after[half..], start + half, updates[split..])
  {
    var upper := updates[split..];
    forall j | 0 <= j < |upper|
      ensures upper[j].0 >= start + half && upper[j].1 == after[half..][upper[j].0 - (start + half)]
    {
      assert upper[j] == updates[split + j];
      if j > 0 { assert updates[split].0 < updates[split + j].0; }
    }
    forall i | 0 <= i < |before| - half && !Touches(upper, start + half + i)
      ensures after[half..][i] == before[half..][i]
    {
      forall j | 0 <= j < |updates| ensures updates[j].0 != start + half + i {
        if j >= split { assert upper[j - split].0 != start + half + i; }
      }
      assert !Touches(updates, start + (half + i));
    }
  }

  function UpdateLeaves(h: Hasher, zeros: seq<StateHash>,
                        updates: seq<(nat, SlotValue)>): (leaves: seq<(nat, StateHash)>)
    requires |zeros| >= 1
    ensures |leaves| == |updates|
    ensures forall j :: 0 <= j < |updates| ==> leaves[j] == (updates[j].0, LeafHash(h, zeros, updates[j].1))
  {
    seq(|updates|, i requires 0 <= i < |updates| => (updates[i].0, LeafHash(h, zeros, updates[i].1)))
  }

  function RootWithUpdates(h: Hasher, log: nat, zeros: seq<StateHash>, nodes: seq<StateHash>,
                           updates: seq<(nat, SlotValue)>): StateHash
    requires |zeros| == log + 1 && |nodes| == 2 * Pow2(log)
    requires KeysBelow(updates, Pow2(log))
  {
    FirstLeafIsProduct(1, log);
    CoveredIsReachable(Pow2(log), 1, 0, log);
    OverlayRoot(h, nodes, 1, 0, log, UpdateLeaves(h, zeros, updates))
  }

  /** Writes applied to the columns one after another. */
  function ApplyWrites(slots: seq<SlotValue>, writes: seq<(nat, SlotValue)>): (r: seq<SlotValue>)
    requires KeysBelow(writes, |slots|)
    ensures |r| == |slots|
    decreases |writes|
  {
    if writes == [] then slots else ApplyWrites(slots[writes[0].0 := writes[0].1], writes[1..])
  }

  /** The same writes applied to the node array one after another. */
  function SetSlots(h: Hasher, log: nat, zeros: seq<StateHash>, nodes: seq<StateHash>,
                    writes: seq<(nat, SlotValue)>): (r: seq<StateHash>)
    requires |zeros| == log + 1 && |nodes| == 2 * Pow2(log)
    requires KeysBelow(writes, Pow2(log))
    ensures |r| == |nodes|
    decreases |writes|
  {
    if writes == [] then nodes
    else SetSlots(h, log, zeros, SetSlotNodes(h, log, zeros, nodes, writes[0].0, writes[0].1), writes[1..])
  }

  lemma {:induction false} TouchesCons<T>(entries: seq<(nat, T)>, key: nat)
    requires entries != []
    ensures Touches(entries, key) <==> entries[0].0 == key || Touches(entries[1..], key)
  {
    if Touches(entries, key) {
      var j :| 0 <= j < |entries| && entries[j].0 == key;
      if j > 0 { assert entries[1..][j - 1].0 == key; }
    }
    if Touches(entries[1..], key) {
      var j :| 0 <= j < |entries[1..]| && entries[1..][j].0 == key;
      assert entries[j + 1].0 == key;
    }
  }

  lemma {:induction false} ApplyWritesAt(slots: seq<SlotValue>, writes: seq<(nat, SlotValue)>, i: nat, value: SlotValue)
    requires KeysBelow(writes, |slots|) && i < |slots|
    requires forall j :: 0 <= j < |writes| && writes[j].0 == i ==> writes[j].1 == value
    ensures ApplyWrites(slots, writes)[i] == if Touches(writes, i) then value else slots[i]
    decreases |writes|
  {
    if writes != [] {
      ApplyWritesAt(slots[writes[0].0 := writes[0].1], writes[1..], i, value);
      TouchesCons(writes, i);
    }
  }

  lemma {:induction false} SetSlotsIsRebuild(h: Hasher, log: nat, slots: seq<SlotValue>, writes: seq<(nat, SlotValue)>)
    requires |slots| == Pow2(log) && KeysBelow(writes, |slots|)
    ensures SetSlots(h, log, ZeroRoots(h, log), FreshNodes(h, slots), writes)
         == FreshNodes(h, ApplyWrites(slots, writes))
    decreases |writes|
  {
    if writes != [] {
      SetSlotIsRebuild(h, log, slots, writes[0].0, writes[0].1);
      SetSlotsIsRebuild(h, log, slots[writes[0].0 := writes[0].1], writes[1..]);
    }
  }

  lemma {:induction false} OverlayIsSlotsRoot(h: Hasher, log: nat, slots: seq<SlotValue>,
                                              updates: seq<(nat, SlotValue)>)
    requires |slots| == Pow2(log) && KeysBelow(updates, |slots|) && AscendingKeys(updates)
    ensures RootWithUpdates(h, log, ZeroRoots(h, log), FreshNodes(h, slots), updates)
         == SlotsRoot(h, log, ApplyWrites(slots, updates))
  {
    var result := ApplyWrites(slots, updates);
    var leaves, edited := HashLeaves(h, slots), HashLeaves(h, result);
    var batch := UpdateLeaves(h, ZeroRoots(h, log), updates);
    forall j | 0 <= j < |batch| ensures batch[j].1 == edited[batch[j].0] {
      assert Touches(updates, updates[j].0);
      ApplyWritesAt(slots, updates, updates[j].0, updates[j].1);
    }
    forall i | 0 <= i < |slots| && !Touches(batch, 0 + i) ensures edited[i] == leaves[i] {
      forall j | 0 <= j < |updates| ensures updates[j].0 != i {
        assert batch[j].0 != i;
      }
      ApplyWritesAt(slots, updates, i, EMPTY);
    }
    FirstLeafIsProduct(1, log);
    CoveredIsReachable(Pow2(log), 1, 0, log);
    RootHeadsTree(h, log, leaves);
    OverlayIsMerkleRoot(h, NodesOver(h, leaves), leaves, edited, 1, 0, log, batch);
  }

  /** The three ways to a root agree: overlay of an ordered batch, path updates
      of the same batch in any order (repetitions allowed), and a rebuild. */
  lemma {:induction false} OverlayMatchesAnyWriteOrder(h: Hasher, log: nat, slots: seq<SlotValue>,
                                    updates: seq<(nat, SlotValue)>, order: seq<(nat, SlotValue)>)
    requires |slots| == Pow2(log) && KeysBelow(updates, |slots|) && KeysBelow(order, |slots|)
    requires AscendingKeys(updates)
    requires forall e :: e in order <==> e in updates
    ensures RootWithUpdates(h, log, ZeroRoots(h, log), FreshNodes(h, slots), updates)
         == FreshNodes(h, ApplyWrites(slots, updates))[1]
    ensures RootWithUpdates(h, log, ZeroRoots(h, log), FreshNodes(h, slots), updates)
         == SetSlots(h, log, ZeroRoots(h, log), FreshNodes(h, slots), order)[1]
  {
    var edited := ApplyWrites(slots, updates);
    forall i | 0 <= i < |slots| ensures ApplyWrites(slots, order)[i] == edited[i] {
      AgreeAt(slots, updates, order, i);
    }
    assert ApplyWrites(slots, order) == edited;
    OverlayIsSlotsRoot(h, log, slots, updates);
    SetSlotsIsRebuild(h, log, slots, order);
    RootHeadsTree(h, log, HashLeaves(h, edited));
  }

  lemma {:induction false} AgreeAt(slots: seq<SlotValue>, updates: seq<(nat, SlotValue)>, order: seq<(nat, SlotValue)>,
                                   i: nat)
    requires KeysBelow(updates, |slots|) && KeysBelow(order, |slots|) && AscendingKeys(updates) && i < |slots|
    requires forall e :: e in order <==> e in updates
    ensures ApplyWrites(slots, order)[i] == ApplyWrites(slots, updates)[i]
  {
    var value := EMPTY;
    if Touches(updates, i) {
      var j :| 0 <= j < |updates| && updates[j].0 == i;
      value := updates[j].1;
      assert updates[j] in order;
      var k :| 0 <= k < |order| && order[k] == updates[j];
      assert Touches(order, i);
    }
    forall k | 0 <= k < |order| && order[k].0 == i ensures Touches(updates, i) && order[k].1 == value {
      assert order[k] in updates;
      var j :| 0 <= j < |updates| && updates[j] == order[k];
      assert updates[j].0 == i;
    }
    ApplyWritesAt(slots, updates, i, value);
    ApplyWritesAt(slots, order, i, value);
  }

  // --------------------------------------------------------- interior reads

  function SubtreeRoot(log: nat, nodes: seq<StateHash>, level: nat, index: nat): Option<StateHash>
    requires |nodes| == 2 * Pow2(log)
  {
    if level > log then None
    else
      var width := Pow2(log - level);
      if index >= width then None
      else
        assert width + index < |nodes| by { Pow2Monotone(log - level, log); }
        Some(nodes[width + index])
  }

  /** The slots an interior node at (`level`, `index`) stands for. */
  function Slice(slots: seq<SlotValue>, level: nat, index: nat): (slice: seq<SlotValue>)
    requires (index + 1) * Pow2(level) <= |slots|
    ensures |slice| == Pow2(level)
  {
    ScaleStep(index, Pow2(level));
    slots[index * Pow2(level)..index * Pow2(level) + Pow2(level)]
  }

  /** An interior read answers exactly on aligned ranges inside the segment, with
      the root of a tree built on that range alone. */
  lemma {:induction false} SubtreeRootIsSliceRoot(h: Hasher, log: nat, slots: seq<SlotValue>, level: nat, index: nat)
    requires |slots| == Pow2(log)
    ensures SubtreeRoot(log, FreshNodes(h, slots), level, index).Some? <==> (index + 1) * Pow2(level) <= |slots|
    ensures (index + 1) * Pow2(level) <= |slots| ==>
              SubtreeRoot(log, FreshNodes(h, slots), level, index) == Some(FreshNodes(h, Slice(slots, level, index))[1])
  {
    hide Pow2;
    AlignedInside(log, level, index);
    if level <= log && index < Pow2(log - level) {
      InteriorNode(h, log, slots, level, index);
    }
  }

  lemma {:induction false} AlignedInside(log: nat, level: nat, index: nat)
    ensures (level <= log && index < Pow2(log - level)) <==> (index + 1) * Pow2(level) <= Pow2(log)
  {
    hide Pow2;
    if level > log {
      Pow2StrictlyMonotone(log, level);
      ScaleStep(index, Pow2(level));
    } else {
      Pow2Adds(log - level, level);
      ScaleCompare(index, Pow2(log - level), Pow2(level));
    }
  }

  lemma {:induction false} InteriorNode(h: Hasher, log: nat, slots: seq<SlotValue>, level: nat, index: nat)
    requires |slots| == Pow2(log) && level <= log && index < Pow2(log - level)
    requires (index + 1) * Pow2(level) <= |slots|
    ensures Pow2(log - level) + index < 2 * |slots|
    ensures FreshNodes(h, slots)[Pow2(log - level) + index] == FreshNodes(h, Slice(slots, level, index))[1]
  {
    hide Join;
    var leaves, start, node := HashLeaves(h, slots), index * Pow2(level), Pow2(log - level) + index;
    AlignedCovers(log, level, index);
    NodesObeyLocalRules(h, leaves);
    RulesFormSubtrees(h, leaves, NodesOver(h, leaves), node, start, level);
    var slice := Slice(slots, level, index);
    assert leaves[start..start + Pow2(level)] == HashLeaves(h, slice);
    RootHeadsTree(h, level, HashLeaves(h, slice));
  }

  lemma {:induction false} AlignedCovers(log: nat, level: nat, index: nat)
    requires level <= log && index < Pow2(log - level) && (index + 1) * Pow2(level) <= Pow2(log)
    ensures index * Pow2(level) >= 0
    ensures Covers(Pow2(log), Pow2(log - level) + index, index * Pow2(level), level)
  {
    hide Pow2;
    ScaleStep(index, Pow2(level));
    Pow2Monotone(log - level, log);
    FirstLeafIsProduct(Pow2(log - level) + index, level);
    Pow2Adds(log - level, level);
    Distribute(Pow2(log - level), index, Pow2(level));
  }

  lemma {:induction false} Distribute(a: nat, b: nat, c: nat)
    ensures (a + b) * c == a * c + b * c
  {
  }

  lemma {:induction false} ScaleStep(index: nat, width: nat)
    ensures (index + 1) * width == index * width + width
    ensures index * width >= 0
  {
  }

  lemma {:induction false} ScaleCompare(index: nat, count: nat, width: nat)
    requires width >= 1
    ensures index < count <==> (index + 1) * width <= count * width
  {
    if index < count {
      assert (index + 1) * width <= count * width;
    } else {
      assert (index + 1) * width >= (count + 1) * width;
    }
  }
}
