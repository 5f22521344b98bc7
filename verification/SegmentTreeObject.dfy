/** The tree as the program holds it: a fixed node buffer filled by a rebuild and
    edited in place by slot writes.
 */
module SegmentTreeObject {
  import opened Powers
  import opened ExactStateHash
  import opened SegmentTree

  const STATE_HASH_BYTES: nat := 32
  const BLOCK128_BYTES: nat := 16

  /** The three columns of one segment; `capacity` is the sum of what their
      buffers reserve. */
  datatype SegmentColumns = SegmentColumns(values: seq<Lane>, ownersHi: seq<Lane>, ownersLo: seq<Lane>, capacity: nat) {
    predicate HasSize(size: nat) {
      |values| == size && |ownersHi| == size && |ownersLo| == size
    }

    function Slots(): (slots: seq<SlotValue>)
      requires HasSize(|values|)
      ensures |slots| == |values|
    {
      seq(|values|, i requires 0 <= i < |values| => SlotValue(values[i], ownersHi[i], ownersLo[i]))
    }
  }

  /** The value of a tree object. */
  datatype Tree = Tree(log: nat, nodes: seq<StateHash>, zeros: seq<StateHash>,
                       nodesCapacity: nat, zerosCapacity: nat, columnBytes: nat)
  {
    ghost predicate Valid() {
      && |nodes| == 2 * Pow2(log)
      && |zeros| == log + 1
      && nodesCapacity >= |nodes|
      && zerosCapacity >= |zeros|
    }

    function ResidentBytes(): nat {
      (nodesCapacity + zerosCapacity) * STATE_HASH_BYTES + columnBytes
    }

    /** The hashes are those of a rebuild over `slots`. */
    ghost predicate Commits(h: Hasher, slots: seq<SlotValue>) {
      && |slots| == Pow2(log)
      && nodes == FreshNodes(h, slots)
      && zeros == ZeroRoots(h, log)
    }

    function SetSlot(h: Hasher, local: nat, value: SlotValue): (t: Tree)
      requires Valid() && local < Pow2(log)
      ensures t.Valid() && t.ResidentBytes() == ResidentBytes()
    {
      this.(nodes := SetSlotNodes(h, log, zeros, nodes, local, value))
    }
  }

  /** A rebuild hashes the three columns of every slot, in this order. */
  lemma {:induction false} ColumnsAreLeaves(h: Hasher, log: nat, columns: SegmentColumns, i: nat)
    requires columns.HasSize(Pow2(log)) && i < Pow2(log)
    ensures |FreshNodes(h, columns.Slots())| == 2 * Pow2(log)
    ensures FreshNodes(h, columns.Slots())[Pow2(log) + i]
         == h.leaf(SlotValue(columns.values[i], columns.ownersHi[i], columns.ownersLo[i]))
  {
    NodesObeyLocalRules(h, HashLeaves(h, columns.Slots()));
  }

  lemma {:induction false} SetSlotCommits(h: Hasher, tree: Tree, slots: seq<SlotValue>, local: nat, value: SlotValue)
    requires tree.Valid() && tree.Commits(h, slots) && local < |slots|
    ensures tree.SetSlot(h, local, value).Commits(h, slots[local := value])
  {
    SetSlotIsRebuild(h, tree.log, slots, local, value);
  }

  method FillLeaves(h: Hasher, zeros: seq<StateHash>, slots: seq<SlotValue>, nodes: array<StateHash>)
    requires nodes.Length == 2 * |slots| && |zeros| >= 1 && zeros[0] == h.leaf(EMPTY)
    requires forall i :: 0 <= i < nodes.Length ==> nodes[i] == zeros[0]
    modifies nodes
    ensures nodes[|slots|..] == HashLeaves(h, slots)
    ensures forall i :: 0 <= i < |slots| ==> nodes[i] == old(nodes[i])
  {
    for local := 0 to |slots|
      invariant forall i :: 0 <= i < |slots| ==> nodes[i] == old(nodes[i])
      invariant forall i :: 0 <= i < local ==> nodes[|slots| + i] == h.leaf(slots[i])
      invariant forall i :: |slots| + local <= i < nodes.Length ==> nodes[i] == zeros[0]
    {
      if !slots[local].IsEmpty() {
        nodes[|slots| + local] := h.leaf(slots[local]);
      }
    }
  }

  /** Hash one level of parents from the level below it. */
  method FillLevel(h: Hasher, zeros: seq<StateHash>, level: nat, start: nat, nodes: array<StateHash>)
    requires 1 <= level < |zeros| && zeros[level] == Join(h, zeros[level - 1], zeros[level - 1])
    requires 1 <= start && 4 * start <= nodes.Length
    modifies nodes
    ensures forall i :: 0 <= i < nodes.Length && !(start <= i < 2 * start) ==> nodes[i] == old(nodes[i])
    ensures forall m :: start <= m < 2 * start ==> NodeOk(h, nodes[..], m)
  {
    for node := start to 2 * start
      invariant forall i :: 0 <= i < nodes.Length && !(start <= i < node) ==> nodes[i] == old(nodes[i])
      invariant forall m :: start <= m < node ==> NodeOk(h, nodes[..], m)
    {
      ghost var before := nodes[..];
      var left := nodes[2 * node];
      var right := nodes[2 * node + 1];
      nodes[node] := ParentHash(h, zeros, level - 1, left, right);
      forall m | start <= m < node + 1 ensures NodeOk(h, nodes[..], m) {
        if m < node { assert NodeOk(h, before, m); }
      }
    }
  }

  method FillLevels(h: Hasher, log: nat, zeros: seq<StateHash>, nodes: array<StateHash>)
    requires zeros == ZeroRoots(h, log) && nodes.Length == 2 * Pow2(log)
    modifies nodes
    ensures nodes[0] == old(nodes[0])
    ensures nodes[Pow2(log)..] == old(nodes[Pow2(log)..])
    ensures forall m :: 1 <= m < Pow2(log) ==> NodeOk(h, nodes[..], m)
  {
    hide Join;
    var size := Pow2(log);
    for level := 1 to log + 1
      invariant nodes[0] == old(nodes[0])
      invariant forall i :: size <= i < 2 * size ==> nodes[i] == old(nodes[i])
      invariant forall m :: Pow2(log + 1 - level) <= m < size ==> NodeOk(h, nodes[..], m)
    {
      ghost var before := nodes[..];
      var start := Pow2(log - level);
      assert Pow2(log + 1 - level) == 2 * start;
      Pow2Monotone(log + 1 - level, log);
      FillLevel(h, zeros, level, start, nodes);
      forall m | start <= m < size ensures NodeOk(h, nodes[..], m) {
        if m >= 2 * start { assert NodeOk(h, before, m); }
      }
    }
  }

  lemma {:induction false} ClimbUnfolds(h: Hasher, zeros: seq<StateHash>, nodes: seq<StateHash>, node: nat, level: nat)
    requires level + 1 < |zeros| && 2 <= node < Pow2(|zeros| - level) && node < |nodes| && |nodes| % 2 == 0
    ensures node / 2 < Pow2(|zeros| - (level + 1))
    ensures var parent := node / 2;
            var hash := ParentHash(h, zeros, level, nodes[2 * parent], nodes[2 * parent + 1]);
            Climb(h, zeros, nodes, node, level)
            == if nodes[parent] == hash then nodes else Climb(h, zeros, nodes[parent := hash], parent, level + 1)
  {
    hide Join, ParentHash;
  }

  lemma {:induction false} ClimbEnds(h: Hasher, zeros: seq<StateHash>, nodes: seq<StateHash>, node: nat, level: nat)
    requires level < |zeros| && node == 1 < Pow2(|zeros| - level) && node < |nodes| && |nodes| % 2 == 0
    ensures Climb(h, zeros, nodes, node, level) == nodes
  {
  }

  class ExactSegmentTree {
    const h: Hasher
    const logSlots: nat
    const nodes: array<StateHash>
    const zeros: seq<StateHash>
    const nodesCapacity: nat
    const zerosCapacity: nat
    const columnBytes: nat

    function Value(): Tree
      reads nodes
    {
      Tree(logSlots, nodes[..], zeros, nodesCapacity, zerosCapacity, columnBytes)
    }

    /** Rebuild from columns. The allocator may grant the two hash buffers more
        than it was asked for, so their capacities are inputs. */
    constructor (h: Hasher, logSlots: nat, columns: SegmentColumns, nodesCapacity: nat, zerosCapacity: nat)
      requires columns.HasSize(Pow2(logSlots))
      requires nodesCapacity >= 2 * Pow2(logSlots) && zerosCapacity >= logSlots + 1
      ensures this.h == h && this.logSlots == logSlots && fresh(nodes)
      ensures Value().Valid() && Value().Commits(h, columns.Slots())
      ensures forall i :: 0 <= i < Pow2(logSlots) ==>
                Value().nodes[Pow2(logSlots) + i]
                == h.leaf(SlotValue(columns.values[i], columns.ownersHi[i], columns.ownersLo[i]))
      ensures Value().ResidentBytes() == 32 * (nodesCapacity + zerosCapacity) + 16 * columns.capacity
    {
      var size := Pow2(logSlots);
      var slots := columns.Slots();
      var zeros := ZeroSlotRoots(h, logSlots);
      var nodes := new StateHash[2 * size](_ => zeros[0]);
      FillLeaves(h, zeros, slots, nodes);
      FillLevels(h, logSlots, zeros, nodes);
      LocalRulesGiveNodes(h, HashLeaves(h, slots), nodes[..]);
      forall i | 0 <= i < size
        ensures nodes[size + i] == h.leaf(SlotValue(columns.values[i], columns.ownersHi[i], columns.ownersLo[i])) {
        ColumnsAreLeaves(h, logSlots, columns, i);
      }
      this.h := h;
      this.logSlots := logSlots;
      this.nodes := nodes;
      this.zeros := zeros;
      this.nodesCapacity := nodesCapacity;
      this.zerosCapacity := zerosCapacity;
      this.columnBytes := columns.capacity * BLOCK128_BYTES;
    }

    method Root() returns (root: StateHash)
      requires Value().Valid()
      ensures forall slots :: Value().Commits(h, slots) ==> root == SlotsRoot(h, logSlots, slots)
    {
      root := nodes[1];
      forall slots | Value().Commits(h, slots) ensures root == SlotsRoot(h, logSlots, slots) {
        RootHeadsTree(h, logSlots, HashLeaves(h, slots));
      }
    }

    /** One slot write, stopping at the first ancestor that does not change. */
    method SetSlot(local: nat, value: SlotValue)
      requires Value().Valid() && local < Pow2(logSlots)
      modifies nodes
      ensures Value() == old(Value()).SetSlot(h, local, value)
    {
      hide Join, ParentHash, Pow2, Climb;
      var node := Pow2(logSlots) + local;
      assert Pow2(logSlots + 1) == 2 * Pow2(logSlots) by { Pow2Doubles(logSlots); }
      var hash := LeafHash(h, zeros, value);
      if nodes[node] == hash {
        return;
      }
      nodes[node] := hash;
      var level := 0;
      ghost var target := SetSlotNodes(h, logSlots, zeros, old(nodes[..]), local, value);
      while node > 1
        invariant level <= logSlots && 1 <= node < Pow2(logSlots + 1 - level) && node < nodes.Length
        invariant Climb(h, zeros, nodes[..], node, level) == target
        decreases node
      {
        Pow2Halves(node, logSlots + 1 - level);
        ClimbUnfolds(h, zeros, nodes[..], node, level);
        ghost var before := nodes[..];
        var parent := node / 2;
        var left := nodes[2 * parent];
        var right := nodes[2 * parent + 1];
        var parentHash := ParentHash(h, zeros, level, left, right);
        if nodes[parent] == parentHash {
          return;
        }
        nodes[parent] := parentHash;
        assert nodes[..] == before[parent := parentHash];
        node := parent;
        level := level + 1;
      }
      ClimbEnds(h, zeros, nodes[..], node, level);
    }
  }
}
