/** A Merkle root from sorted leaves in memory logarithmic in the domain: a stack of finished blocks,
    merged like the carries of a binary counter, with gaps emitted as maximal aligned empty subtrees.
 */
module StreamingRoot {
  import opened Wrappers
  import opened Powers
  import opened ExactStateHash

  datatype Block = Block(level: nat, hash: StateHash)

  // ----------------------------------------------------------------- specification

  /** The stack holds the leaves as aligned blocks, larger ones first. */
  ghost predicate Holds(h: Hasher, stack: seq<Block>, leaves: seq<StateHash>)
    decreases |stack|
  {
    if stack == [] then leaves == []
    else
      var front, top := stack[..|stack| - 1], stack[|stack| - 1];
      var size := Pow2(top.level);
      && size <= |leaves|
      && top.hash == MerkleRoot(h, top.level, leaves[|leaves| - size..])
      && (front != [] ==> front[|front| - 1].level > top.level)
      && Holds(h, front, leaves[..|leaves| - size])
  }

  /** Push a block, merging it with equal blocks on the way. */
  function Appended(h: Hasher, stack: seq<Block>, level: nat, hash: StateHash): seq<Block>
    decreases |stack|
  {
    if stack != [] && stack[|stack| - 1].level == level
    then Appended(h, stack[..|stack| - 1], level + 1, Join(h, stack[|stack| - 1].hash, hash))
    else stack + [Block(level, hash)]
  }

  /** The smallest block on the stack is at least this large. */
  ghost predicate Aligned(stack: seq<Block>, level: nat) {
    stack != [] ==> level <= stack[|stack| - 1].level
  }

  lemma {:induction false} JoinedRoot(h: Hasher, level: nat, left: seq<StateHash>, right: seq<StateHash>)
    requires |left| == |right| == Pow2(level)
    ensures |left + right| == Pow2(level + 1)
    ensures MerkleRoot(h, level + 1, left + right) == Join(h, MerkleRoot(h, level, left), MerkleRoot(h, level, right))
  {
    hide Join;
    var all := left + right;
    assert all[..Pow2(level)] == left && all[Pow2(level)..] == right;
  }

  lemma {:induction false} PushedHolds(h: Hasher, stack: seq<Block>, leaves: seq<StateHash>, level: nat,
                                       block: seq<StateHash>)
    requires Holds(h, stack, leaves) && |block| == Pow2(level)
    requires stack != [] ==> stack[|stack| - 1].level > level
    ensures Holds(h, stack + [Block(level, MerkleRoot(h, level, block))], leaves + block)
  {
    hide MerkleRoot;
    var pushed, all := stack + [Block(level, MerkleRoot(h, level, block))], leaves + block;
    assert pushed[..|pushed| - 1] == stack;
    assert all[|all| - Pow2(level)..] == block && all[..|all| - Pow2(level)] == leaves;
  }

  /** Pushing an aligned block appends its leaves. */
  lemma {:induction false} AppendedHolds(h: Hasher, stack: seq<Block>, leaves: seq<StateHash>, level: nat,
                                         block: seq<StateHash>)
    requires Holds(h, stack, leaves) && |block| == Pow2(level) && Aligned(stack, level)
    ensures Holds(h, Appended(h, stack, level, MerkleRoot(h, level, block)), leaves + block)
    decreases |stack|
  {
    hide MerkleRoot, Join;
    if stack != [] && stack[|stack| - 1].level == level {
      var size := |leaves| - Pow2(level);
      var last := leaves[size..];
      JoinedRoot(h, level, last, block);
      AppendedHolds(h, stack[..|stack| - 1], leaves[..size], level + 1, last + block);
      assert leaves[..size] + (last + block) == leaves + block;
    } else {
      PushedHolds(h, stack, leaves, level, block);
    }
  }

  // ------------------------------------------------------------------- alignment

  ghost predicate Divides(d: nat, n: nat) {
    exists k: nat :: Times(k, d) == n
  }

  lemma {:induction false} DividesSum(d: nat, m: nat, n: nat)
    requires Divides(d, m) && Divides(d, n)
    ensures Divides(d, m + n)
  {
    var j: nat :| Times(j, d) == m;
    var k: nat :| Times(k, d) == n;
    assert Times(j + k, d) == m + n;
  }

  lemma {:induction false} SmallerDivides(low: nat, high: nat, n: nat)
    requires low <= high && Divides(Pow2(high), n)
    ensures Divides(Pow2(low), n)
  {
    var k: nat :| Times(k, Pow2(high)) == n;
    Pow2Adds(high - low, low);
    assert Times(Times(k, Pow2(high - low)), Pow2(low)) == n;
  }

  lemma {:induction false} DividesItself(d: nat)
    ensures Divides(d, d)
  {
    assert Times(1, d) == d;
  }

  /** What the stack holds is a multiple of its smallest block. */
  lemma {:induction false} HeldDivides(h: Hasher, stack: seq<Block>, leaves: seq<StateHash>, level: nat)
    requires Holds(h, stack, leaves) && Aligned(stack, level)
    ensures Divides(Pow2(level), |leaves|)
    decreases |stack|
  {
    hide MerkleRoot, Divides;
    if stack == [] {
      NoneDivides(Pow2(level));
    } else {
      var top := stack[|stack| - 1];
      HeldDivides(h, stack[..|stack| - 1], leaves[..|leaves| - Pow2(top.level)], level);
      DividesItself(Pow2(top.level));
      SmallerDivides(level, top.level, Pow2(top.level));
      DividesSum(Pow2(level), |leaves| - Pow2(top.level), Pow2(top.level));
    }
  }

  lemma {:induction false} NoneDivides(d: nat)
    ensures Divides(d, 0)
  {
    assert Times(0, d) == 0;
  }

  /** And of no larger power of two, so a block that fits the position fits the stack. */
  lemma {:induction false} AlignedWhenDivides(h: Hasher, stack: seq<Block>, leaves: seq<StateHash>, level: nat)
    requires Holds(h, stack, leaves) && Divides(Pow2(level), |leaves|)
    ensures Aligned(stack, level)
  {
    hide MerkleRoot, Divides;
    if stack != [] && stack[|stack| - 1].level < level {
      var t := stack[|stack| - 1].level;
      SmallerDivides(t + 1, level, |leaves|);
      HeldDivides(h, stack[..|stack| - 1], leaves[..|leaves| - Pow2(t)], t + 1);
      OddMultiple(t, |leaves| - Pow2(t));
      assert false;
    }
  }

  lemma {:induction false} OddMultiple(t: nat, n: nat)
    requires Divides(Pow2(t + 1), n)
    ensures !Divides(Pow2(t + 1), n + Pow2(t))
  {
    Pow2Doubles(t);
    hide Pow2, Times;
    var d, p := Pow2(t + 1), Pow2(t);
    var j: nat :| Times(j, d) == n;
    forall k: nat ensures Times(k, d) != n + p {
      NoHalf(j, k, p);
    }
  }

  lemma {:induction false} NoHalf(j: nat, k: nat, p: nat)
    requires p >= 1
    ensures Times(k, 2 * p) != Times(j, 2 * p) + p
  {
    hide Times;
    TimesOneMore(j, 2 * p);
    if k <= j {
      TimesGrow(k, j, 2 * p);
    } else {
      TimesGrow(j + 1, k, 2 * p);
    }
  }

  lemma {:induction false} TimesGrow(j: nat, k: nat, d: nat)
    requires j <= k
    ensures Times(j, d) <= Times(k, d)
  {
  }

  // -------------------------------------------------------------------- arithmetic

  /** The position of the highest set bit. */
  function HighestBit(n: nat): (k: nat)
    requires n >= 1
    ensures Pow2(k) <= n < Pow2(k + 1)
  {
    if n == 1 then 0 else HighestBit(n / 2) + 1
  }

  /** The position of the lowest set bit. */
  function LowestBit(n: nat): (k: nat)
    requires n >= 1
    decreases n
  {
    if n % 2 == 1 then 0 else LowestBit(n / 2) + 1
  }

  lemma {:induction false} LowestBitDivides(n: nat)
    requires n >= 1
    ensures Divides(Pow2(LowestBit(n)), n)
    decreases n
  {
    if n % 2 == 1 {
      assert Times(n, Pow2(0)) == n;
    } else {
      LowestBitDivides(n / 2);
      var k: nat :| Times(k, Pow2(LowestBit(n / 2))) == n / 2;
      DoubledTimes(k, Pow2(LowestBit(n / 2)), n / 2);
      assert Times(k, Pow2(LowestBit(n))) == n;
    }
  }

  lemma {:induction false} DoubledTimes(k: nat, d: nat, n: nat)
    requires Times(k, d) == n
    ensures Times(k, 2 * d) == 2 * n
  {
  }

  // --------------------------------------------------------------------- the builder

  /** Empty leaves. */
  function EmptyLeaves(h: Hasher, n: nat): (leaves: seq<StateHash>)
    ensures |leaves| == n && forall i :: 0 <= i < n ==> leaves[i] == h.leaf(EMPTY)
  {
    if n == 0 then [] else EmptyLeaves(h, n - 1) + [h.leaf(EMPTY)]
  }

  lemma {:induction false} EmptyLeavesAdd(h: Hasher, m: nat, n: nat)
    ensures EmptyLeaves(h, m) + EmptyLeaves(h, n) == EmptyLeaves(h, m + n)
  {
  }

  class StreamingSparseRoot {
    const h: Hasher
    const depth: nat
    const zeroRoots: seq<StateHash>
    var position: nat
    var stack: seq<Block>
    ghost var leaves: seq<StateHash>

    ghost predicate Valid()
      reads this
    {
      zeroRoots == ZeroRoots(h, depth) && |leaves| == position && Holds(h, stack, leaves)
    }

    constructor (h: Hasher, depth: nat)
      ensures Valid() && this.h == h && this.depth == depth && position == 0 && leaves == []
    {
      this.h := h;
      this.depth := depth;
      zeroRoots := ZeroRoots(h, depth);
      position := 0;
      stack := [];
      leaves := [];
    }

    method AppendBlock(level0: nat, hash0: StateHash)
      modifies this`stack
      ensures stack == Appended(h, old(stack), level0, hash0)
    {
      hide Join;
      var level, hash := level0, hash0;
      while stack != [] && stack[|stack| - 1].level == level
        invariant Appended(h, stack, level, hash) == Appended(h, old(stack), level0, hash0)
        decreases |stack|
      {
        var left := stack[|stack| - 1].hash;
        stack := stack[..|stack| - 1];
        hash := Join(h, left, hash);
        level := level + 1;
      }
      stack := stack + [Block(level, hash)];
    }

    /** Emit maximal aligned empty subtrees up to `end`. */
    method FillZeroGap(end: nat) returns (ok: bool)
      requires Valid()
      modifies this
      ensures Valid() && (ok <==> old(position) <= end <= Pow2(depth))
      ensures ok ==> position == end && leaves == old(leaves) + EmptyLeaves(h, end - old(position))
      ensures !ok ==> position == old(position) && leaves == old(leaves)
    {
      hide Holds, Appended, MerkleRoot, EmptyLeaves, Pow2, Divides;
      if end < position || end > Pow2(depth) {
        return false;
      }
      ghost var start, before := position, leaves;
      NoEmptyLeaves(h, before);
      while position < end
        invariant Valid() && start <= position <= end && leaves == before + EmptyLeaves(h, position - start)
        decreases end - position
      {
        var byRemaining := HighestBit(end - position);
        var byAlignment := if position == 0 then depth else Min(LowestBit(position), depth);
        var level := Min(byRemaining, byAlignment);
        ghost var block := EmptyLeaves(h, Pow2(level));
        Pow2Monotone(level, byRemaining);
        GapAligned(h, stack, leaves, position, level, byAlignment);
        EmptyBlockRoot(h, depth, level);
        AppendedHolds(h, stack, leaves, level, block);
        EmptyLeavesAdd(h, position - start, Pow2(level));
        AppendBlock(level, zeroRoots[level]);
        leaves := leaves + block;
        position := position + Pow2(level);
      }
      return true;
    }

    /** The leaf at `index`; everything between the last leaf and it is empty. */
    method PushLeaf(index: nat, hash: StateHash) returns (ok: bool)
      requires Valid()
      modifies this
      ensures Valid() && (ok <==> old(position) <= index <= Pow2(depth))
      ensures ok ==> position == index + 1 && leaves == old(leaves) + EmptyLeaves(h, index - old(position)) + [hash]
      ensures !ok ==> position == old(position) && leaves == old(leaves)
    {
      hide Holds, Appended, EmptyLeaves, Pow2;
      ok := FillZeroGap(index);
      if !ok {
        return;
      }
      LeafBlock(h, stack, leaves, hash);
      AppendBlock(0, hash);
      leaves := leaves + [hash];
      position := index + 1;
    }

    /** Fill to the end of the domain; one block is left and it is the root. */
    method Finish() returns (root: Option<StateHash>)
      requires Valid()
      modifies this
      ensures root.Some? <==> old(position) <= Pow2(depth)
      ensures root.Some? ==>
                var all := old(leaves) + EmptyLeaves(h, Pow2(depth) - old(position));
                |all| == Pow2(depth) && root.value == MerkleRoot(h, depth, all)
    {
      hide Holds, MerkleRoot, EmptyLeaves, Pow2;
      var ok := FillZeroGap(Pow2(depth));
      if !ok {
        return None;
      }
      OneBlockLeft(h, stack, leaves, depth);
      if |stack| == 1 && stack[0].level == depth {
        return Some(stack[0].hash);
      }
      return None;
    }
  }

  lemma {:induction false} NoEmptyLeaves(h: Hasher, leaves: seq<StateHash>)
    ensures leaves == leaves + EmptyLeaves(h, 0)
  {
  }

  lemma {:induction false} EmptyBlockRoot(h: Hasher, depth: nat, level: nat)
    requires level <= depth
    ensures ZeroRoots(h, depth)[level] == MerkleRoot(h, level, EmptyLeaves(h, Pow2(level)))
  {
    EmptyLeavesRoot(h, level, EmptyLeaves(h, Pow2(level)));
  }

  lemma {:induction false} GapAligned(h: Hasher, stack: seq<Block>, leaves: seq<StateHash>, position: nat, level: nat,
                                      byAlignment: nat)
    requires Holds(h, stack, leaves) && |leaves| == position && level <= byAlignment
    requires position > 0 ==> byAlignment <= LowestBit(position)
    ensures Aligned(stack, level)
  {
    hide Holds, MerkleRoot, Divides;
    if position == 0 {
      NoneDivides(Pow2(level));
    } else {
      LowestBitDivides(position);
      SmallerDivides(level, LowestBit(position), position);
    }
    AlignedWhenDivides(h, stack, leaves, level);
  }

  lemma {:induction false} LeafBlock(h: Hasher, stack: seq<Block>, leaves: seq<StateHash>, hash: StateHash)
    requires Holds(h, stack, leaves)
    ensures Holds(h, Appended(h, stack, 0, hash), leaves + [hash])
  {
    hide Holds, Appended;
    AppendedHolds(h, stack, leaves, 0, [hash]);
  }

  lemma {:induction false} OneBlockLeft(h: Hasher, stack: seq<Block>, leaves: seq<StateHash>, depth: nat)
    requires Holds(h, stack, leaves) && |leaves| == Pow2(depth)
    ensures |stack| == 1 && stack[0] == Block(depth, MerkleRoot(h, depth, leaves))
  {
    hide MerkleRoot, Divides;
    DividesItself(Pow2(depth));
    AlignedWhenDivides(h, stack, leaves, depth);
    var top := stack[|stack| - 1];
    if top.level > depth { Pow2StrictlyMonotone(depth, top.level); }
    assert leaves[..0] == [] && leaves[0..] == leaves;
    assert Holds(h, stack[..|stack| - 1], []);
    HoldsNothing(h, stack[..|stack| - 1]);
  }

  lemma {:induction false} HoldsNothing(h: Hasher, stack: seq<Block>)
    requires Holds(h, stack, [])
    ensures stack == []
  {
    hide MerkleRoot;
  }

  // ------------------------------------------------------------ a segment, streamed

  /** The slot at a local index: the update if there is one, else the column entry, else empty. */
  function SlotWith(columns: Option<seq<SlotValue>>, updates: map<nat, SlotValue>, local: nat): SlotValue {
    if local in updates then updates[local]
    else if columns.Some? && local < |columns.value| then columns.value[local]
    else EMPTY
  }

  function SlotsWith(columns: Option<seq<SlotValue>>, updates: map<nat, SlotValue>, size: nat): (slots: seq<SlotValue>)
    ensures |slots| == size && forall i :: 0 <= i < size ==> slots[i] == SlotWith(columns, updates, i)
  {
    if size == 0 then [] else SlotsWith(columns, updates, size - 1) + [SlotWith(columns, updates, size - 1)]
  }

  /** The streamed leaves so far, and the gap behind them, are the leaf hashes of the first slots. */
  ghost predicate Streamed(h: Hasher, leaves: seq<StateHash>, slots: seq<SlotValue>, n: nat) {
    |leaves| <= n <= |slots| && leaves + EmptyLeaves(h, n - |leaves|) == HashLeaves(h, slots)[..n]
  }

  lemma {:induction false} StreamedNothing(h: Hasher, slots: seq<SlotValue>)
    ensures Streamed(h, [], slots, 0)
  {
  }

  lemma {:induction false} StreamedEmpty(h: Hasher, leaves: seq<StateHash>, slots: seq<SlotValue>, n: nat)
    requires Streamed(h, leaves, slots, n) && n < |slots| && slots[n] == EMPTY
    ensures Streamed(h, leaves, slots, n + 1)
  {
    hide HashLeaves;
    var all := HashLeaves(h, slots);
    EmptyLeavesAdd(h, n - |leaves|, 1);
    assert all[..n + 1] == all[..n] + [all[n]];
    assert EmptyLeaves(h, 1) == [h.leaf(EMPTY)];
  }

  lemma {:induction false} StreamedLeaf(h: Hasher, leaves: seq<StateHash>, slots: seq<SlotValue>, n: nat)
    requires Streamed(h, leaves, slots, n) && n < |slots|
    ensures Streamed(h, leaves + EmptyLeaves(h, n - |leaves|) + [h.leaf(slots[n])], slots, n + 1)
  {
    var all := HashLeaves(h, slots);
    hide HashLeaves, EmptyLeaves;
    var pushed := leaves + EmptyLeaves(h, n - |leaves|) + [h.leaf(slots[n])];
    NoEmptyLeaves(h, pushed);
    assert all[..n + 1] == all[..n] + [all[n]];
  }

  /** Stream the live slots of a segment, with a batch of updates laid over its columns. */
  method ExactSegmentRootWithUpdates(h: Hasher, logSegment: nat, columns: Option<seq<SlotValue>>, updates: map<nat,
                                     SlotValue>)
    returns (root: StateHash)
    ensures root == SlotsRoot(h, logSegment, SlotsWith(columns, updates, Pow2(logSegment)))
  {
    hide Pow2, MerkleRoot, EmptyLeaves, HashLeaves, SlotsWith, Streamed;
    var size := Pow2(logSegment);
    ghost var slots := SlotsWith(columns, updates, size);
    var stream := new StreamingSparseRoot(h, logSegment);
    StreamedNothing(h, slots);
    for local: nat := 0 to size
      invariant fresh(stream) && stream.Valid() && stream.h == h && stream.depth == logSegment
      invariant stream.position <= local && Streamed(h, stream.leaves, slots, local)
    {
      var slot := SlotWith(columns, updates, local);
      if slot.IsEmpty() {
        StreamedEmpty(h, stream.leaves, slots, local);
      } else {
        StreamedLeaf(h, stream.leaves, slots, local);
        var ok := stream.PushLeaf(local, h.leaf(slot));
      }
    }
    StreamedAll(h, stream.leaves, slots);
    var finished := stream.Finish();
    root := finished.value;
  }

  lemma {:induction false} StreamedAll(h: Hasher, leaves: seq<StateHash>, slots: seq<SlotValue>)
    requires Streamed(h, leaves, slots, |slots|)
    ensures leaves + EmptyLeaves(h, |slots| - |leaves|) == HashLeaves(h, slots)
  {
    hide HashLeaves, EmptyLeaves;
    assert HashLeaves(h, slots)[..|slots|] == HashLeaves(h, slots);
  }
}
