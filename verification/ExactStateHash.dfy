/** Exact-state commitment: slots, their hashes and the plain Merkle root.

    The sponge behind the leaf and node hashes stays uninterpreted: a `Hasher`
    is any pair of functions, so nothing below assumes collision resistance.
 */
module ExactStateHash {
  import opened Powers

  /** One 128-bit field element. */
  type Lane = x: nat | x < 0x1_0000_0000_0000_0000_0000_0000_0000_0000

  datatype SlotValue = SlotValue(value: Lane, ownerHi: Lane, ownerLo: Lane) {
    predicate IsEmpty() {
      this == EMPTY
    }
  }

  const EMPTY := SlotValue(0, 0, 0)

  type StateHash(==, 0, !new)

  datatype Hasher = Hasher(leaf: SlotValue -> StateHash, node: (StateHash, StateHash) -> StateHash)

  /** Hash of an interior node. */
  function Join(h: Hasher, left: StateHash, right: StateHash): StateHash {
    h.node(left, right)
  }

  /** Root of an all-empty subtree of depth `level`. */
  function ZeroRoot(h: Hasher, level: nat): StateHash {
    if level == 0 then h.leaf(EMPTY) else Join(h, ZeroRoot(h, level - 1), ZeroRoot(h, level - 1))
  }

  function ZeroRoots(h: Hasher, maxDepth: nat): seq<StateHash> {
    seq(maxDepth + 1, level requires 0 <= level => ZeroRoot(h, level))
  }

  method ZeroSlotRoots(h: Hasher, maxDepth: nat) returns (roots: seq<StateHash>)
    ensures roots == ZeroRoots(h, maxDepth)
  {
    roots := [h.leaf(EMPTY)];
    for depth := 0 to maxDepth
      invariant |roots| == depth + 1
      invariant forall level :: 0 <= level <= depth ==> roots[level] == ZeroRoot(h, level)
    {
      var z := roots[depth];
      roots := roots + [Join(h, z, z)];
    }
  }

  function HashLeaves(h: Hasher, slots: seq<SlotValue>): (leaves: seq<StateHash>)
    ensures |leaves| == |slots|
    ensures forall i :: 0 <= i < |slots| ==> leaves[i] == h.leaf(slots[i])
  {
    seq(|slots|, i requires 0 <= i < |slots| => h.leaf(slots[i]))
  }

  /** The reference commitment: hash every pair of neighbours, with no shortcut. */
  function MerkleRoot(h: Hasher, depth: nat, leaves: seq<StateHash>): StateHash
    requires |leaves| == Pow2(depth)
  {
    if depth == 0 then leaves[0]
    else
      var half := Pow2(depth - 1);
      Join(h, MerkleRoot(h, depth - 1, leaves[..half]), MerkleRoot(h, depth - 1, leaves[half..]))
  }

  function SlotsRoot(h: Hasher, depth: nat, slots: seq<SlotValue>): StateHash
    requires |slots| == Pow2(depth)
  {
    MerkleRoot(h, depth, HashLeaves(h, slots))
  }

  /** The commitment without the table or the helpers: a single slot is its leaf hash, twice as many slots are
      the node hash of the two halves in order, and the empty slot is three zero lanes. */
  lemma {:induction false} RootOfHalves(h: Hasher, depth: nat, left: seq<SlotValue>, right: seq<SlotValue>)
    requires |left| == |right| == Pow2(depth)
    ensures |left + right| == Pow2(depth + 1)
    ensures SlotsRoot(h, depth + 1, left + right)
         == h.node(SlotsRoot(h, depth, left), SlotsRoot(h, depth, right))
    ensures depth == 0 ==> SlotsRoot(h, 0, left) == h.leaf(left[0])
    ensures ZeroRoot(h, depth + 1) == h.node(ZeroRoot(h, depth), ZeroRoot(h, depth))
    ensures ZeroRoot(h, 0) == h.leaf(SlotValue(0, 0, 0))
    ensures forall i :: 0 <= i < |left| ==>
                          (left[i].IsEmpty() <==> left[i].value == left[i].ownerHi == left[i].ownerLo == 0)
  {
    var leaves := HashLeaves(h, left + right);
    assert leaves[..Pow2(depth)] == HashLeaves(h, left) && leaves[Pow2(depth)..] == HashLeaves(h, right);
  }

  /** The zero table holds the plain roots of empty subtrees. */
  lemma {:induction false} EmptyLeavesRoot(h: Hasher, depth: nat, leaves: seq<StateHash>)
    requires |leaves| == Pow2(depth)
    requires forall i :: 0 <= i < |leaves| ==> leaves[i] == h.leaf(EMPTY)
    ensures MerkleRoot(h, depth, leaves) == ZeroRoot(h, depth)
  {
    if depth != 0 {
      EmptyLeavesRoot(h, depth - 1, leaves[..Pow2(depth - 1)]);
      EmptyLeavesRoot(h, depth - 1, leaves[Pow2(depth - 1)..]);
    }
  }

  lemma {:induction false} EmptySlotsRoot(h: Hasher, depth: nat, slots: seq<SlotValue>)
    requires |slots| == Pow2(depth)
    requires forall i :: 0 <= i < |slots| ==> slots[i].IsEmpty()
    ensures SlotsRoot(h, depth, slots) == ZeroRoot(h, depth)
  {
    EmptyLeavesRoot(h, depth, HashLeaves(h, slots));
  }
}
