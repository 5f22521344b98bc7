/** The sparse node cache that proofs are built from, and the verifier's loop.  */
module SparseMerkleObject {
  import opened Wrappers
  import opened Powers
  import opened ExactStateHash
  import opened SparseMultiproof

  const MAX_DEPTH: nat := 32

  datatype MerkleError =
    | InvalidDepth(depth: nat)
    | EmptyIndices
    | LeafCountMismatch(indices: nat, leaves: nat)
    | UnsortedIndices
    | DuplicateIndex(index: nat)
    | IndexOutOfRange(index: nat, depth: nat)
    | ProofLengthMismatch(expected: nat, actual: nat)

  // --------------------------------------------------------------- validation

  method ValidateIndices(indices: seq<nat>, depth: nat) returns (result: Result<(), MerkleError>)
    ensures result.Ok? <==> depth <= MAX_DEPTH && Positions(indices, depth)
  {
    if depth > MAX_DEPTH {
      return Err(InvalidDepth(depth));
    }
    if indices == [] {
      return Err(EmptyIndices);
    }
    for i := 0 to |indices|
      invariant Below(indices[..i], Pow2(depth)) && Ascending(indices[..i])
    {
      var index := indices[i];
      if index >= Pow2(depth) {
        return Err(IndexOutOfRange(index, depth));
      }
      if i > 0 {
        if index < indices[i - 1] {
          return Err(UnsortedIndices);
        }
        if index == indices[i - 1] {
          return Err(DuplicateIndex(index));
        }
        assert indices[..i][i - 1] == indices[i - 1];
      }
      assert indices[..i + 1] == indices[..i] + [index];
    }
    assert indices[..|indices|] == indices;
    return Ok(());
  }

  // ------------------------------------------------------------- verification

  function Base(p: nat): nat {
    p - p % 2
  }

  /** Hash at a position of an ordered map given by its keys and values. */
  function Get(ps: seq<nat>, hs: seq<StateHash>, p: nat): (found: seq<StateHash>)
    requires |hs| == |ps|
    ensures |found| <= 1
  {
    if ps == [] then [] else if ps[0] == p then [hs[0]] else Get(ps[1..], hs[1..], p)
  }

  lemma {:induction false} GetFound(ps: seq<nat>, hs: seq<StateHash>, i: nat)
    requires |hs| == |ps| && Ascending(ps) && i < |ps|
    ensures Get(ps, hs, ps[i]) == [hs[i]]
    decreases |ps|
  {
    if i > 0 { GetFound(ps[1..], hs[1..], i - 1); }
  }

  lemma {:induction false} GetMissing(ps: seq<nat>, hs: seq<StateHash>, p: nat)
    requires |hs| == |ps| && p !in ps
    ensures Get(ps, hs, p) == []
    decreases |ps|
  {
    if ps != [] { GetMissing(ps[1..], hs[1..], p); }
  }

  /** What the verifier finds at the pair of the key it is looking at. */
  lemma {:induction false} PairAt(ps: seq<nat>, hs: seq<StateHash>, i: nat)
    requires |hs| == |ps| && Ascending(ps) && i < |ps|
    requires i > 0 ==> Base(ps[i - 1]) < Base(ps[i])
    ensures Get(ps, hs, Base(ps[i])) == if ps[i] % 2 == 0 then [hs[i]] else []
    ensures Get(ps, hs, Base(ps[i]) + 1)
         == if ps[i] % 2 == 1 then [hs[i]] else if Paired(ps[i..]) then [hs[i + 1]] else []
  {
    hide Get, Ascending;
    GetFound(ps, hs, i);
    if ps[i] % 2 == 1 {
      if i > 0 { BaseGap(ps[i - 1], ps[i]); }
      Between(ps, i, Base(ps[i]));
      GetMissing(ps, hs, Base(ps[i]));
    } else if Paired(ps[i..]) {
      GetFound(ps, hs, i + 1);
    } else {
      After(ps, i);
      GetMissing(ps, hs, ps[i] + 1);
    }
  }

  lemma {:induction false} BaseGap(p: nat, q: nat)
    requires Base(p) < Base(q)
    ensures p < Base(q)
  {
  }

  lemma {:induction false} Between(ps: seq<nat>, i: nat, p: nat)
    requires Ascending(ps) && i < |ps| && p < ps[i] && (i > 0 ==> ps[i - 1] < p)
    ensures p !in ps
  {
    forall k | 0 <= k < |ps| ensures ps[k] != p {
      if k > i { assert ps[i] < ps[k]; } else if k + 1 < i { assert ps[k] < ps[i - 1]; }
    }
  }

  lemma {:induction false} After(ps: seq<nat>, i: nat)
    requires Ascending(ps) && i < |ps| && ps[i] % 2 == 0 && !Paired(ps[i..])
    ensures ps[i] + 1 !in ps
  {
    if i + 1 < |ps| { assert ps[i..][1] == ps[i + 1]; }
    forall k | 0 <= k < |ps| ensures ps[k] != ps[i] + 1 {
      if k > i + 1 { assert ps[i] < ps[i + 1] < ps[k]; } else if k < i { assert ps[k] < ps[i]; }
    }
  }

  /** The part of a level that is still to be hashed when the loop reaches `i`. */
  ghost function Resume(ps: seq<nat>, i: nat): (j: nat)
    requires i <= |ps|
    ensures i <= j <= |ps|
  {
    if 0 < i < |ps| && Base(ps[i - 1]) == Base(ps[i]) then i + 1 else i
  }

  /** The entries before `j` have been hashed with `used` hashes of the level. */
  ghost predicate Progress(h: Hasher, ps: seq<nat>, hs: seq<StateHash>, level: seq<StateHash>,
                           j: nat, parents: seq<nat>, hashes: seq<StateHash>, used: nat)
    requires |hs| == |ps| && |level| == |Missing(ps)|
  {
    && j <= |ps|
    && used + |Missing(ps[j..])| == |level|
    && parents + Parents(ps[j..]) == Parents(ps)
    && hashes + Up(h, ps[j..], hs[j..], level[used..]) == Up(h, ps, hs, level)
  }

  lemma {:induction false} ProgressStarts(h: Hasher, ps: seq<nat>, hs: seq<StateHash>, level: seq<StateHash>)
    requires |hs| == |ps| && |level| == |Missing(ps)|
    ensures Progress(h, ps, hs, level, 0, [], [], 0)
  {
    hide Join, Parents, Missing, Up;
    assert ps[0..] == ps && hs[0..] == hs && level[0..] == level;
  }

  lemma {:induction false} ProgressEnds(h: Hasher, ps: seq<nat>, hs: seq<StateHash>, level: seq<StateHash>,
                     parents: seq<nat>, hashes: seq<StateHash>, used: nat)
    requires |hs| == |ps| && |level| == |Missing(ps)| && Progress(h, ps, hs, level, |ps|, parents, hashes, used)
    ensures parents == Parents(ps) && hashes == Up(h, ps, hs, level) && used == |level|
  {
    hide Join;
    assert ps[|ps|..] == [];
  }

  lemma {:induction false} ProgressStep(h: Hasher, ps: seq<nat>, hs: seq<StateHash>, level: seq<StateHash>,
                     j: nat, parents: seq<nat>, hashes: seq<StateHash>, used: nat, parent: StateHash)
    requires |hs| == |ps| && |level| == |Missing(ps)| && j < |ps|
    requires Progress(h, ps, hs, level, j, parents, hashes, used)
    requires Paired(ps[j..]) ==> j + 1 < |ps| && parent == Join(h, hs[j], hs[j + 1])
    requires !Paired(ps[j..]) ==> used < |level|
    requires !Paired(ps[j..]) ==>
               parent == if ps[j] % 2 == 0 then Join(h, hs[j], level[used]) else Join(h, level[used], hs[j])
    ensures Progress(h, ps, hs, level, j + Width(ps[j..]), parents + [ps[j] / 2], hashes + [parent],
                     if Paired(ps[j..]) then used else used + 1)
  {
    hide Join, Parents, Missing, Up;
    var rest, width := ps[j..], Width(ps[j..]);
    LevelUnfolds(rest);
    UpUnfolds(h, rest, hs[j..], level[used..]);
    assert rest[width..] == ps[j + width..] && hs[j..][width..] == hs[j + width..];
    if !Paired(rest) { assert level[used..][1..] == level[used + 1..]; }
    assert parents + [ps[j] / 2] + Parents(ps[j + width..]) == parents + Parents(rest);
    assert forall t: seq<StateHash> :: hashes + [parent] + t == hashes + ([parent] + t);
  }

  /** A key whose pair is incomplete has a hash of the level to itself. */
  lemma {:induction false} HashAvailable(h: Hasher, ps: seq<nat>, hs: seq<StateHash>, level: seq<StateHash>,
                      j: nat, parents: seq<nat>, hashes: seq<StateHash>, used: nat)
    requires |hs| == |ps| && |level| == |Missing(ps)| && j < |ps|
    requires Progress(h, ps, hs, level, j, parents, hashes, used)
    ensures used <= |level| && (!Paired(ps[j..]) ==> used < |level|)
  {
    hide Join, Parents, Missing, Up;
    LevelUnfolds(ps[j..]);
  }

  /** One level of the verifier: visit the known keys in order, skip a key whose
      parent was already hashed, and take the next proof hash for a missing child. */
  method HashLevel(h: Hasher, ps: seq<nat>, hs: seq<StateHash>, siblings: seq<StateHash>, start: nat)
    returns (parents: seq<nat>, hashes: seq<StateHash>, cursor: nat)
    requires Ascending(ps) && |hs| == |ps|
    requires start + |Missing(ps)| <= |siblings|
    ensures parents == Parents(ps)
    ensures hashes == Up(h, ps, hs, siblings[start..start + |Missing(ps)|])
    ensures cursor == start + |Missing(ps)|
  {
    hide Join, Parents, Missing, Up, Get, Progress, Paired;
    parents, hashes, cursor := [], [], start;
    ghost var level := siblings[start..start + |Missing(ps)|];
    ProgressStarts(h, ps, hs, level);
    var processed: set<nat> := {};
    for i := 0 to |ps|
      invariant forall b :: b in processed <==> exists k :: 0 <= k < i && Base(ps[k]) == b
      invariant start <= cursor && Progress(h, ps, hs, level, Resume(ps, i), parents, hashes, cursor - start)
    {
      var base := Base(ps[i]);
      ProcessedBefore(ps, i);
      NextVisit(ps, i);
      if base in processed {
        continue;
      }
      processed := processed + {base};
      PairAt(ps, hs, i);
      HashAvailable(h, ps, hs, level, i, parents, hashes, cursor - start);
      var left, right := Get(ps, hs, base), Get(ps, hs, base + 1);
      ghost var was := (parents, hashes, cursor);
      var parent: StateHash;
      if left != [] && right != [] {
        parent := Join(h, left[0], right[0]);
      } else if left != [] {
        parent := Join(h, left[0], siblings[cursor]);
        cursor := cursor + 1;
      } else {
        parent := Join(h, siblings[cursor], right[0]);
        cursor := cursor + 1;
      }
      ProgressStep(h, ps, hs, level, i, parents, hashes, was.2 - start, parent);
      parents := parents + [base / 2];
      hashes := hashes + [parent];
    }
    ProgressEnds(h, ps, hs, level, parents, hashes, cursor - start);
  }

  lemma {:induction false} ProcessedBefore(ps: seq<nat>, i: nat)
    requires Ascending(ps) && i < |ps|
    ensures (exists k :: 0 <= k < i && Base(ps[k]) == Base(ps[i])) <==> i > 0 && Base(ps[i - 1]) == Base(ps[i])
  {
    if k :| 0 <= k < i && Base(ps[k]) == Base(ps[i]) {
      assert ps[k] <= ps[i - 1] < ps[i] by { assert k < i - 1 ==> ps[k] < ps[i - 1]; }
    }
  }

  /** Where the loop resumes after visiting or skipping a key. */
  lemma {:induction false} NextVisit(ps: seq<nat>, i: nat)
    requires Ascending(ps) && i < |ps|
    ensures Paired(ps[i..]) ==> i + 1 < |ps|
    ensures Resume(ps, i) == i ==> Resume(ps, i + 1) == i + Width(ps[i..])
    ensures Resume(ps, i) == i + 1 ==> Resume(ps, i + 1) == i + 1
    ensures Resume(ps, i) == i && i > 0 ==> Base(ps[i - 1]) < Base(ps[i])
    ensures Base(ps[i]) / 2 == ps[i] / 2
  {
    if i > 0 { assert ps[i - 1] < ps[i]; }
    if i + 1 < |ps| { assert ps[i] < ps[i + 1]; assert ps[i..][1] == ps[i + 1]; }
  }

  lemma {:induction false} FoldUnfolds(h: Hasher, ps: seq<nat>, hs: seq<StateHash>, siblings: seq<StateHash>,
                                       depth: nat, below: nat)
    requires depth == below + 1 && Positions(ps, depth) && |hs| == |ps| && |siblings| == SiblingCount(ps, depth)
    ensures Positions(Parents(ps), below) && SiblingCount(ps, depth) == |Missing(ps)| + SiblingCount(Parents(ps), below)
    ensures Fold(h, ps, hs, siblings, depth)
         == Fold(h, Parents(ps), Up(h, ps, hs, siblings[..|Missing(ps)|]), siblings[|Missing(ps)|..], below)
  {
    hide Join, Up, Parents, Missing;
    PositionsUp(ps, depth);
  }

  /** The verifier: accepts exactly well-formed proofs and returns their root. */
  method ReconstructRoot(h: Hasher, indices: seq<nat>, leaves: seq<StateHash>, siblings: seq<StateHash>, depth: nat)
    returns (result: Result<StateHash, MerkleError>)
    ensures result.Ok? <==>
              && |indices| == |leaves| && depth <= MAX_DEPTH && Positions(indices, depth)
              && |siblings| == SiblingCount(indices, depth)
    ensures result.Ok? ==> result.value == Fold(h, indices, leaves, siblings, depth)
  {
    hide Join, Up, Parents, Missing, Pow2, Fold;
    if |indices| != |leaves| {
      return Err(LeafCountMismatch(|indices|, |leaves|));
    }
    var valid := ValidateIndices(indices, depth);
    if valid.Err? {
      return Err(valid.error);
    }
    var expected := SiblingCount(indices, depth);
    if |siblings| != expected {
      return Err(ProofLengthMismatch(expected, |siblings|));
    }
    var ps, hs := indices, leaves;
    var cursor: nat := 0;
    ghost var goal := Fold(h, indices, leaves, siblings, depth);
    assert siblings[0..] == siblings;
    for level := 0 to depth
      invariant Positions(ps, depth - level) && |hs| == |ps|
      invariant cursor <= |siblings| && |siblings[cursor..]| == SiblingCount(ps, depth - level)
      invariant Fold(h, ps, hs, siblings[cursor..], depth - level) == goal
    {
      ghost var n := |Missing(ps)|;
      FoldUnfolds(h, ps, hs, siblings[cursor..], depth - level, depth - level - 1);
      assert siblings[cursor..][..n] == siblings[cursor..cursor + n];
      assert siblings[cursor..][n..] == siblings[cursor + n..];
      ps, hs, cursor := HashLevel(h, ps, hs, siblings, cursor);
    }
    OnlyRoot(ps);
    assert Fold(h, ps, hs, siblings[cursor..], 0) == hs[0] by { FoldEnds(h, ps, hs, siblings[cursor..]); }
    return Ok(hs[0]);
  }

  lemma {:induction false} FoldEnds(h: Hasher, ps: seq<nat>, hs: seq<StateHash>, siblings: seq<StateHash>)
    requires Positions(ps, 0) && |hs| == |ps| && |siblings| == SiblingCount(ps, 0)
    ensures Fold(h, ps, hs, siblings, 0) == hs[0]
  {
  }

  // -------------------------------------------------------------- node cache

  /** Plain nodes `level` levels above the leaves. */
  ghost function LevelNodes(h: Hasher, leaves: seq<StateHash>, level: nat): seq<StateHash> {
    if level == 0 then leaves else LevelUp(h, LevelNodes(h, leaves, level - 1))
  }

  lemma {:induction false} LevelNodesSize(h: Hasher, leaves: seq<StateHash>, depth: nat, level: nat)
    requires level <= depth && |leaves| == Pow2(depth)
    ensures |LevelNodes(h, leaves, level)| == Pow2(depth - level)
  {
    hide Join, Pow2;
    if level > 0 {
      LevelNodesSize(h, leaves, depth, level - 1);
      Pow2Doubles(depth - level);
    }
  }

  lemma {:induction false} LevelUpUpdates(h: Hasher, nodes: seq<StateHash>, i: nat, x: StateHash)
    requires i < |nodes| && |nodes| % 2 == 0
    ensures var pair := Base(i);
            && pair + 1 < |nodes|
            && LevelUp(h, nodes[i := x])
               == LevelUp(h, nodes)[i / 2 := Join(h, nodes[i := x][pair], nodes[i := x][pair + 1])]
  {
    hide Join;
  }

  type NodeMap = map<(nat, nat), StateHash>

  function NodeHash(h: Hasher, nodes: NodeMap, level: nat, index: nat): StateHash {
    if (level, index) in nodes then nodes[(level, index)] else ZeroRoot(h, level)
  }

  function SetNode(h: Hasher, nodes: NodeMap, level: nat, index: nat, hash: StateHash): (r: NodeMap)
    ensures NodeHash(h, r, level, index) == hash
    ensures forall l: nat, i: nat :: (l, i) != (level, index) ==> NodeHash(h, r, l, i) == NodeHash(h, nodes, l, i)
  {
    if hash == ZeroRoot(h, level) then nodes - {(level, index)} else nodes[(level, index) := hash]
  }

  /** The map stands for the plain nodes of one level. */
  ghost predicate LevelIs(h: Hasher, nodes: NodeMap, level: nat, values: seq<StateHash>) {
    forall i :: 0 <= i < |values| ==> NodeHash(h, nodes, level, i) == values[i]
  }

  /** Levels up to `level` stand for `after`, the ones above still for `before`. */
  ghost predicate Halfway(h: Hasher, nodes: NodeMap, before: seq<StateHash>, after: seq<StateHash>, depth: nat,
                          level: nat) {
    && (forall l: nat :: l <= level && l <= depth ==> LevelIs(h, nodes, l, LevelNodes(h, after, l)))
    && (forall l: nat :: level < l <= depth ==> LevelIs(h, nodes, l, LevelNodes(h, before, l)))
  }

  lemma {:induction false} LevelSet(h: Hasher, nodes: NodeMap, level: nat, values: seq<StateHash>, index: nat,
                                    hash: StateHash)
    requires LevelIs(h, nodes, level, values) && index < |values|
    ensures LevelIs(h, SetNode(h, nodes, level, index, hash), level, values[index := hash])
    ensures forall l: nat, v: seq<StateHash> :: l != level && LevelIs(h, nodes, l, v) ==>
              LevelIs(h, SetNode(h, nodes, level, index, hash), l, v)
  {
    hide SetNode, NodeHash;
  }

  /** One step up: the parent is rehashed from its two children and stored. */
  lemma {:induction false} StepUp(h: Hasher, nodes: NodeMap, before: seq<StateHash>, after: seq<StateHash>, depth: nat,
                                  level: nat, idx: nat, hash: StateHash)
    requires level < depth && Halfway(h, nodes, before, after, depth, level)
    requires |LevelNodes(h, before, level)| % 2 == 0 && idx < |LevelNodes(h, before, level)|
    requires LevelNodes(h, after, level) == LevelNodes(h, before, level)[idx := hash]
    ensures var above := LevelNodes(h, before, level + 1);
            var parent := if idx % 2 == 0 then Join(h, hash, NodeHash(h, nodes, level, idx + 1)) else Join(h,
                NodeHash(h, nodes, level, idx - 1), hash);
            && idx / 2 < |above|
            && LevelNodes(h, after, level + 1) == above[idx / 2 := parent]
            && Halfway(h, SetNode(h, nodes, level + 1, idx / 2, parent), before, after, depth, level + 1)
  {
    hide Join, SetNode, NodeHash, LevelUp;
    var values := LevelNodes(h, before, level);
    LevelUpUpdates(h, values, idx, hash);
    assert LevelIs(h, nodes, level, LevelNodes(h, after, level));
    var parent := if idx % 2 == 0 then Join(h, hash, NodeHash(h, nodes, level, idx + 1)) else Join(h,
        NodeHash(h, nodes, level, idx - 1), hash);
    LevelSet(h, nodes, level + 1, LevelNodes(h, before, level + 1), idx / 2, parent);
  }

  class SparseMerkleCache {
    const h: Hasher
    const depth: nat
    var nodes: NodeMap
    ghost var leaves: seq<StateHash>

    ghost predicate Valid()
      reads this
    {
      && depth <= MAX_DEPTH
      && |leaves| == Pow2(depth)
      && forall level: nat :: level <= depth ==> LevelIs(h, nodes, level, LevelNodes(h, leaves, level))
    }

    constructor (h: Hasher, depth: nat)
      requires depth <= MAX_DEPTH
      ensures Valid() && this.h == h && this.depth == depth
      ensures leaves == seq(Pow2(depth), _ => ZeroRoot(h, 0))
    {
      this.h := h;
      this.depth := depth;
      nodes := map[];
      leaves := seq(Pow2(depth), _ => ZeroRoot(h, 0));
      new;
      forall level: nat | level <= depth ensures LevelIs(h, nodes, level, LevelNodes(h, leaves, level)) {
        EmptyLevel(h, leaves, level);
      }
    }

    method Root() returns (root: StateHash)
      requires Valid()
      ensures root == MerkleRoot(h, depth, leaves)
    {
      hide NodeHash, LevelIs, LevelNodes, MerkleRoot, Pow2;
      root := NodeHash(h, nodes, depth, 0);
      TopNode(h, nodes, leaves, depth);
    }

    /** Set one leaf and rehash its ancestors. */
    method SetLeaf(index: nat, leaf: StateHash) returns (result: Result<(), MerkleError>)
      requires Valid()
      modifies this
      ensures Valid()
      ensures result == if index < Pow2(depth) then Ok(()) else Err(IndexOutOfRange(index, depth))
      ensures leaves == if index < Pow2(depth) then old(leaves)[index := leaf] else old(leaves)
    {
      hide Join, SetNode, NodeHash, Pow2, Halfway, LevelNodes, LevelIs;
      if index >= Pow2(depth) {
        return Err(IndexOutOfRange(index, depth));
      }
      ghost var before, after := leaves, leaves[index := leaf];
      var idx: nat, hash := index, leaf;
      StartHalfway(h, nodes, before, depth, index, leaf);
      nodes := SetNode(h, nodes, 0, idx, hash);
      for level := 0 to depth
        invariant Halfway(h, nodes, before, after, depth, level)
        invariant idx < |LevelNodes(h, before, level)|
        invariant LevelNodes(h, after, level) == LevelNodes(h, before, level)[idx := hash]
      {
        LevelNodesSize(h, before, depth, level);
        Pow2Doubles(depth - level - 1);
        StepUp(h, nodes, before, after, depth, level, idx, hash);
        hash := if idx % 2 == 0 then Join(h, hash, NodeHash(h, nodes, level, idx + 1)) else Join(h,
            NodeHash(h, nodes, level, idx - 1), hash);
        idx := idx / 2;
        nodes := SetNode(h, nodes, level + 1, idx, hash);
      }
      leaves := after;
      EndHalfway(h, nodes, before, after, depth);
      return Ok(());
    }
  }

  lemma {:induction false} StartHalfway(h: Hasher, nodes: NodeMap, before: seq<StateHash>, depth: nat, index: nat,
                                        leaf: StateHash)
    requires index < |before|
    requires forall level: nat :: level <= depth ==> LevelIs(h, nodes, level, LevelNodes(h, before, level))
    ensures LevelNodes(h, before, 0) == before && LevelNodes(h, before[index := leaf], 0) == before[index := leaf]
    ensures Halfway(h, SetNode(h, nodes, 0, index, leaf), before, before[index := leaf], depth, 0)
  {
    hide SetNode, NodeHash, LevelUp;
    assert LevelIs(h, nodes, 0, LevelNodes(h, before, 0));
    LevelSet(h, nodes, 0, before, index, leaf);
  }

  lemma {:induction false} EndHalfway(h: Hasher, nodes: NodeMap, before: seq<StateHash>, after: seq<StateHash>,
                                      depth: nat)
    requires Halfway(h, nodes, before, after, depth, depth)
    ensures forall level: nat :: level <= depth ==> LevelIs(h, nodes, level, LevelNodes(h, after, level))
  {
  }

  lemma {:induction false} EmptyLevel(h: Hasher, leaves: seq<StateHash>, level: nat)
    requires forall i :: 0 <= i < |leaves| ==> leaves[i] == ZeroRoot(h, 0)
    ensures forall i :: 0 <= i < |LevelNodes(h, leaves, level)| ==>
              LevelNodes(h, leaves, level)[i] == ZeroRoot(h, level)
  {
    if level > 0 { EmptyLevel(h, leaves, level - 1); }
  }

  lemma {:induction false} TopIsRoot(h: Hasher, leaves: seq<StateHash>, depth: nat, level: nat)
    requires level <= depth && |leaves| == Pow2(depth)
    ensures |LevelNodes(h, leaves, depth)| == 1 && |LevelNodes(h, leaves, level)| == Pow2(depth - level)
    ensures LevelNodes(h, leaves, depth)[0] == MerkleRoot(h, depth - level, LevelNodes(h, leaves, level))
    decreases depth - level
  {
    hide Join, LevelUp;
    LevelNodesSize(h, leaves, depth, level);
    LevelNodesSize(h, leaves, depth, depth);
    if level < depth {
      TopIsRoot(h, leaves, depth, level + 1);
      RootByLevels(h, depth - level, depth - level - 1, LevelNodes(h, leaves, level));
    }
  }

  lemma {:induction false} TopNode(h: Hasher, nodes: NodeMap, leaves: seq<StateHash>, depth: nat)
    requires |leaves| == Pow2(depth) && LevelIs(h, nodes, depth, LevelNodes(h, leaves, depth))
    ensures NodeHash(h, nodes, depth, 0) == MerkleRoot(h, depth, leaves)
  {
    hide NodeHash, MerkleRoot, Pow2, LevelUp;
    TopIsRoot(h, leaves, depth, 0);
  }

  // ------------------------------------------------------------ proof building

  /** Coordinates of the missing nodes, level by level. */
  function FrontierPositions(ps: seq<nat>, depth: nat, level: nat): (positions: seq<(nat, nat)>)
    ensures |positions| == SiblingCount(ps, depth)
    decreases depth
  {
    if depth == 0 then []
    else
      Coordinates(level, Missing(ps)) + FrontierPositions(Parents(ps), depth - 1, level + 1)
  }

  function Coordinates(level: nat, missing: seq<nat>): (r: seq<(nat, nat)>)
    ensures |r| == |missing| && forall i :: 0 <= i < |r| ==> r[i] == (level, missing[i])
  {
    seq(|missing|, i requires 0 <= i < |missing| => (level, missing[i]))
  }

  function ReadFrontier(h: Hasher, nodes: NodeMap, positions: seq<(nat, nat)>): (siblings: seq<StateHash>)
    ensures |siblings| == |positions|
  {
    seq(|positions|, i requires 0 <= i < |positions| => NodeHash(h, nodes, positions[i].0, positions[i].1))
  }

  lemma {:induction false} ReadConcat(h: Hasher, nodes: NodeMap, a: seq<(nat, nat)>, b: seq<(nat, nat)>)
    ensures ReadFrontier(h, nodes, a + b) == ReadFrontier(h, nodes, a) + ReadFrontier(h, nodes, b)
  {
  }

  lemma {:induction false} ReadLevel(h: Hasher, nodes: NodeMap, level: nat, values: seq<StateHash>, missing: seq<nat>)
    requires LevelIs(h, nodes, level, values) && Below(missing, |values|)
    ensures ReadFrontier(h, nodes, Coordinates(level, missing)) == Pick(values, missing)
  {
    hide NodeHash;
  }

  /** What a proof builder reads from the cache is the honest frontier. */
  lemma {:induction false} ReadIsFrontier(h: Hasher, nodes: NodeMap, leaves: seq<StateHash>, depth: nat, level: nat,
                                          rest: nat, ps: seq<nat>)
    requires level + rest == depth && |leaves| == Pow2(depth) && Positions(ps, rest)
    requires forall l: nat :: l <= depth ==> LevelIs(h, nodes, l, LevelNodes(h, leaves, l))
    ensures |LevelNodes(h, leaves, level)| == Pow2(rest)
    ensures ReadFrontier(h, nodes, FrontierPositions(ps, rest, level))
         == Frontier(h, LevelNodes(h, leaves, level), ps, rest)
    decreases rest
  {
    hide Join, NodeHash, Parents, Missing, LevelUp, ReadFrontier;
    LevelNodesSize(h, leaves, depth, level);
    if rest == 0 {
      ReadNothing(h, nodes);
    } else {
      var missing := Missing(ps);
      PositionsUp(ps, rest);
      MissingShape(ps, Pow2(rest - 1));
      ReadIsFrontier(h, nodes, leaves, depth, level + 1, rest - 1, Parents(ps));
      ReadConcat(h, nodes, Coordinates(level, missing), FrontierPositions(Parents(ps), rest - 1, level + 1));
      assert LevelIs(h, nodes, level, LevelNodes(h, leaves, level));
      ReadLevel(h, nodes, level, LevelNodes(h, leaves, level), missing);
    }
  }

  lemma {:induction false} ReadNothing(h: Hasher, nodes: NodeMap)
    ensures ReadFrontier(h, nodes, []) == []
  {
  }

  /** Build a proof from the cache, then verify it: the root of the cache comes
      back, and with other leaves at the same indices, the root they would give. */
  method BuildThenVerify(cache: SparseMerkleCache, indices: seq<nat>, leaves': seq<StateHash>)
    returns (result: Result<StateHash, MerkleError>)
    requires cache.Valid() && Positions(indices, cache.depth) && |leaves'| == Pow2(cache.depth)
    requires AgreeOff(cache.leaves, leaves', indices)
    ensures result == Ok(MerkleRoot(cache.h, cache.depth, leaves'))
  {
    var h, depth := cache.h, cache.depth;
    var siblings := ReadFrontier(h, cache.nodes, FrontierPositions(indices, depth, 0));
    ReadIsFrontier(h, cache.nodes, cache.leaves, depth, 0, depth, indices);
    FrontierIgnoresTouched(h, cache.leaves, leaves', indices, depth);
    FoldOfPlain(h, leaves', indices, depth);
    hide Join, Fold, Frontier, MerkleRoot, SiblingCount;
    result := ReconstructRoot(h, indices, Pick(leaves', indices), siblings, depth);
  }
}
