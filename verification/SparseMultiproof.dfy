/** Canonical Merkle multiproofs with implicit topology: the proof carries only the
    hashes a verifier cannot derive, level by level and left to right.
 */
module SparseMultiproof {
  import opened BinaryTree
  import opened Powers
  import opened ExactStateHash

  // ------------------------------------------------------------------ topology

  ghost predicate Ascending(ps: seq<nat>) {
    forall i, j :: 0 <= i < j < |ps| ==> ps[i] < ps[j]
  }

  ghost predicate Below(ps: seq<nat>, bound: nat) {
    forall i :: 0 <= i < |ps| ==> ps[i] < bound
  }

  /** Both children of the first parent are known. */
  predicate Paired(ps: seq<nat>) {
    |ps| >= 2 && ps[0] % 2 == 0 && ps[1] == ps[0] + 1
  }

  function Width(ps: seq<nat>): nat {
    if Paired(ps) then 2 else 1
  }

  function Parents(ps: seq<nat>): seq<nat> {
    if ps == [] then [] else [ps[0] / 2] + Parents(ps[Width(ps)..])
  }

  /** Positions the proof must supply at this level, in order. */
  function Missing(ps: seq<nat>): seq<nat> {
    if ps == [] then []
    else (if Paired(ps) then [] else [Sibling(ps[0])]) + Missing(ps[Width(ps)..])
  }

  function SiblingCount(ps: seq<nat>, depth: nat): nat
    decreases depth
  {
    if depth == 0 then 0 else |Missing(ps)| + SiblingCount(Parents(ps), depth - 1)
  }

  lemma {:induction false} ParentsShape(ps: seq<nat>, bound: nat)
    requires Ascending(ps) && Below(ps, 2 * bound)
    ensures Ascending(Parents(ps)) && Below(Parents(ps), bound)
    ensures ps != [] ==> Parents(ps) != [] && Parents(ps)[0] == ps[0] / 2
    ensures |Missing(ps)| + 2 * (|ps| - |Parents(ps)|) == |ps| && |Parents(ps)| <= |ps|
    decreases |ps|
  {
    if ps != [] {
      var rest := ps[Width(ps)..];
      ParentsShape(rest, bound);
      var up := Parents(rest);
      if rest != [] {
        assert rest[0] == ps[Width(ps)] && ps[0] / 2 < rest[0] / 2 by {
          assert ps[0] < ps[Width(ps)];
          if !Paired(ps) { assert ps[1] == rest[0]; }
        }
      }
    }
  }

  // ---------------------------------------------------------- reconstruction

  /** Hashes of the parents of one level. */
  function Up(h: Hasher, ps: seq<nat>, hs: seq<StateHash>, siblings: seq<StateHash>): (parents: seq<StateHash>)
    requires |hs| == |ps| && |siblings| == |Missing(ps)|
    ensures |parents| == |Parents(ps)|
    decreases |ps|
  {
    if ps == [] then []
    else if Paired(ps) then [Join(h, hs[0], hs[1])] + Up(h, ps[2..], hs[2..], siblings)
    else
      var parent := if ps[0] % 2 == 0 then Join(h, hs[0], siblings[0]) else Join(h, siblings[0], hs[0]);
      [parent] + Up(h, ps[1..], hs[1..], siblings[1..])
  }

  ghost predicate Positions(ps: seq<nat>, depth: nat) {
    ps != [] && Ascending(ps) && Below(ps, Pow2(depth))
  }

  lemma {:induction false} PositionsUp(ps: seq<nat>, depth: nat)
    requires Positions(ps, depth) && depth >= 1
    ensures Positions(Parents(ps), depth - 1)
  {
    ParentsShape(ps, Pow2(depth - 1));
  }

  lemma {:induction false} AscendingAtLeast(ps: seq<nat>, i: nat)
    requires Ascending(ps) && i < |ps|
    ensures ps[i] >= i
  {
    if i > 0 {
      AscendingAtLeast(ps, i - 1);
      assert ps[i - 1] < ps[i];
    }
  }

  lemma {:induction false} AscendingFits(ps: seq<nat>, bound: nat)
    requires Ascending(ps) && Below(ps, bound)
    ensures |ps| <= bound
  {
    if ps != [] { AscendingAtLeast(ps, |ps| - 1); }
  }

  lemma {:induction false} OnlyRoot(ps: seq<nat>)
    requires Positions(ps, 0)
    ensures ps == [0]
  {
    AscendingFits(ps, 1);
  }

  function Fold(h: Hasher, ps: seq<nat>, hs: seq<StateHash>, siblings: seq<StateHash>, depth: nat): StateHash
    requires Positions(ps, depth) && |hs| == |ps| && |siblings| == SiblingCount(ps, depth)
    decreases depth
  {
    if depth == 0 then hs[0]
    else
      PositionsUp(ps, depth);
      var n := |Missing(ps)|;
      Fold(h, Parents(ps), Up(h, ps, hs, siblings[..n]), siblings[n..], depth - 1)
  }

  // ----------------------------------------------------------------- binding

  /** The pairs hashed at one level, one for each parent. */
  ghost function LevelPairs(ps: seq<nat>, hs: seq<StateHash>, siblings: seq<StateHash>): (pairs: seq<Pair<StateHash>>)
    requires |hs| == |ps| && |siblings| == |Missing(ps)|
    ensures |pairs| == |Parents(ps)|
    decreases |ps|
  {
    if ps == [] then []
    else if Paired(ps) then [Pair(hs[0], hs[1])] + LevelPairs(ps[2..], hs[2..], siblings)
    else
      [if ps[0] % 2 == 0 then Pair(hs[0], siblings[0]) else Pair(siblings[0], hs[0])]
      + LevelPairs(ps[1..], hs[1..], siblings[1..])
  }

  /** The pairs hashed by a whole fold, level by level from the leaves. */
  ghost function FoldPairs(h: Hasher, ps: seq<nat>, hs: seq<StateHash>, siblings: seq<StateHash>,
                           depth: nat): (pairs: seq<Pair<StateHash>>)
    requires Positions(ps, depth) && |hs| == |ps| && |siblings| == SiblingCount(ps, depth)
    decreases depth
  {
    if depth == 0 then []
    else
      PositionsUp(ps, depth);
      var n := |Missing(ps)|;
      LevelPairs(ps, hs, siblings[..n]) + FoldPairs(h, Parents(ps), Up(h, ps, hs, siblings[..n]), siblings[n..],
                                                    depth - 1)
  }

  ghost predicate CollideAt(h: Hasher, xs: seq<Pair<StateHash>>, ys: seq<Pair<StateHash>>, k: nat) {
    k < |xs| && k < |ys| && Collision(h.node, xs[k], ys[k])
  }

  lemma {:induction false} CollideLater(h: Hasher, front: seq<Pair<StateHash>>, xs: seq<Pair<StateHash>>,
                                        front': seq<Pair<StateHash>>, ys: seq<Pair<StateHash>>, k: nat)
    requires |front| == |front'| && CollideAt(h, xs, ys, k)
    ensures CollideAt(h, front + xs, front' + ys, |front| + k)
  {
    hide Collision;
  }

  lemma {:induction false} CollideFirst(h: Hasher, front: seq<Pair<StateHash>>, xs: seq<Pair<StateHash>>,
                                        front': seq<Pair<StateHash>>, ys: seq<Pair<StateHash>>, k: nat)
    requires |front| == |front'| && CollideAt(h, front, front', k)
    ensures CollideAt(h, front + xs, front' + ys, k)
  {
    hide Collision;
  }

  lemma {:induction false} JoinBinds(h: Hasher, a: Pair<StateHash>, b: Pair<StateHash>)
    requires Join(h, a.left, a.right) == Join(h, b.left, b.right)
    ensures a == b || Collision(h.node, a, b)
  {
  }

  lemma {:induction false} UpOfPairs(h: Hasher, ps: seq<nat>, hs: seq<StateHash>, siblings: seq<StateHash>, k: nat)
    requires |hs| == |ps| && |siblings| == |Missing(ps)| && k < |Parents(ps)|
    ensures var pair := LevelPairs(ps, hs, siblings)[k];
            Up(h, ps, hs, siblings)[k] == Join(h, pair.left, pair.right)
    decreases |ps|
  {
    hide Join;
    if k > 0 {
      if Paired(ps) {
        UpOfPairs(h, ps[2..], hs[2..], siblings, k - 1);
      } else {
        UpOfPairs(h, ps[1..], hs[1..], siblings[1..], k - 1);
      }
    }
  }

  lemma {:induction false} PairsInjective(ps: seq<nat>, hs: seq<StateHash>, hs': seq<StateHash>,
                                          siblings: seq<StateHash>, siblings': seq<StateHash>)
    requires |hs| == |hs'| == |ps| && |siblings| == |siblings'| == |Missing(ps)|
    requires LevelPairs(ps, hs, siblings) == LevelPairs(ps, hs', siblings')
    ensures hs == hs' && siblings == siblings'
    decreases |ps|
  {
    if ps != [] {
      var pairs, pairs' := LevelPairs(ps, hs, siblings), LevelPairs(ps, hs', siblings');
      assert pairs[0] == pairs'[0] && pairs[1..] == pairs'[1..];
      if Paired(ps) {
        PairsInjective(ps[2..], hs[2..], hs'[2..], siblings, siblings');
        assert hs == [hs[0], hs[1]] + hs[2..] && hs' == [hs'[0], hs'[1]] + hs'[2..];
      } else {
        PairsInjective(ps[1..], hs[1..], hs'[1..], siblings[1..], siblings'[1..]);
        assert hs == [hs[0]] + hs[1..] && hs' == [hs'[0]] + hs'[1..];
        assert siblings == [siblings[0]] + siblings[1..] && siblings' == [siblings'[0]] + siblings'[1..];
      }
    }
  }

  lemma {:induction false} UpBinds(h: Hasher, ps: seq<nat>, hs: seq<StateHash>, hs': seq<StateHash>,
                                   siblings: seq<StateHash>, siblings': seq<StateHash>)
    returns (k: nat)
    requires |hs| == |hs'| == |ps| && |siblings| == |siblings'| == |Missing(ps)|
    requires Up(h, ps, hs, siblings) == Up(h, ps, hs', siblings')
    ensures CollideAt(h, LevelPairs(ps, hs, siblings), LevelPairs(ps, hs', siblings'),
                      k) || (hs == hs' && siblings == siblings')
  {
    hide Join, Collision, Up, LevelPairs, Missing, Parents;
    var pairs, pairs' := LevelPairs(ps, hs, siblings), LevelPairs(ps, hs', siblings');
    k := 0;
    while k < |pairs| && pairs[k] == pairs'[k]
      invariant k <= |pairs| && pairs[..k] == pairs'[..k]
    {
      k := k + 1;
    }
    if k < |pairs| {
      UpOfPairs(h, ps, hs, siblings, k);
      UpOfPairs(h, ps, hs', siblings', k);
      JoinBinds(h, pairs[k], pairs'[k]);
    } else {
      assert pairs == pairs[..k] && pairs' == pairs'[..k];
      PairsInjective(ps, hs, hs', siblings, siblings');
    }
  }

  /** Two proofs for the same positions that reach the same root are the same proof of the same
      leaves, or two pairs they hash at the same place collide. */
  lemma {:induction false} FoldBinds(h: Hasher, ps: seq<nat>, hs: seq<StateHash>, hs': seq<StateHash>,
                                     siblings: seq<StateHash>, siblings': seq<StateHash>, depth: nat)
    returns (k: nat)
    requires Positions(ps, depth) && |hs| == |hs'| == |ps| && |siblings| == |siblings'| == SiblingCount(ps, depth)
    requires Fold(h, ps, hs, siblings, depth) == Fold(h, ps, hs', siblings', depth)
    ensures CollideAt(h, FoldPairs(h, ps, hs, siblings, depth), FoldPairs(h, ps, hs', siblings', depth),
                      k) || (hs == hs' && siblings == siblings')
    decreases depth
  {
    hide Join, Up, Parents, Missing, Positions, Pow2, LevelPairs, CollideAt;
    k := 0;
    if depth == 0 {
      OnlyRoot(ps);
    } else {
      PositionsUp(ps, depth);
      var n := |Missing(ps)|;
      var low, low' := LevelPairs(ps, hs, siblings[..n]), LevelPairs(ps, hs', siblings'[..n]);
      var up, up' := Up(h, ps, hs, siblings[..n]), Up(h, ps, hs', siblings'[..n]);
      var high, high' := FoldPairs(h, Parents(ps), up, siblings[n..], depth - 1),
          FoldPairs(h, Parents(ps), up', siblings'[n..], depth - 1);
      var j := FoldBinds(h, Parents(ps), up, up', siblings[n..], siblings'[n..], depth - 1);
      if CollideAt(h, high, high', j) {
        CollideLater(h, low, high, low', high', j);
        k := |low| + j;
      } else {
        k := UpBinds(h, ps, hs, hs', siblings[..n], siblings'[..n]);
        assert siblings == siblings[..n] + siblings[n..] && siblings' == siblings'[..n] + siblings'[n..];
        if CollideAt(h, low, low', k) { CollideFirst(h, low, high, low', high', k); }
      }
    }
  }

  // ------------------------------------------------------------- completeness

  /** The level above a level of plain nodes. */
  function LevelUp(h: Hasher, nodes: seq<StateHash>): (up: seq<StateHash>)
    ensures |up| == |nodes| / 2
  {
    seq(|nodes| / 2, i requires 0 <= i < |nodes| / 2 => Join(h, nodes[2 * i], nodes[2 * i + 1]))
  }

  function Pick(nodes: seq<StateHash>, ps: seq<nat>): (hs: seq<StateHash>)
    requires Below(ps, |nodes|)
    ensures |hs| == |ps| && forall i :: 0 <= i < |ps| ==> hs[i] == nodes[ps[i]]
  {
    seq(|ps|, i requires 0 <= i < |ps| => nodes[ps[i]])
  }

  lemma {:induction false} LevelUpSplits(h: Hasher, nodes: seq<StateHash>, half: nat)
    requires |nodes| == 4 * half
    ensures LevelUp(h, nodes)[..half] == LevelUp(h, nodes[..2 * half])
    ensures LevelUp(h, nodes)[half..] == LevelUp(h, nodes[2 * half..])
  {
  }

  lemma {:induction false} RootSplits(h: Hasher, depth: nat, below: nat, nodes: seq<StateHash>)
    requires depth == below + 1 && |nodes| == Pow2(depth)
    ensures |nodes| == 2 * Pow2(below)
    ensures MerkleRoot(h, depth, nodes)
         == Join(h, MerkleRoot(h, below, nodes[..Pow2(below)]), MerkleRoot(h, below, nodes[Pow2(below)..]))
  {
    hide Join;
  }

  lemma {:induction false} RootOfTwo(h: Hasher, nodes: seq<StateHash>)
    requires |nodes| == Pow2(1)
    ensures MerkleRoot(h, 1, nodes) == MerkleRoot(h, 0, LevelUp(h, nodes))
  {
    hide Join;
    assert nodes[..1][0] == nodes[0] && nodes[1..][0] == nodes[1];
  }

  /** Hashing level by level reaches the plain root. */
  lemma {:induction false} RootByLevels(h: Hasher, depth: nat, below: nat, nodes: seq<StateHash>)
    requires depth == below + 1 && |nodes| == Pow2(depth)
    ensures |LevelUp(h, nodes)| == Pow2(below)
    ensures MerkleRoot(h, depth, nodes) == MerkleRoot(h, below, LevelUp(h, nodes))
    decreases depth
  {
    Pow2Doubles(below);
    hide Join, LevelUp, MerkleRoot, Pow2;
    if below == 0 {
      RootOfTwo(h, nodes);
    } else {
      var half, lower := Pow2(below), below - 1;
      Pow2Doubles(lower);
      LevelUpSplits(h, nodes, Pow2(lower));
      RootSplits(h, depth, below, nodes);
      RootSplits(h, below, lower, LevelUp(h, nodes));
      RootByLevels(h, below, lower, nodes[..half]);
      RootByLevels(h, below, lower, nodes[half..]);
    }
  }

  lemma {:induction false} MissingShape(ps: seq<nat>, bound: nat)
    requires Ascending(ps) && Below(ps, 2 * bound)
    ensures Below(Missing(ps), 2 * bound)
    decreases |ps|
  {
    if ps != [] { MissingShape(ps[Width(ps)..], bound); }
  }

  lemma {:induction false} PickCons(nodes: seq<StateHash>, p: nat, ps: seq<nat>)
    requires p < |nodes| && Below(ps, |nodes|)
    ensures Pick(nodes, [p] + ps) == [nodes[p]] + Pick(nodes, ps)
  {
  }

  lemma {:induction false} PickDrops(nodes: seq<StateHash>, ps: seq<nat>, n: nat)
    requires Below(ps, |nodes|) && n <= |ps|
    ensures Pick(nodes, ps)[n..] == Pick(nodes, ps[n..])
  {
  }

  lemma {:induction false} LevelUnfolds(ps: seq<nat>)
    requires ps != []
    ensures Parents(ps) == [ps[0] / 2] + Parents(ps[Width(ps)..])
    ensures Missing(ps) == if Paired(ps) then Missing(ps[2..]) else [Sibling(ps[0])] + Missing(ps[1..])
  {
  }

  lemma {:induction false} UpUnfolds(h: Hasher, ps: seq<nat>, hs: seq<StateHash>, siblings: seq<StateHash>)
    requires ps != [] && |hs| == |ps| && |siblings| == |Missing(ps)|
    ensures Paired(ps) ==>
              && |siblings| == |Missing(ps[2..])|
              && Up(h, ps, hs, siblings) == [Join(h, hs[0], hs[1])] + Up(h, ps[2..], hs[2..], siblings)
    ensures !Paired(ps) ==>
              && |siblings| == |Missing(ps[1..])| + 1
              && Up(h, ps, hs, siblings)
                 == [if ps[0] % 2 == 0 then Join(h, hs[0], siblings[0]) else Join(h, siblings[0], hs[0])]
                    + Up(h, ps[1..], hs[1..], siblings[1..])
  {
    hide Join;
  }

  lemma {:induction false} UpOfPlain(h: Hasher, nodes: seq<StateHash>, ps: seq<nat>, bound: nat)
    requires Ascending(ps) && |nodes| == 2 * bound && Below(ps, |nodes|) && Below(Missing(ps), |nodes|)
    requires Below(Parents(ps), bound)
    ensures Up(h, ps, Pick(nodes, ps), Pick(nodes, Missing(ps))) == Pick(LevelUp(h, nodes), Parents(ps))
    decreases |ps|
  {
    hide Join, Up, Missing, Parents;
    if ps == [] {
      UpOfNothing(h, nodes);
    } else {
      var rest := ps[Width(ps)..];
      MissingShape(rest, bound);
      ParentsShape(rest, bound);
      UpOfPlain(h, nodes, rest, bound);
      UpOfFirst(h, nodes, ps, bound);
    }
  }

  /** The first parent of a level of plain nodes, given the others. */
  lemma {:induction false} UpOfFirst(h: Hasher, nodes: seq<StateHash>, ps: seq<nat>, bound: nat)
    requires ps != [] && |nodes| == 2 * bound && Below(ps, |nodes|) && Below(Missing(ps), |nodes|)
    requires Below(Parents(ps), bound)
    requires var rest := ps[Width(ps)..];
             && Below(rest, |nodes|) && Below(Missing(rest), |nodes|) && Below(Parents(rest), bound)
             && Up(h, rest, Pick(nodes, rest), Pick(nodes, Missing(rest))) == Pick(LevelUp(h, nodes), Parents(rest))
    ensures Up(h, ps, Pick(nodes, ps), Pick(nodes, Missing(ps))) == Pick(LevelUp(h, nodes), Parents(ps))
  {
    hide Join, Up, Missing, Parents, Pick;
    var rest, up := ps[Width(ps)..], LevelUp(h, nodes);
    LevelUnfolds(ps);
    UpUnfolds(h, ps, Pick(nodes, ps), Pick(nodes, Missing(ps)));
    PickDrops(nodes, ps, Width(ps));
    PickCons(up, ps[0] / 2, Parents(rest));
    if !Paired(ps) {
      PickCons(nodes, Sibling(ps[0]), Missing(rest));
    }
  }

  lemma {:induction false} UpOfNothing(h: Hasher, nodes: seq<StateHash>)
    ensures Missing([]) == [] && Parents([]) == []
    ensures Up(h, [], Pick(nodes, []), Pick(nodes, [])) == Pick(LevelUp(h, nodes), [])
  {
  }

  /** The hashes an honest proof carries. */
  function Frontier(h: Hasher, nodes: seq<StateHash>, ps: seq<nat>, depth: nat): (siblings: seq<StateHash>)
    requires Positions(ps, depth) && |nodes| == Pow2(depth)
    ensures |siblings| == SiblingCount(ps, depth)
    decreases depth
  {
    if depth == 0 then []
    else
      PositionsUp(ps, depth);
      MissingShape(ps, Pow2(depth - 1));
      Pick(nodes, Missing(ps)) + Frontier(h, LevelUp(h, nodes), Parents(ps), depth - 1)
  }

  /** An honest proof reaches the plain root. */
  lemma {:induction false} FoldOfPlain(h: Hasher, nodes: seq<StateHash>, ps: seq<nat>, depth: nat)
    requires Positions(ps, depth) && |nodes| == Pow2(depth)
    ensures Fold(h, ps, Pick(nodes, ps), Frontier(h, nodes, ps, depth), depth) == MerkleRoot(h, depth, nodes)
    decreases depth
  {
    hide Join, Up, LevelUp, Parents, Missing;
    if depth == 0 {
      OnlyRoot(ps);
    } else {
      PositionsUp(ps, depth);
      MissingShape(ps, Pow2(depth - 1));
      ParentsShape(ps, Pow2(depth - 1));
      UpOfPlain(h, nodes, ps, Pow2(depth - 1));
      RootByLevels(h, depth, depth - 1, nodes);
      FoldOfPlain(h, LevelUp(h, nodes), Parents(ps), depth - 1);
      var siblings, n := Frontier(h, nodes, ps, depth), |Missing(ps)|;
      assert siblings[..n] == Pick(nodes, Missing(ps));
      assert siblings[n..] == Frontier(h, LevelUp(h, nodes), Parents(ps), depth - 1);
    }
  }

  // ------------------------------------------------------------- transitions

  ghost predicate AgreeOff(nodes: seq<StateHash>, nodes': seq<StateHash>, ps: seq<nat>) {
    |nodes| == |nodes'| && forall i :: 0 <= i < |nodes| && i !in ps ==> nodes[i] == nodes'[i]
  }

  lemma {:induction false} MissingIsUntouched(ps: seq<nat>, p: nat)
    requires Ascending(ps) && p in Missing(ps)
    ensures p !in ps && ps != [] && p / 2 >= ps[0] / 2
    decreases |ps|
  {
    var rest := ps[Width(ps)..];
    if p in Missing(rest) {
      MissingIsUntouched(rest, p);
      assert ps == ps[..Width(ps)] + rest;
      assert ps[0] / 2 < rest[0] / 2 by {
        assert ps[0] < ps[Width(ps)];
        if !Paired(ps) { assert ps[1] == rest[0]; }
      }
    } else {
      assert !Paired(ps) && p == Sibling(ps[0]);
      forall i | 0 <= i < |ps| ensures ps[i] != p {
        if i >= 1 { assert ps[0] < ps[i]; }
        if i >= 2 { assert ps[1] < ps[i] && ps[0] < ps[1]; }
      }
    }
  }

  lemma {:induction false} ParentIsKnown(ps: seq<nat>, p: nat)
    requires p in ps
    ensures p / 2 in Parents(ps)
    decreases |ps|
  {
    var rest := ps[Width(ps)..];
    assert ps == ps[..Width(ps)] + rest;
    if p in rest { ParentIsKnown(rest, p); }
  }

  lemma {:induction false} AgreeUp(h: Hasher, nodes: seq<StateHash>, nodes': seq<StateHash>, ps: seq<nat>)
    requires AgreeOff(nodes, nodes', ps)
    ensures AgreeOff(LevelUp(h, nodes), LevelUp(h, nodes'), Parents(ps))
  {
    hide Join;
    var up, up' := LevelUp(h, nodes), LevelUp(h, nodes');
    forall i | 0 <= i < |up| && i !in Parents(ps) ensures up[i] == up'[i] {
      if 2 * i in ps { ParentIsKnown(ps, 2 * i); }
      if 2 * i + 1 in ps { ParentIsKnown(ps, 2 * i + 1); }
    }
  }

  /** The frontier does not depend on the touched leaves. */
  lemma {:induction false} FrontierIgnoresTouched(h: Hasher, nodes: seq<StateHash>, nodes': seq<StateHash>,
                                                  ps: seq<nat>, depth: nat)
    requires Positions(ps, depth) && |nodes| == Pow2(depth) && AgreeOff(nodes, nodes', ps)
    ensures Frontier(h, nodes, ps, depth) == Frontier(h, nodes', ps, depth)
    decreases depth
  {
    hide Join, LevelUp, Parents, Missing;
    if depth > 0 {
      PositionsUp(ps, depth);
      MissingShape(ps, Pow2(depth - 1));
      AgreeUp(h, nodes, nodes', ps);
      FrontierIgnoresTouched(h, LevelUp(h, nodes), LevelUp(h, nodes'), Parents(ps), depth - 1);
      var missing := Missing(ps);
      forall i | 0 <= i < |missing| ensures nodes[missing[i]] == nodes'[missing[i]] {
        MissingIsUntouched(ps, missing[i]);
      }
      assert Pick(nodes, missing) == Pick(nodes', missing);
    }
  }

  /** Against the root of `nodes`, an accepted proof shows the true leaves and the true frontier;
      folded again with other leaves it gives the root of the tree in which only the touched positions
      changed. Otherwise a pair the proof hashes collides with the pair the tree hashes at that place. */
  lemma {:induction false} TransitionSound(h: Hasher, nodes: seq<StateHash>, nodes': seq<StateHash>, ps: seq<nat>,
                        hs: seq<StateHash>, siblings: seq<StateHash>, depth: nat)
    returns (k: nat)
    requires Positions(ps, depth) && |nodes| == Pow2(depth) && AgreeOff(nodes, nodes', ps)
    requires |hs| == |ps| && |siblings| == SiblingCount(ps, depth)
    requires Fold(h, ps, hs, siblings, depth) == MerkleRoot(h, depth, nodes)
    ensures || CollideAt(h, FoldPairs(h, ps, hs, siblings, depth),
                         FoldPairs(h, ps, Pick(nodes, ps), Frontier(h, nodes, ps, depth), depth), k)
            || (&& hs == Pick(nodes, ps)
                && siblings == Frontier(h, nodes, ps, depth)
                && Fold(h, ps, Pick(nodes', ps), siblings, depth) == MerkleRoot(h, depth, nodes'))
  {
    FoldOfPlain(h, nodes, ps, depth);
    FoldOfPlain(h, nodes', ps, depth);
    FrontierIgnoresTouched(h, nodes, nodes', ps, depth);
    hide Join, Fold, Frontier, MerkleRoot, SiblingCount, Positions, FoldPairs, CollideAt;
    k := FoldBinds(h, ps, hs, Pick(nodes, ps), siblings, Frontier(h, nodes, ps, depth), depth);
  }
}
