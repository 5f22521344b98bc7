/** The block transaction tree: 256 leaves, zero padded, its root wrapped with the
    real transaction count. */
module TxTree {
  import opened BinaryTree
  import opened Powers
  import opened Wire

  const TX_TREE_LEAVES: nat := 256
  const TX_TREE_DEPTH: nat := 8

  function Zeros(n: nat): Bytes {
    seq(n, _ => 0)
  }

  const ZERO_DIGEST: Digest := Zeros(32)

  /** Node compression, and the compression under the root's own domain tag. */
  datatype TreeHash = TreeHash(compress: (Digest, Digest) -> Digest, wrap: (Digest, Digest) -> Digest)

  function Node(t: TreeHash, left: Digest, right: Digest): Digest {
    t.compress(left, right)
  }

  function CountDigest(count: nat): Digest {
    Le(count, 16) + Zeros(16)
  }

  function BindTxCount(t: TreeHash, root: Digest, count: nat): Digest {
    t.wrap(root, CountDigest(count))
  }

  lemma {:induction false} CountDigestInjective(a: nat, b: nat)
    requires a <= TX_TREE_LEAVES && b <= TX_TREE_LEAVES && CountDigest(a) == CountDigest(b)
    ensures a == b
  {
    hide Le, FromLe, Span;
    Spans();
    LeThenFrom(a, 16);
    LeThenFrom(b, 16);
    assert Le(a, 16) == CountDigest(a)[..16] && Le(b, 16) == CountDigest(b)[..16];
  }

  // ------------------------------------------------------------- specification

  function Halve(t: TreeHash, layer: seq<Digest>): (next: seq<Digest>)
    ensures |next| == |layer| / 2
  {
    seq(|layer| / 2, i requires 0 <= i < |layer| / 2 => Node(t, layer[2 * i], layer[2 * i + 1]))
  }

  function Top(t: TreeHash, layer: seq<Digest>, depth: nat): Digest
    requires |layer| == Pow2(depth)
    decreases depth
  {
    if depth == 0 then layer[0] else Top(t, Halve(t, layer), depth - 1)
  }

  function PathOf(t: TreeHash, layer: seq<Digest>, depth: nat, index: nat): (path: seq<Digest>)
    requires |layer| == Pow2(depth) && index < |layer|
    ensures |path| == depth
    decreases depth
  {
    if depth == 0 then [] else [layer[Sibling(index)]] + PathOf(t, Halve(t, layer), depth - 1, index / 2)
  }

  function Ordered(t: TreeHash, current: Digest, sibling: Digest, index: nat): Digest {
    if index % 2 == 1 then Node(t, sibling, current) else Node(t, current, sibling)
  }

  function FoldPath(t: TreeHash, leaf: Digest, path: seq<Digest>, index: nat): Digest
    decreases |path|
  {
    if path == [] then leaf else FoldPath(t, Ordered(t, leaf, path[0], index), path[1..], index / 2)
  }

  function Empties(n: nat): (empties: seq<Digest>)
    ensures |empties| == n
  {
    if n == 0 then [] else [ZERO_DIGEST] + Empties(n - 1)
  }

  /** Real transactions first, zero digests behind them. */
  function Layer(hashes: seq<Digest>): (layer: seq<Digest>)
    requires |hashes| <= TX_TREE_LEAVES
    ensures |layer| == TX_TREE_LEAVES
  {
    hashes + Empties(TX_TREE_LEAVES - |hashes|)
  }

  lemma {:induction false} Leaves()
    ensures Pow2(TX_TREE_DEPTH) == TX_TREE_LEAVES
  {
    assert Pow2(4) == 16;
    assert Pow2(6) == 64;
  }

  /** The zero suffix the count is bound for: a zero leaf behind the transactions changes nothing. */
  lemma {:induction false} ZeroSuffix(t: TreeHash, hashes: seq<Digest>)
    requires |hashes| < TX_TREE_LEAVES
    ensures BlockTop(t, hashes + [seq(32, _ => 0)]) == BlockTop(t, hashes)
  {
    var z: Digest := seq(32, _ => 0);
    assert z == ZERO_DIGEST;
    assert Layer(hashes + [z]) == Layer(hashes);
  }

  /** The plain binary tree: the left half hashed before the right half. */
  ghost function TreeTop(t: TreeHash, layer: seq<Digest>, depth: nat): Digest
    requires |layer| == Pow2(depth)
    decreases depth
  {
    if depth == 0 then layer[0]
    else t.compress(TreeTop(t, layer[..Pow2(depth - 1)], depth - 1), TreeTop(t, layer[Pow2(depth - 1)..], depth - 1))
  }

  lemma {:induction false} TopSplits(t: TreeHash, layer: seq<Digest>, depth: nat)
    requires |layer| == Pow2(depth + 1)
    ensures Top(t, layer, depth + 1)
         == t.compress(Top(t, layer[..Pow2(depth)], depth), Top(t, layer[Pow2(depth)..], depth))
    decreases depth
  {
    hide Pow2;
    var next, half := Halve(t, layer), Pow2(depth);
    Pow2Doubles(depth);
    if depth == 0 {
      SingleSplit(t, layer);
    } else {
      var q := Pow2(depth - 1);
      Pow2Doubles(depth - 1);
      TopSplits(t, next, depth - 1);
      HalveSplits(t, layer, q);
    }
  }

  lemma {:induction false} SingleSplit(t: TreeHash, layer: seq<Digest>)
    requires |layer| == Pow2(1)
    ensures Top(t, layer, 1) == t.compress(Top(t, layer[..Pow2(0)], 0), Top(t, layer[Pow2(0)..], 0))
  {
  }

  lemma {:induction false} HalveSplits(t: TreeHash, layer: seq<Digest>, q: nat)
    requires |layer| == 4 * q
    ensures Halve(t, layer)[..q] == Halve(t, layer[..2 * q]) && Halve(t, layer)[q..] == Halve(t, layer[2 * q..])
  {
    hide Node;
  }

  /** Halving layer by layer computes that tree. */
  lemma {:induction false} TopIsTree(t: TreeHash, layer: seq<Digest>, depth: nat)
    requires |layer| == Pow2(depth)
    ensures Top(t, layer, depth) == TreeTop(t, layer, depth)
    decreases depth
  {
    hide Top, TreeTop, Pow2, Halve;
    if depth > 0 {
      Pow2Doubles(depth - 1);
      TopSplits(t, layer, depth - 1);
      TreeSplits(t, layer, depth - 1);
      TopIsTree(t, layer[..Pow2(depth - 1)], depth - 1);
      TopIsTree(t, layer[Pow2(depth - 1)..], depth - 1);
    } else {
      SingleTree(t, layer);
    }
  }

  lemma {:induction false} SingleTree(t: TreeHash, layer: seq<Digest>)
    requires |layer| == Pow2(0)
    ensures Top(t, layer, 0) == TreeTop(t, layer, 0) == layer[0]
  {
  }

  lemma {:induction false} TreeSplits(t: TreeHash, layer: seq<Digest>, depth: nat)
    requires |layer| == Pow2(depth + 1)
    ensures TreeTop(t, layer, depth + 1)
         == t.compress(TreeTop(t, layer[..Pow2(depth)], depth), TreeTop(t, layer[Pow2(depth)..], depth))
  {
  }

  function Root(t: TreeHash, hashes: seq<Digest>): Digest
    requires |hashes| <= TX_TREE_LEAVES
  {
    if hashes == [] then ZERO_DIGEST
    else
      Leaves();
      BindTxCount(t, Top(t, Layer(hashes), TX_TREE_DEPTH), |hashes|)
  }

  ghost predicate Included(t: TreeHash, leaf: Digest, path: seq<Digest>, index: nat, count: nat, root: Digest) {
    1 <= count <= TX_TREE_LEAVES && index < count && BindTxCount(t, FoldPath(t, leaf, path, index), count) == root
  }

  // --------------------------------------------------------------- the theorems

  lemma {:induction false} OrderedHalves(t: TreeHash, layer: seq<Digest>, index: nat)
    requires |layer| % 2 == 0 && index < |layer|
    ensures Sibling(index) < |layer|
    ensures Ordered(t, layer[index], layer[Sibling(index)], index) == Halve(t, layer)[index / 2]
  {
    hide Node;
  }

  lemma {:induction false} FoldFirst(t: TreeHash, leaf: Digest, first: Digest, rest: seq<Digest>, index: nat)
    ensures FoldPath(t, leaf, [first] + rest, index) == FoldPath(t, Ordered(t, leaf, first, index), rest, index / 2)
  {
    hide Ordered;
    assert ([first] + rest)[1..] == rest;
  }

  lemma {:induction false} FoldOfPath(t: TreeHash, layer: seq<Digest>, depth: nat, index: nat)
    requires |layer| == Pow2(depth) && index < |layer|
    ensures FoldPath(t, layer[index], PathOf(t, layer, depth, index), index) == Top(t, layer, depth)
    decreases depth
  {
    hide Halve, Ordered, FoldPath;
    if depth > 0 {
      var up := PathOf(t, Halve(t, layer), depth - 1, index / 2);
      FoldOfPath(t, Halve(t, layer), depth - 1, index / 2);
      OrderedHalves(t, layer, index);
      FoldFirst(t, layer[index], layer[Sibling(index)], up, index);
    } else {
      FoldNothing(t, layer[index], index);
    }
  }

  lemma {:induction false} FoldNothing(t: TreeHash, leaf: Digest, index: nat)
    ensures FoldPath(t, leaf, [], index) == leaf
  {
  }

  // --------------------------------------------------------------------- binding

  ghost function Children(current: Digest, sibling: Digest, index: nat): Pair<Digest> {
    if index % 2 == 1 then Pair(sibling, current) else Pair(current, sibling)
  }

  /** The pairs hashed along a fold, the leaf's own pair first. */
  ghost function Steps(t: TreeHash, leaf: Digest, path: seq<Digest>, index: nat): (steps: seq<Pair<Digest>>)
    ensures |steps| == |path|
    decreases |path|
  {
    if path == [] then []
    else [Children(leaf, path[0], index)] + Steps(t, Ordered(t, leaf, path[0], index), path[1..], index / 2)
  }

  lemma {:induction false} OrderedBinds(t: TreeHash, leaf: Digest, sibling: Digest, leaf': Digest, sibling': Digest,
                                        index: nat)
    requires Ordered(t, leaf, sibling, index) == Ordered(t, leaf', sibling', index)
    ensures Collision(t.compress, Children(leaf, sibling, index),
                      Children(leaf', sibling', index)) || (leaf == leaf' && sibling == sibling')
  {
  }

  /** Folding equal-length paths at one index to one root: the same leaf and path, or the two folds
      collide in one of the steps they take. */
  lemma {:induction false} FoldBinds(t: TreeHash, leaf: Digest, path: seq<Digest>, leaf': Digest, path': seq<Digest>,
                                     index: nat)
    returns (k: nat)
    requires |path| == |path'| && FoldPath(t, leaf, path, index) == FoldPath(t, leaf', path', index)
    ensures || (k < |path| && Collision(t.compress, Steps(t, leaf, path, index)[k], Steps(t, leaf', path', index)[k]))
            || (leaf == leaf' && path == path')
    decreases |path|
  {
    hide Node, Ordered, Children, Collision;
    k := 0;
    if path != [] {
      var up, up' := Ordered(t, leaf, path[0], index), Ordered(t, leaf', path'[0], index);
      k := FoldBinds(t, up, path[1..], up', path'[1..], index / 2);
      if up == up' && path[1..] == path'[1..] {
        assert path == [path[0]] + path[1..] && path' == [path'[0]] + path'[1..];
        OrderedBinds(t, leaf, path[0], leaf', path'[0], index);
        k := 0;
      } else {
        k := k + 1;
      }
    }
  }

  /** The pair wrapped into a header root. */
  ghost function Wrapped(root: Digest, count: nat): Pair<Digest> {
    Pair(root, CountDigest(count))
  }

  lemma {:induction false} WrapBinds(t: TreeHash, root: Digest, count: nat, root': Digest, count': nat)
    requires count <= TX_TREE_LEAVES && count' <= TX_TREE_LEAVES
    requires BindTxCount(t, root, count) == BindTxCount(t, root', count')
    ensures Collision(t.wrap, Wrapped(root, count), Wrapped(root', count')) || (root == root' && count == count')
  {
    hide CountDigest;
    if Wrapped(root, count) == Wrapped(root', count') { CountDigestInjective(count, count'); }
  }

  lemma {:induction false} LayerFront(hashes: seq<Digest>, index: nat)
    requires index < |hashes| <= TX_TREE_LEAVES
    ensures Layer(hashes)[index] == hashes[index]
  {
  }

  /** Every transaction's own path is accepted under the header root. */
  lemma {:induction false} OwnPathIncluded(t: TreeHash, hashes: seq<Digest>, index: nat)
    requires index < |hashes| <= TX_TREE_LEAVES
    ensures |Layer(hashes)| == Pow2(TX_TREE_DEPTH)
    ensures Included(t, hashes[index], PathOf(t, Layer(hashes), TX_TREE_DEPTH, index), index, |hashes|, Root(t, hashes))
  {
    Leaves();
    LayerFront(hashes, index);
    hide FoldPath, PathOf, Top, Layer, BindTxCount, Pow2;
    FoldOfPath(t, Layer(hashes), TX_TREE_DEPTH, index);
  }

  ghost function BlockTop(t: TreeHash, hashes: seq<Digest>): Digest
    requires |hashes| <= TX_TREE_LEAVES
  {
    Leaves();
    Top(t, Layer(hashes), TX_TREE_DEPTH)
  }

  ghost function BlockPath(t: TreeHash, hashes: seq<Digest>, index: nat): (path: seq<Digest>)
    requires |hashes| <= TX_TREE_LEAVES && index < TX_TREE_LEAVES
    ensures |path| == TX_TREE_DEPTH
  {
    Leaves();
    PathOf(t, Layer(hashes), TX_TREE_DEPTH, index)
  }

  /** The pairs the block itself hashes on the way up from one of its positions. */
  ghost function BlockSteps(t: TreeHash, hashes: seq<Digest>, index: nat): (steps: seq<Pair<Digest>>)
    requires |hashes| <= TX_TREE_LEAVES && index < TX_TREE_LEAVES
    ensures |steps| == TX_TREE_DEPTH
  {
    Steps(t, Layer(hashes)[index], BlockPath(t, hashes, index), index)
  }

  /** What an accepted path proves about the block behind the root: its real count, that the leaf is
      the transaction at that position and that the path is the block's own. Otherwise the path's
      wrapped root collides with the block's, or one of its steps with the block's step at that height. */
  lemma {:induction false} InclusionSound(t: TreeHash, hashes: seq<Digest>, leaf: Digest, path: seq<Digest>, index: nat,
                                          count: nat)
    returns (k: nat)
    requires 1 <= |hashes| <= TX_TREE_LEAVES && |path| == TX_TREE_DEPTH
    requires Included(t, leaf, path, index, count, Root(t, hashes))
    ensures || Collision(t.wrap, Wrapped(FoldPath(t, leaf, path, index), count), Wrapped(BlockTop(t, hashes), |hashes|))
            || (k < TX_TREE_DEPTH
                && Collision(t.compress, Steps(t, leaf, path, index)[k], BlockSteps(t, hashes, index)[k]))
            || (count == |hashes| && index < |hashes| && leaf == hashes[index] && path == BlockPath(t, hashes, index))
  {
    Leaves();
    hide FoldPath, PathOf, Top, Layer, BindTxCount, Collision, Pow2, Steps, Wrapped;
    k := 0;
    var top := BlockTop(t, hashes);
    WrapBinds(t, FoldPath(t, leaf, path, index), count, top, |hashes|);
    if FoldPath(t, leaf, path, index) == top && count == |hashes| {
      FoldOfPath(t, Layer(hashes), TX_TREE_DEPTH, index);
      LayerFront(hashes, index);
      k := FoldBinds(t, leaf, path, Layer(hashes)[index], BlockPath(t, hashes, index), index);
    }
  }

  /** A block with transactions whose root is the digest of a block without any. */
  ghost predicate LooksEmpty(t: TreeHash, hashes: seq<Digest>)
    requires |hashes| <= TX_TREE_LEAVES
  {
    hashes != [] && BindTxCount(t, BlockTop(t, hashes), |hashes|) == ZERO_DIGEST
  }

  /** Two transaction lists under one root are the same list, in the same order and with the same length;
      otherwise one of them hashes to the digest of no transactions, their wrapped roots collide, or the two
      trees collide at one node. */
  lemma {:induction false} RootBinds(t: TreeHash, xs: seq<Digest>, ys: seq<Digest>) returns (index: nat, k: nat)
    requires |xs| <= TX_TREE_LEAVES && |ys| <= TX_TREE_LEAVES
    requires Root(t, xs) == Root(t, ys)
    ensures || (xs == [] && LooksEmpty(t, ys)) || (ys == [] && LooksEmpty(t, xs))
            || Collision(t.wrap, Wrapped(BlockTop(t, xs), |xs|), Wrapped(BlockTop(t, ys), |ys|))
            || (index < |xs| && k < TX_TREE_DEPTH
                && Collision(t.compress, BlockSteps(t, xs, index)[k], BlockSteps(t, ys, index)[k]))
            || xs == ys
  {
    hide Collision, Root, Layer, BlockSteps, BlockTop, Wrapped, LooksEmpty;
    index, k := 0, 0;
    EmptyRoot(t, xs);
    EmptyRoot(t, ys);
    if xs == [] || ys == [] {
      return;
    }
    while index < |xs| && |xs| == |ys| && xs[index] == ys[index]
      invariant index <= |xs| && (index > 0 ==> |xs| == |ys| && xs[..index] == ys[..index])
    {
      index := index + 1;
    }
    if index < |xs| {
      k := SameAt(t, xs, ys, index);
    }
  }

  lemma {:induction false} EmptyRoot(t: TreeHash, hashes: seq<Digest>)
    requires |hashes| <= TX_TREE_LEAVES
    ensures Root(t, []) == ZERO_DIGEST
    ensures hashes != [] && Root(t, hashes) == ZERO_DIGEST ==> LooksEmpty(t, hashes)
  {
    hide Top, BindTxCount, Layer;
  }

  lemma {:induction false} SameAt(t: TreeHash, xs: seq<Digest>, ys: seq<Digest>, index: nat) returns (k: nat)
    requires index < |xs| <= TX_TREE_LEAVES && 1 <= |ys| <= TX_TREE_LEAVES
    requires Root(t, xs) == Root(t, ys)
    ensures || Collision(t.wrap, Wrapped(BlockTop(t, xs), |xs|), Wrapped(BlockTop(t, ys), |ys|))
            || (k < TX_TREE_DEPTH && Collision(t.compress, BlockSteps(t, xs, index)[k], BlockSteps(t, ys, index)[k]))
            || (|xs| == |ys| && xs[index] == ys[index])
  {
    Leaves();
    hide PathOf, Top, Collision, Included, Root, Layer, Pow2, FoldPath, Steps, Wrapped;
    OwnPathIncluded(t, xs, index);
    FoldOfPath(t, Layer(xs), TX_TREE_DEPTH, index);
    LayerFront(xs, index);
    k := InclusionSound(t, ys, xs[index], BlockPath(t, xs, index), index, |xs|);
  }

  /** The header root, written out: the tree over the transactions and literal zeros, wrapped with the count
      as 16 little-endian bytes and 16 zeros; no transactions give 32 zeros. */
  lemma {:induction false} RootIs(t: TreeHash, hashes: seq<Digest>)
    requires |hashes| <= TX_TREE_LEAVES
    ensures hashes == [] ==> Root(t, hashes) == seq(32, _ => 0)
    ensures hashes != [] ==>
              && |hashes + seq(256 - |hashes|, _ => seq(32, _ => 0))| == Pow2(8)
              && Root(t, hashes) == t.wrap(TreeTop(t, hashes + seq(256 - |hashes|, _ => seq(32, _ => 0)), 8),
                                           [|hashes| % 256, |hashes| / 256] + seq(30, _ => 0))
  {
    Leaves();
    hide Pow2, TreeTop, Top;
    if hashes != [] {
      LayerIs(hashes);
      TopIsTree(t, Layer(hashes), TX_TREE_DEPTH);
      CountBytes(|hashes|);
    }
  }

  lemma {:induction false} LayerIs(hashes: seq<Digest>)
    requires |hashes| <= TX_TREE_LEAVES
    ensures Layer(hashes) == hashes + seq(256 - |hashes|, _ => seq(32, _ => 0))
  {
    EmptiesAre(TX_TREE_LEAVES - |hashes|);
  }

  lemma {:induction false} EmptiesAre(n: nat)
    ensures Empties(n) == seq(n, _ => seq(32, _ => 0))
  {
    if n > 0 {
      EmptiesAre(n - 1);
      assert ZERO_DIGEST == seq(32, _ => 0);
    }
  }

  lemma {:induction false} CountBytes(count: nat)
    requires count <= 256
    ensures CountDigest(count) == [count % 256, count / 256] + seq(30, _ => 0)
  {
    TwoBytes(count, 14);
    LeOfZero(14);
  }

  lemma {:induction false} TwoBytes(value: nat, width: nat)
    requires value < 65536
    ensures Le(value, width + 2) == [value % 256, value / 256] + Le(0, width)
  {
    var rest := value / 256;
    assert Le(value, width + 2) == [value % 256] + Le(rest, width + 1);
    assert Le(rest, width + 1) == [rest % 256] + Le(rest / 256, width);
  }

  lemma {:induction false} LeOfZero(n: nat)
    ensures Le(0, n) == seq(n, _ => 0)
  {
    if n > 0 { LeOfZero(n - 1); }
  }

  // ----------------------------------------------------------------- operations

  method HalveLayer(t: TreeHash, layer: seq<Digest>) returns (next: seq<Digest>)
    ensures next == Halve(t, layer)
  {
    hide Node;
    next := [];
    var i: nat := 0;
    while i < |layer| / 2
      invariant i <= |layer| / 2 && next == Halve(t, layer)[..i]
    {
      next := next + [Node(t, layer[2 * i], layer[2 * i + 1])];
      i := i + 1;
    }
  }

  lemma {:induction false} TopUnfolds(t: TreeHash, layer: seq<Digest>, depth: nat)
    requires |layer| == Pow2(depth)
    ensures |layer| >= 1 && (|layer| > 1 <==> depth > 0)
    ensures depth == 0 ==> Top(t, layer, depth) == layer[0]
    ensures depth > 0 ==>
              |Halve(t, layer)| == Pow2(depth - 1) && Top(t, layer, depth) == Top(t, Halve(t, layer), depth - 1)
  {
    hide Halve;
  }

  lemma {:induction false} PathUnfolds(t: TreeHash, layer: seq<Digest>, depth: nat, index: nat)
    requires |layer| == Pow2(depth) && index < |layer|
    ensures |layer| > 1 <==> depth > 0
    ensures depth > 0 ==>
              && Sibling(index) < |layer| && |Halve(t, layer)| == Pow2(depth - 1) && index / 2 < |Halve(t, layer)|
              && PathOf(t, layer, depth, index)
                == [layer[Sibling(index)]] + PathOf(t, Halve(t, layer), depth - 1, index / 2)
  {
    hide Halve;
  }

  method RootFromHashes(t: TreeHash, hashes: seq<Digest>) returns (root: Digest)
    requires |hashes| <= TX_TREE_LEAVES
    ensures root == Root(t, hashes)
  {
    hide BindTxCount, Halve, Layer, Top, Pow2;
    Leaves();
    if hashes == [] {
      return ZERO_DIGEST;
    }
    var layer := Layer(hashes);
    ghost var depth: nat := TX_TREE_DEPTH;
    TopUnfolds(t, layer, depth);
    while |layer| > 1
      invariant |layer| == Pow2(depth) && (|layer| > 1 <==> depth > 0)
      invariant Top(t, layer, depth) == Top(t, Layer(hashes), TX_TREE_DEPTH)
      decreases depth
    {
      TopUnfolds(t, layer, depth);
      TopUnfolds(t, Halve(t, layer), depth - 1);
      layer := HalveLayer(t, layer);
      depth := depth - 1;
    }
    TopUnfolds(t, layer, depth);
    return BindTxCount(t, layer[0], |hashes|);
  }

  method PathFromHashes(t: TreeHash, hashes: seq<Digest>, txIndex: nat) returns (path: seq<Digest>)
    requires txIndex < |hashes| <= TX_TREE_LEAVES
    ensures |path| == TX_TREE_DEPTH
    ensures Included(t, hashes[txIndex], path, txIndex, |hashes|, Root(t, hashes))
  {
    hide Halve, Included, Layer, Root, PathOf, Pow2, Sibling;
    OwnPathIncluded(t, hashes, txIndex);
    var layer := Layer(hashes);
    var index: nat := txIndex;
    path := [];
    ghost var depth: nat := TX_TREE_DEPTH;
    ghost var whole := PathOf(t, layer, depth, index);
    PathUnfolds(t, layer, depth, index);
    while |layer| > 1
      invariant |layer| == Pow2(depth) && index < |layer| && (|layer| > 1 <==> depth > 0)
      invariant path + PathOf(t, layer, depth, index) == whole
      decreases depth
    {
      PathUnfolds(t, layer, depth, index);
      PathUnfolds(t, Halve(t, layer), depth - 1, index / 2);
      path := path + [layer[Sibling(index)]];
      layer := HalveLayer(t, layer);
      index := index / 2;
      depth := depth - 1;
    }
    assert path == whole;
  }

  lemma {:induction false} ShiftedBit(index: nat, level: nat)
    ensures Quotient(index, Pow2(level + 1)) == Quotient(index, Pow2(level)) / 2
  {
    var p := Pow2(level);
    var q := Quotient(index, p);
    assert q == 2 * (q / 2) + q % 2;
    assert q * p == (q / 2) * (2 * p) + (q % 2) * p;
    assert (q % 2) * p <= p;
    SameQuotient(index, 2 * p, q / 2);
  }

  method VerifyPath(t: TreeHash, leaf: Digest, path: seq<Digest>, txIndex: nat, txCount: nat, claimedRoot: Digest)
    returns (ok: bool)
    requires |path| == TX_TREE_DEPTH
    ensures ok <==> Included(t, leaf, path, txIndex, txCount, claimedRoot)
  {
    if !(1 <= txCount <= TX_TREE_LEAVES) || txIndex >= txCount {
      return false;
    }
    hide BindTxCount, Ordered, Quotient;
    var current := leaf;
    assert Quotient(txIndex, Pow2(0)) == txIndex;
    for level: nat := 0 to TX_TREE_DEPTH
      invariant FoldPath(t, current, path[level..], Quotient(txIndex, Pow2(level))) == FoldPath(t, leaf, path, txIndex)
    {
      ShiftedBit(txIndex, level);
      current := Ordered(t, current, path[level], Quotient(txIndex, Pow2(level)));
      assert path[level..][1..] == path[level + 1..];
    }
    return BindTxCount(t, current, txCount) == claimedRoot;
  }
}
