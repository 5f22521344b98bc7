/** The multilinear evaluator: a weighted fold of each block of 64, then one halving
    round per remaining variable. */
module QuirkyEval {
  import opened Powers
  import opened Algebra

  const K_SKIP: nat := 6

  // ------------------------------------------------------------- specification

  /** The product over the bits of `j`: `x[k]` where bit `k` is set, `1 + x[k]` where it is not. */
  function Weight(r: Ring, x: seq<E>, j: nat): E
    decreases |x|
  {
    if x == [] then r.one
    else Mul(r, if j % 2 == 1 then x[0] else Add(r, r.one, x[0]), Weight(r, x[1..], j / 2))
  }

  function Weights(r: Ring, x: seq<E>, n: nat): (w: seq<E>)
    ensures |w| == n && forall j :: 0 <= j < n ==> w[j] == Weight(r, x, j)
  {
    if n == 0 then [] else Weights(r, x, n - 1) + [Weight(r, x, n - 1)]
  }

  /** The weight of every witness index: its low bits choose the Lagrange weight, its high bits the product. */
  function IndexWeights(r: Ring, lagrange: seq<E>, x: seq<E>, n: nat): (w: seq<E>)
    requires |lagrange| >= 1
    ensures |w| == n
    ensures forall i :: 0 <= i < n ==> w[i] == Mul(r, lagrange[i % |lagrange|], Weight(r, x, i / |lagrange|))
  {
    if n == 0 then []
    else
      var i := n - 1;
      IndexWeights(r, lagrange, x, i) + [Mul(r, lagrange[i % |lagrange|], Weight(r, x, i / |lagrange|))]
  }

  // ------------------------------------------------------------------- halving

  function Fold(r: Ring, low: E, high: E, point: E): E {
    Add(r, Mul(r, low, Add(r, r.one, point)), Mul(r, high, point))
  }

  ghost predicate Folded(r: Ring, v: seq<E>, point: E, next: seq<E>) {
    |v| == 2 * |next| && forall j :: 0 <= j < |next| ==> next[j] == Fold(r, v[2 * j], v[2 * j + 1], point)
  }

  lemma {:induction false} FoldStep(r: Ring, sum: E, low: E, high: E, point: E, w: E)
    requires Laws(r)
    ensures Add(r, Add(r, sum, Mul(r, low, Mul(r, Add(r, r.one, point), w))), Mul(r, high, Mul(r, point, w)))
            == Add(r, sum, Mul(r, Fold(r, low, high, point), w))
  {
    hide Add, Mul, Laws;
    var p := Add(r, r.one, point);
    MulAssoc(r, low, p, w);
    MulAssoc(r, high, point, w);
    AddAssoc(r, sum, Mul(r, Mul(r, low, p), w), Mul(r, Mul(r, high, point), w));
    Distributes(r, w, Mul(r, low, p), Mul(r, high, point));
  }

  lemma {:induction false} WeightBits(r: Ring, x: seq<E>, j: nat)
    requires x != []
    ensures Weight(r, x, 2 * j) == Mul(r, Add(r, r.one, x[0]), Weight(r, x[1..], j))
    ensures Weight(r, x, 2 * j + 1) == Mul(r, x[0], Weight(r, x[1..], j))
  {
    hide Add, Mul;
    assert (2 * j) / 2 == j && (2 * j + 1) / 2 == j;
  }

  /** One halving round keeps the weighted sum while dropping one variable. */
  lemma {:induction false} HalvingKeepsSum(r: Ring, v: seq<E>, x: seq<E>, next: seq<E>, n: nat)
    requires Laws(r) && x != [] && Folded(r, v, x[0], next) && n <= |next|
    ensures Dot(r, v, Weights(r, x, |v|), 2 * n) == Dot(r, next, Weights(r, x[1..], |next|), n)
  {
    hide Add, Mul, Laws, Weight, Fold, Weights;
    if n > 0 {
      var j := n - 1;
      HalvingKeepsSum(r, v, x, next, j);
      WeightBits(r, x, j);
      var w := Weights(r, x, |v|);
      var sum := Dot(r, v, w, 2 * j);
      assert Dot(r, v, w, 2 * j + 1) == Add(r, sum, Mul(r, v[2 * j], w[2 * j]));
      FoldStep(r, sum, v[2 * j], v[2 * j + 1], x[0], Weight(r, x[1..], j));
    }
  }

  // -------------------------------------------------------------------- blocks

  function Block(v: seq<E>, at: nat, size: nat): (block: seq<E>)
    requires at + size <= |v|
    ensures |block| == size
  {
    v[at..at + size]
  }

  lemma {:induction false} BlockIndex(j: nat, size: nat, t: nat)
    requires t < size
    ensures (Times(j, size) + t) / size == j && (Times(j, size) + t) % size == t
  {
    var i := j * size + t;
    SameQuotient(i, size, j);
    assert i == size * (i / size) + i % size;
  }

  lemma {:induction false} BlockTerm(r: Ring, sum: E, inner: E, v: E, l: E, w: E)
    requires Laws(r)
    ensures Add(r, Add(r, sum, Mul(r, inner, w)), Mul(r, v, Mul(r, l, w)))
         == Add(r, sum, Mul(r, Add(r, inner, Mul(r, v, l)), w))
  {
    hide Add, Mul, Laws;
    MulAssoc(r, v, l, w);
    AddAssoc(r, sum, Mul(r, inner, w), Mul(r, Mul(r, v, l), w));
    Distributes(r, w, inner, Mul(r, v, l));
  }

  lemma {:induction false} NoTerms(r: Ring, sum: E, w: E)
    requires Laws(r)
    ensures Add(r, sum, Mul(r, r.zero, w)) == sum
  {
    hide Add, Mul, Laws;
    MulZero(r, w);
    AddComm(r, sum, r.zero);
    AddZero(r, sum);
  }

  lemma {:induction false} BlockKeepsSum(r: Ring, v: seq<E>, lagrange: seq<E>, x: seq<E>, j: nat, t: nat)
    requires Laws(r) && t <= |lagrange| && 1 <= |lagrange| && Times(j, |lagrange|) + |lagrange| <= |v|
    ensures var at := Times(j, |lagrange|);
            Dot(r, v, IndexWeights(r, lagrange, x, |v|), at + t)
            == Add(r, Dot(r, v, IndexWeights(r, lagrange, x, |v|), at),
                   Mul(r, Dot(r, Block(v, at, |lagrange|), lagrange, t), Weight(r, x, j)))
    decreases t
  {
    hide Add, Mul, Laws, Weight, IndexWeights, Times;
    var at, w := Times(j, |lagrange|), IndexWeights(r, lagrange, x, |v|);
    var sum := Dot(r, v, w, at);
    if t == 0 {
      NoTerms(r, sum, Weight(r, x, j));
    } else {
      var k := t - 1;
      BlockKeepsSum(r, v, lagrange, x, j, k);
      BlockIndex(j, |lagrange|, k);
      var block := Block(v, at, |lagrange|);
      assert w[at + k] == Mul(r, lagrange[k], Weight(r, x, j));
      BlockTerm(r, sum, Dot(r, block, lagrange, k), v[at + k], lagrange[k], Weight(r, x, j));
    }
  }

  ghost predicate BlockFolded(r: Ring, v: seq<E>, lagrange: seq<E>, folded: seq<E>) {
    && |v| == Times(|folded|, |lagrange|)
    && forall j: nat :: j < |folded| ==>
                          && Times(j, |lagrange|) + |lagrange| <= |v|
                          && folded[j] == Dot(r, Block(v, Times(j, |lagrange|), |lagrange|), lagrange, |lagrange|)
  }

  /** Folding every block keeps the weighted sum while dropping the low bits. */
  lemma {:induction false} BlocksKeepSum(r: Ring, v: seq<E>, lagrange: seq<E>, x: seq<E>, folded: seq<E>, n: nat)
    requires Laws(r) && |lagrange| >= 1 && BlockFolded(r, v, lagrange, folded) && n <= |folded|
    ensures Times(n, |lagrange|) <= |v|
    ensures Dot(r, v, IndexWeights(r, lagrange, x, |v|), Times(n, |lagrange|))
         == Dot(r, folded, Weights(r, x, |folded|), n)
  {
    hide Add, Mul, Laws, Weight, IndexWeights, Weights, Times;
    if n == 0 {
      TimesZero(|lagrange|);
    } else {
      var j := n - 1;
      BlocksKeepSum(r, v, lagrange, x, folded, j);
      TimesOneMore(j, |lagrange|);
      BlockKeepsSum(r, v, lagrange, x, j, |lagrange|);
    }
  }

  lemma {:induction false} TimesZero(b: nat)
    ensures Times(0, b) == 0
  {
  }

  // ---------------------------------------------------------------- evaluation

  /** The evaluation the fold must produce: every witness entry times the weight of its index. */
  function Evaluation(r: Ring, values: seq<E>, lagrange: seq<E>, x: seq<E>): E
    requires |lagrange| >= 1
  {
    Dot(r, values, IndexWeights(r, lagrange, x, |values|), |values|)
  }

  function Remaining(r: Ring, folded: seq<E>, x: seq<E>): E {
    Dot(r, folded, Weights(r, x, |folded|), |folded|)
  }

  method DotProduct(r: Ring, v: seq<E>, w: seq<E>) returns (acc: E)
    requires |v| == |w|
    ensures acc == Dot(r, v, w, |v|)
  {
    hide Add, Mul;
    acc := r.zero;
    for i := 0 to |v|
      invariant acc == Dot(r, v, w, i)
    {
      acc := Add(r, acc, Mul(r, v[i], w[i]));
    }
  }

  method FoldBlocks(r: Ring, values: seq<E>, lagrange: seq<E>, count: nat) returns (folded: seq<E>)
    requires |values| == Times(count, |lagrange|) && |lagrange| >= 1
    ensures |folded| == count && BlockFolded(r, values, lagrange, folded)
  {
    hide Add, Mul, Times, Dot;
    var size := |lagrange|;
    folded := [];
    for j: nat := 0 to count
      invariant |folded| == j
      invariant forall k: nat :: k < j ==>
                  && Times(k, size) + size <= |values|
                  && folded[k] == Dot(r, Block(values, Times(k, size), size), lagrange, size)
    {
      TimesOneMore(j, size);
      TimesGrows(size, j + 1, count);
      var value := DotProduct(r, Block(values, Times(j, size), size), lagrange);
      folded := folded + [value];
    }
  }

  lemma {:induction false} TimesGrows(b: nat, m: nat, n: nat)
    requires m <= n
    ensures Times(m, b) <= Times(n, b)
  {
  }

  method Halve(r: Ring, folded: seq<E>, point: E) returns (next: seq<E>)
    requires |folded| % 2 == 0
    ensures Folded(r, folded, point, next)
  {
    hide Fold;
    next := [];
    for i := 0 to |folded| / 2
      invariant |next| == i && forall j :: 0 <= j < i ==> next[j] == Fold(r, folded[2 * j], folded[2 * j + 1], point)
    {
      next := next + [Fold(r, folded[2 * i], folded[2 * i + 1], point)];
    }
  }

  lemma {:induction false} LastValue(r: Ring, folded: seq<E>)
    requires Laws(r) && |folded| == 1
    ensures Remaining(r, folded, []) == folded[0]
  {
    hide Add, Mul, Laws;
    var w := Weights(r, [], 1);
    assert w[0] == r.one;
    assert Dot(r, folded, w, 1) == Add(r, Dot(r, folded, w, 0), Mul(r, folded[0], w[0]));
    MulComm(r, folded[0], r.one);
    MulOne(r, folded[0]);
    AddZero(r, folded[0]);
  }

  lemma {:induction false} SkippedRounds()
    ensures K_SKIP == 6 && Pow2(K_SKIP) == 64
  {
  }

  /** Block fold then repeated halving computes the weighted sum over every witness index. */
  method Evaluate(r: Ring, values: seq<E>, logicalM: nat, lagrange: seq<E>, xRest: seq<E>) returns (value: E)
    requires Laws(r) && |values| == Pow2(logicalM) && |xRest| + 6 == logicalM && |lagrange| == 64
    ensures value == Evaluation(r, values, lagrange, xRest)
  {
    hide Laws, Dot, Folded, BlockFolded, Weights, IndexWeights, Pow2, Times;
    SkippedRounds();
    Pow2Adds(|xRest|, K_SKIP);
    Product(Pow2(|xRest|), Pow2(K_SKIP));
    var folded := FoldBlocks(r, values, lagrange, Pow2(|xRest|));
    BlocksKeepSum(r, values, lagrange, xRest, folded, |folded|);
    for k := 0 to |xRest|
      invariant |folded| == Pow2(|xRest| - k)
      invariant Remaining(r, folded, xRest[k..]) == Evaluation(r, values, lagrange, xRest)
    {
      Pow2Doubles(|xRest| - k - 1);
      var next := Halve(r, folded, xRest[k]);
      FoldedLength(r, folded, xRest[k], next);
      HalvingKeepsSum(r, folded, xRest[k..], next, |next|);
      assert xRest[k..][1..] == xRest[k + 1..];
      folded := next;
    }
    Pow2Zero();
    assert xRest[|xRest|..] == [];
    LastValue(r, folded);
    value := folded[0];
  }

  lemma {:induction false} Product(a: nat, b: nat)
    ensures Times(a, b) == a * b
  {
  }

  lemma {:induction false} FoldedLength(r: Ring, v: seq<E>, point: E, next: seq<E>)
    requires Folded(r, v, point, next)
    ensures |v| == 2 * |next|
  {
  }

  lemma {:induction false} Pow2Zero()
    ensures Pow2(0) == 1
  {
  }
}
