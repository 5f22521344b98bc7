/** What an accepted sumcheck run proves: how many challenges can carry a false claim through. */
module SumcheckSoundness {
  import opened Powers
  import opened Algebra
  import opened QuirkyEval
  import opened Sumcheck

  function Linear(r: Ring, d: Values): E {
    Add(r, Add(r, d.zero, d.one), d.inf)
  }

  /** The quadratic in powers of `x`. */
  lemma {:induction false} AtPowers(f: Field, d: Values, x: E)
    requires FieldLaws(f)
    ensures At(f.ring, d, x)
         == Add(f.ring, d.zero, Add(f.ring, Mul(f.ring, Linear(f.ring, d), x), Mul(f.ring, d.inf, Mul(f.ring, x, x))))
  {
    hide Laws, Add, Mul, FieldLaws;
    var r := f.ring;
    SelfCancels(f, x);
    var a, b, c, k := Mul(r, d.zero, x), Mul(r, d.one, x), Mul(r, d.inf, x), Mul(r, d.inf, Mul(r, x, x));
    Distributes(r, d.zero, r.one, x);
    MulComm(r, d.zero, r.one);
    MulOne(r, d.zero);
    Distributes(r, x, r.one, x);
    MulOne(r, x);
    Distributes(r, d.inf, x, Mul(r, x, x));
    Distributes(r, x, Add(r, d.zero, d.one), d.inf);
    Distributes(r, x, d.zero, d.one);
    Regroup(r, d.zero, a, b, c, k);
  }

  lemma {:induction false} Regroup(r: Ring, z: E, a: E, b: E, c: E, k: E)
    requires Laws(r)
    ensures Add(r, Add(r, Add(r, z, a), b), Add(r, c, k)) == Add(r, z, Add(r, Add(r, Add(r, a, b), c), k))
  {
    hide Laws, Add;
    AddAssoc(r, z, a, b);
    AddAssoc(r, z, Add(r, a, b), Add(r, c, k));
    AddAssoc(r, Add(r, a, b), c, k);
  }

  lemma {:induction false} SquareOfSum(f: Field, x: E, y: E)
    requires FieldLaws(f)
    ensures Add(f.ring, Mul(f.ring, x, x), Mul(f.ring, y, y)) == Mul(f.ring, Add(f.ring, x, y), Add(f.ring, x, y))
  {
    hide Laws, Add, Mul, FieldLaws;
    var r := f.ring;
    var xx, xy, yy := Mul(r, x, x), Mul(r, x, y), Mul(r, y, y);
    SelfCancels(f, xy);
    Cross(r, x, y, x, y);
    MulComm(r, y, x);
    AddComm(r, xy, yy);
    AddSwap(r, xx, xy, yy, xy);
    AddComm(r, Add(r, xx, yy), r.zero);
    AddZero(r, Add(r, xx, yy));
  }

  /** Two different roots leave one linear condition on the coefficients. */
  lemma {:induction false} TwoRoots(f: Field, d: Values, x: E, y: E)
    requires FieldLaws(f) && x != y && At(f.ring, d, x) == f.ring.zero && At(f.ring, d, y) == f.ring.zero
    ensures Linear(f.ring, d) == Mul(f.ring, d.inf, Add(f.ring, x, y))
  {
    hide Laws, Add, Mul, FieldLaws, At, Linear;
    var r, e := f.ring, Linear(f.ring, d);
    SelfCancels(f, x);
    var s := Add(r, x, y);
    var u, v := Mul(r, e, x), Mul(r, d.inf, Mul(r, x, x));
    var u', v' := Mul(r, e, y), Mul(r, d.inf, Mul(r, y, y));
    AtPowers(f, d, x);
    AtPowers(f, d, y);
    SumIsZero(f, d.zero, Add(r, u, v));
    SumIsZero(f, d.zero, Add(r, u', v'));
    SumIsZero(f, Add(r, u, v), Add(r, u', v'));
    AddSwap(r, u, v, u', v');
    Distributes(r, e, x, y);
    Distributes(r, d.inf, Mul(r, x, x), Mul(r, y, y));
    SquareOfSum(f, x, y);
    MulAssoc(r, d.inf, s, s);
    Distributes(r, s, e, Mul(r, d.inf, s));
    MulComm(r, Add(r, e, Mul(r, d.inf, s)), s);
    SumIsZero(f, x, y);
    NoZeroDivisors(f, s, Add(r, e, Mul(r, d.inf, s)));
    SumIsZero(f, e, Mul(r, d.inf, s));
  }

  /** A quadratic with three different roots is zero. */
  lemma {:induction false} ThreeRoots(f: Field, d: Values, x: E, y: E, z: E)
    requires FieldLaws(f) && x != y && x != z && y != z
    requires At(f.ring, d, x) == f.ring.zero && At(f.ring, d, y) == f.ring.zero && At(f.ring, d, z) == f.ring.zero
    ensures d == Values(f.ring.zero, f.ring.zero, f.ring.zero)
  {
    hide Laws, Add, Mul, FieldLaws, At, Linear;
    var r, e := f.ring, Linear(f.ring, d);
    SelfCancels(f, x);
    TwoRoots(f, d, x, y);
    TwoRoots(f, d, x, z);
    var s, t := Add(r, x, y), Add(r, x, z);
    SumIsZero(f, Mul(r, d.inf, s), Mul(r, d.inf, t));
    Distributes(r, d.inf, s, t);
    MulComm(r, d.inf, Add(r, s, t));
    SumsDiffer(f, x, y, z);
    NoZeroDivisors(f, Add(r, s, t), d.inf);
    MulZero(r, s);
    AtPowers(f, d, x);
    MulZero(r, x);
    MulZero(r, Mul(r, x, x));
    AddZero(r, r.zero);
    AddComm(r, d.zero, r.zero);
    AddZero(r, d.zero);
    OnlyOneLeft(f, d);
  }

  lemma {:induction false} SumsDiffer(f: Field, x: E, y: E, z: E)
    requires FieldLaws(f) && y != z
    ensures Add(f.ring, Add(f.ring, x, y), Add(f.ring, x, z)) != f.ring.zero
  {
    hide Laws, Add, FieldLaws;
    var r := f.ring;
    SelfCancels(f, x);
    AddSwap(r, x, y, x, z);
    AddZero(r, Add(r, y, z));
    SumIsZero(f, y, z);
  }

  lemma {:induction false} OnlyOneLeft(f: Field, d: Values)
    requires FieldLaws(f) && d.zero == f.ring.zero && d.inf == f.ring.zero && Linear(f.ring, d) == f.ring.zero
    ensures d.one == f.ring.zero
  {
    hide Laws, Add, FieldLaws;
    var r := f.ring;
    SelfCancels(f, d.one);
    AddZero(r, d.one);
    AddComm(r, d.one, r.zero);
  }

  // ------------------------------------------------------------------- one round

  /** A round of weight one whose message is the true one and whose value at zero is zero. */
  ghost predicate Forgotten(f: Field, a: seq<E>, b: seq<E>, eq: seq<E>, msg: Message)
    requires |a| == |b| && |a| % 2 == 0 && eq != []
  {
    && eq[0] == f.ring.one
    && msg == RoundMessage(f.ring, a, b, eq[1..])
    && RoundValues(f.ring, a, b, eq[1..]).zero == f.ring.zero
  }

  /** Three challenges repair a false claim exactly in such a round; in every other round, whatever
      the weight and whatever the prover sends, at most two do. */
  lemma {:induction false} FalseClaimStaysFalse(f: Field, a: seq<E>, b: seq<E>, eq: seq<E>, c: E, msg: Message, x: E,
                                                y: E, z: E)
    requires FieldLaws(f) && |a| == |b| && |a| % 2 == 0 && eq != []
    requires c != Claim(f.ring, a, b, eq) && x != y && x != z && y != z
    ensures Repaired(f, a, b, eq, c, msg, x) && Repaired(f, a, b, eq, c, msg, y) && Repaired(f, a, b, eq, c, msg, z)
            <==> Forgotten(f, a, b, eq, msg)
  {
    hide Laws, Add, Mul, FieldLaws, RoundValues, Claim, At, Repaired, Reconstruct;
    var r := f.ring;
    SelfCancels(f, x);
    var g := RoundValues(r, a, b, eq[1..]);
    ReconstructTrue(f, a, b, eq, c);
    if Forgotten(f, a, b, eq, msg) {
      HonestRound(f, a, b, eq, c, x);
      HonestRound(f, a, b, eq, c, y);
      HonestRound(f, a, b, eq, c, z);
    } else {
      var h := Values(Reconstruct(f, c, eq[0], msg.one), msg.one, msg.inf);
      var d := Difference(r, h, g);
      RepairIsRoot(f, a, b, eq, c, msg, x);
      RepairIsRoot(f, a, b, eq, c, msg, y);
      RepairIsRoot(f, a, b, eq, c, msg, z);
      SumIsZero(f, h.zero, g.zero);
      SumIsZero(f, h.one, g.one);
      SumIsZero(f, h.inf, g.inf);
      NotThreeRoots(f, d, x, y, z);
    }
  }

  lemma {:induction false} NotThreeRoots(f: Field, d: Values, x: E, y: E, z: E)
    requires FieldLaws(f) && x != y && x != z && y != z && d != Values(f.ring.zero, f.ring.zero, f.ring.zero)
    ensures At(f.ring, d, x) != f.ring.zero || At(f.ring, d, y) != f.ring.zero || At(f.ring, d, z) != f.ring.zero
  {
    hide Laws, Add, Mul, FieldLaws, At;
    if At(f.ring, d, x) == f.ring.zero && At(f.ring, d, y) == f.ring.zero && At(f.ring, d, z) == f.ring.zero {
      ThreeRoots(f, d, x, y, z);
    }
  }

  ghost predicate AtMostTwo(f: Field, a: seq<E>, b: seq<E>, eq: seq<E>, c: E, msg: Message)
    requires |a| == |b| && |a| % 2 == 0 && eq != []
  {
    forall x, y, z ::
      Repaired(f, a, b, eq, c, msg, x) && Repaired(f, a, b, eq, c, msg, y) && Repaired(f, a, b, eq, c, msg, z)
      ==> x == y || x == z || y == z
  }

  lemma {:induction false} FewRepairs(f: Field, a: seq<E>, b: seq<E>, eq: seq<E>, c: E, msg: Message)
    requires FieldLaws(f) && |a| == |b| && |a| % 2 == 0 && eq != []
    requires c != Claim(f.ring, a, b, eq) && !Forgotten(f, a, b, eq, msg)
    ensures AtMostTwo(f, a, b, eq, c, msg)
  {
    hide Laws, Add, Mul, FieldLaws, RoundValues, Claim, Repaired, Forgotten;
    forall x, y, z | x != y && x != z && y != z
      ensures !(Repaired(f, a, b, eq, c, msg, x) && Repaired(f, a, b, eq, c, msg, y)
                && Repaired(f, a, b, eq, c, msg, z)) {
      FalseClaimStaysFalse(f, a, b, eq, c, msg, x, y, z);
    }
  }

  // ------------------------------------------------------------------- whole runs

  /** Before round `i` the running claim is false about the tables bound so far, the round's challenge
      makes it true, and unless the round forgets the claim that challenge is one of at most two. */
  ghost predicate RepairedIn(f: Field, a: seq<E>, b: seq<E>, eq: seq<E>, c: E, msgs: seq<Message>, rhos: seq<E>, i: nat)
    requires |a| == |b| == Pow2(|eq|) && |eq| == |msgs| == |rhos| && i < |eq|
  {
    var left := |eq| - i;
    var a', b' := BoundTable(f.ring, a, rhos[..i], left), BoundTable(f.ring, b, rhos[..i], left);
    var running := RunningClaim(f, c, eq[..i], msgs[..i], rhos[..i]);
    && running != Claim(f.ring, a', b', eq[i..])
    && Repaired(f, a', b', eq[i..], running, msgs[i], rhos[i])
    && (Forgotten(f, a', b', eq[i..], msgs[i]) || AtMostTwo(f, a', b', eq[i..], running, msgs[i]))
  }

  lemma {:induction false} RepairedAtOnce(f: Field, a: seq<E>, b: seq<E>, eq: seq<E>, c: E, msgs: seq<Message>,
                                          rhos: seq<E>)
    requires |a| == |b| == Pow2(|eq|) && |eq| == |msgs| == |rhos| && eq != []
    requires c != Claim(f.ring, a, b, eq) && Repaired(f, a, b, eq, c, msgs[0], rhos[0])
    requires Forgotten(f, a, b, eq, msgs[0]) || AtMostTwo(f, a, b, eq, c, msgs[0])
    ensures RepairedIn(f, a, b, eq, c, msgs, rhos, 0)
  {
    hide Claim, Repaired, NextRunning, FoldTable, Forgotten, AtMostTwo;
    assert eq[0..] == eq && eq[..0] == [] && msgs[..0] == [] && rhos[..0] == [];
  }

  lemma {:induction false} RepairedLater(f: Field, a: seq<E>, b: seq<E>, eq: seq<E>, c: E, msgs: seq<Message>,
                                         rhos: seq<E>, i: nat)
    requires |a| == |b| == Pow2(|eq|) && |eq| == |msgs| == |rhos| && i + 1 < |eq|
    requires RepairedIn(f, FoldTable(f.ring, a, rhos[0]), FoldTable(f.ring, b, rhos[0]), eq[1..],
                        NextRunning(f, c, eq[0], msgs[0], rhos[0]), msgs[1..], rhos[1..], i)
    ensures RepairedIn(f, a, b, eq, c, msgs, rhos, i + 1)
  {
    hide Claim, Repaired, NextRunning, FoldTable, Forgotten, AtMostTwo;
    assert eq[1..][i..] == eq[i + 1..] && eq[..i + 1][1..] == eq[1..][..i];
    assert msgs[..i + 1][1..] == msgs[1..][..i] && rhos[..i + 1][1..] == rhos[1..][..i];
  }

  /** An accepted run that started from a false claim was repaired in some round, and there either the
      round forgot the claim or the challenge was one of at most two. */
  lemma {:induction false} AcceptedFalseRun(f: Field, a: seq<E>, b: seq<E>, eq: seq<E>, c: E, msgs: seq<Message>,
                                            rhos: seq<E>)
    returns (i: nat)
    requires |a| == |b| == Pow2(|eq|) && |eq| == |msgs| == |rhos| && c != Claim(f.ring, a, b, eq)
    requires RunningClaim(f, c, eq, msgs, rhos) == Mul(f.ring, FoldAll(f.ring, a, rhos), FoldAll(f.ring, b, rhos))
    requires FieldLaws(f)
    ensures i < |eq| && RepairedIn(f, a, b, eq, c, msgs, rhos, i)
    decreases |eq|
  {
    hide Laws, Add, Mul, FieldLaws, Claim, NextRunning, FoldTable, RepairedIn, Forgotten, AtMostTwo;
    i := 0;
    if eq == [] {
      LastClaim(f, a, b);
      assert false;
    } else if Repaired(f, a, b, eq, c, msgs[0], rhos[0]) {
      if !Forgotten(f, a, b, eq, msgs[0]) { FewRepairs(f, a, b, eq, c, msgs[0]); }
      RepairedAtOnce(f, a, b, eq, c, msgs, rhos);
    } else {
      var fa, fb := FoldTable(f.ring, a, rhos[0]), FoldTable(f.ring, b, rhos[0]);
      i := AcceptedFalseRun(f, fa, fb, eq[1..], NextRunning(f, c, eq[0], msgs[0], rhos[0]), msgs[1..], rhos[1..]);
      RepairedLater(f, a, b, eq, c, msgs, rhos, i);
      i := i + 1;
    }
  }

  // ------------------------------------------------------------- weight one, concretely

  lemma {:induction false} DotOfOne(r: Ring, x: E)
    requires Laws(r)
    ensures Dot(r, [x], Weights(r, [], 1), 1) == x
  {
    hide Laws, Add, Mul;
    LastValue(r, [x]);
  }

  /** The round values of a table of two against itself. */
  lemma {:induction false} SquareValues(r: Ring, x: E, y: E)
    requires Laws(r)
    ensures RoundValues(r, [x, y], [x, y], []) == Values(Mul(r, x, x), Mul(r, y, y), Mul(r, Add(r, x, y), Add(r, x, y)))
  {
    hide Laws, Add, Mul, Dot, Weights, Lows, Highs, Sums, Products;
    var v := [x, y];
    HalvesAt(r, v, 1);
    var low, high, sum := Lows(v, 1), Highs(v, 1), Sums(r, v, 1);
    assert low == [x] && high == [y] && sum == [Add(r, x, y)];
    ProductsAt(r, low, low);
    ProductsAt(r, high, high);
    ProductsAt(r, sum, sum);
    assert Products(r, low, low) == [Mul(r, x, x)] && Products(r, high, high) == [Mul(r, y, y)];
    assert Products(r, sum, sum) == [Mul(r, sum[0], sum[0])];
    assert |v| / 2 == 1;
    DotOfOne(r, Mul(r, x, x));
    DotOfOne(r, Mul(r, y, y));
    DotOfOne(r, Mul(r, sum[0], sum[0]));
  }

  lemma {:induction false} UnitSquares(f: Field)
    requires FieldLaws(f)
    ensures RoundValues(f.ring, [f.ring.one, f.ring.zero], [f.ring.one, f.ring.zero], []).zero == f.ring.one
    ensures RoundValues(f.ring, [f.ring.zero, f.ring.one], [f.ring.zero, f.ring.one], [])
         == Values(f.ring.zero, f.ring.one, f.ring.one)
  {
    hide Laws, Add, Mul, RoundValues, FieldLaws;
    var r := f.ring;
    SelfCancels(f, r.one);
    SquareValues(r, r.one, r.zero);
    SquareValues(r, r.zero, r.one);
    MulOne(r, r.one);
    MulZero(r, r.zero);
    AddZero(r, r.one);
  }

  /** An honest prover refused: tables 1, 0 at weight one and challenge zero. */
  lemma {:induction false} HonestRefused(f: Field)
    requires FieldLaws(f)
    ensures var v, eq, rhos := [f.ring.one, f.ring.zero], [f.ring.one], [f.ring.zero];
            && Pow2(1) == 2
            && RunningClaim(f, Claim(f.ring, v, v, eq), eq, Messages(f.ring, v, v, eq, rhos), rhos)
               != Mul(f.ring, FoldAll(f.ring, v, rhos), FoldAll(f.ring, v, rhos))
  {
    hide Laws, Add, Mul, RoundValues, Claim, Messages, FoldAll, RunningClaim, LowValue;
    var v, eq, rhos := [f.ring.one, f.ring.zero], [f.ring.one], [f.ring.zero];
    assert Pow2(1) == 2;
    HonestRun(f, v, v, eq, rhos, Claim(f.ring, v, v, eq));
    UnitSquares(f);
    LowValueFirst(f.ring, v, v, eq, rhos);
    assert eq[1..] == [];
  }

  /** A false claim of zero about tables 0, 1 at weight one is carried through by every challenge. */
  lemma {:induction false} EveryChallengeRepairs(f: Field, rho: E)
    requires FieldLaws(f)
    ensures var v, eq := [f.ring.zero, f.ring.one], [f.ring.one];
            && Pow2(1) == 2
            && Claim(f.ring, v, v, eq) == f.ring.one != f.ring.zero
            && RunningClaim(f, f.ring.zero, eq, [Message(f.ring.one, f.ring.one)], [rho])
               == Mul(f.ring, FoldAll(f.ring, v, [rho]), FoldAll(f.ring, v, [rho]))
  {
    hide Laws, Add, Mul, RoundValues, Claim, FoldAll, RunningClaim, LowValue;
    var r := f.ring;
    var v, eq := [r.zero, r.one], [r.one];
    assert Pow2(1) == 2;
    assert eq[1..] == [];
    UnitSquares(f);
    SelfCancels(f, r.one);
    ClaimSplits(r, v, v, eq);
    MulZero(r, Add(r, r.one, r.one));
    MulOne(r, r.one);
    AddZero(r, r.one);
    HonestRun(f, v, v, eq, [rho], r.zero);
    LowValueFirst(r, v, v, eq, [rho]);
    assert [rho][1..] == [];
    assert Messages(r, v, v, eq, [rho]) == [Message(r.one, r.one)];
  }
}
