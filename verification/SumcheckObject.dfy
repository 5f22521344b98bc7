/** The loops of the sumcheck: the in-place equality table, the in-place fold, the round message and
    the verifier's running claim. */
module SumcheckObject {
  import opened Powers
  import opened Algebra
  import opened QuirkyEval
  import opened Sumcheck

  // -------------------------------------------------------------- equality table

  lemma {:induction false} ShiftedIndex(x: nat, n: nat)
    requires n >= 1 && x < Pow2(n)
    ensures x / 2 < Pow2(n - 1) && (x + Pow2(n)) % 2 == x % 2 && (x + Pow2(n)) / 2 == x / 2 + Pow2(n - 1)
  {
    hide Pow2;
    Pow2Doubles(n - 1);
    EvenShift(x, Pow2(n - 1));
  }

  lemma {:induction false} EvenShift(x: nat, h: nat)
    ensures (x + 2 * h) % 2 == x % 2 && (x + 2 * h) / 2 == x / 2 + h
  {
  }

  function Factor(r: Ring, v: E, odd: bool): E {
    if odd then v else Add(r, r.one, v)
  }

  lemma {:induction false} WeightUnfolds(r: Ring, v: seq<E>, x: nat)
    requires v != []
    ensures Weight(r, v, x) == Mul(r, Factor(r, v[0], x % 2 == 1), Weight(r, v[1..], x / 2))
  {
    hide Add, Mul;
  }

  /** One more variable doubles the table: the lower half takes `1 + last`, the upper half `last`. */
  lemma {:induction false} WeightSnoc(r: Ring, v: seq<E>, last: E, x: nat)
    requires Laws(r) && x < Pow2(|v|)
    ensures Weight(r, v + [last], x) == Mul(r, Weight(r, v, x), Add(r, r.one, last))
    ensures Weight(r, v + [last], x + Pow2(|v|)) == Mul(r, Weight(r, v, x), last)
    decreases |v|
  {
    hide Laws, Add, Mul, Factor, Pow2;
    var all := v + [last];
    if v == [] {
      SingleWeight(r, last, x);
    } else {
      hide Weight;
      ShiftedIndex(x, |v|);
      WeightSnoc(r, v[1..], last, x / 2);
      assert all[1..] == v[1..] + [last] && all[0] == v[0];
      WeightUnfolds(r, all, x);
      WeightUnfolds(r, all, x + Pow2(|v|));
      WeightUnfolds(r, v, x);
      var factor, rest := Factor(r, v[0], x % 2 == 1), Weight(r, v[1..], x / 2);
      MulAssoc(r, factor, rest, Add(r, r.one, last));
      MulAssoc(r, factor, rest, last);
    }
  }

  lemma {:induction false} SingleWeight(r: Ring, last: E, x: nat)
    requires Laws(r) && x < Pow2(0)
    ensures Weight(r, [] + [last], x) == Mul(r, Weight(r, [], x), Add(r, r.one, last))
    ensures Weight(r, [] + [last], x + Pow2(0)) == Mul(r, Weight(r, [], x), last)
  {
    hide Laws, Add, Mul;
    assert [] + [last] == [last] && [last][1..] == [];
    WeightUnfolds(r, [last], 0);
    WeightUnfolds(r, [last], 1);
    MulComm(r, r.one, Add(r, r.one, last));
    MulComm(r, r.one, last);
  }

  /** Double the live part of the table, from the top down so that nothing is read after it is overwritten. */
  method DoubleTable(r: Ring, t: array<E>, width: nat, point: E)
    requires 2 * width <= t.Length
    modifies t
    ensures forall x :: 0 <= x < width ==>
              t[x] == Mul(r, old(t[x]), Add(r, r.one, point)) && t[x + width] == Mul(r, old(t[x]), point)
  {
    hide Add, Mul;
    var onePlus := Add(r, r.one, point);
    var x := width;
    while x > 0
      invariant 0 <= x <= width
      invariant forall y :: 0 <= y < x ==> t[y] == old(t[y])
      invariant forall y :: x <= y < width ==>
                  t[y] == Mul(r, old(t[y]), onePlus) && t[y + width] == Mul(r, old(t[y]), point)
    {
      x := x - 1;
      t[x + width] := Mul(r, t[x], point);
      t[x] := Mul(r, t[x], onePlus);
    }
  }

  method BuildEq(r: Ring, points: seq<E>) returns (t: array<E>)
    requires Laws(r)
    ensures fresh(t) && t[..] == Weights(r, points, Pow2(|points|))
  {
    hide Laws, Weight, Pow2, Weights, Add, Mul;
    var n := |points|;
    t := new E[Pow2(n)](_ => r.zero);
    t[0] := r.one;
    FirstWeight(r, points);
    for i := 0 to n
      invariant Pow2(i) <= t.Length
      invariant forall x :: 0 <= x < Pow2(i) ==> t[x] == Weight(r, points[..i], x)
    {
      Pow2Monotone(i + 1, n);
      Pow2Doubles(i);
      ghost var before := t[..];
      DoubleTable(r, t, Pow2(i), points[i]);
      forall x | 0 <= x < Pow2(i + 1) ensures t[x] == Weight(r, points[..i + 1], x) {
        assert points[..i + 1] == points[..i] + [points[i]];
        var y := if x < Pow2(i) then x else x - Pow2(i);
        WeightSnoc(r, points[..i], points[i], y);
        assert before[y] == Weight(r, points[..i], y);
        assert t[y] == Mul(r, before[y], Add(r, r.one, points[i])) && t[y + Pow2(i)] == Mul(r, before[y], points[i]);
      }
    }
    assert points[..n] == points;
  }

  lemma {:induction false} FirstWeight(r: Ring, points: seq<E>)
    ensures Pow2(0) == 1 && Weight(r, points[..0], 0) == r.one && Pow2(|points|) >= 1
  {
  }

  // ------------------------------------------------------------------------ folds

  /** Fold both tables where they stand; the folded tables are the first halves. */
  method FoldInPlacePair(f: Field, a: array<E>, b: array<E>, n: nat, challenge: E)
    requires FieldLaws(f) && a != b && n <= a.Length && n <= b.Length && n % 2 == 0
    modifies a, b
    ensures a[..n / 2] == FoldTable(f.ring, old(a[..n]), challenge)
    ensures b[..n / 2] == FoldTable(f.ring, old(b[..n]), challenge)
  {
    hide FieldLaws, Add, Mul, Fold, FoldTable;
    ghost var a0, b0 := a[..n], b[..n];
    FoldTableFolds(f.ring, a0, challenge);
    FoldTableFolds(f.ring, b0, challenge);
    for x := 0 to n / 2
      invariant forall i :: 0 <= i < x ==>
                  a[i] == FoldTable(f.ring, a0, challenge)[i] && b[i] == FoldTable(f.ring, b0, challenge)[i]
      invariant forall i :: 2 * x <= i < n ==> a[i] == a0[i] && b[i] == b0[i]
    {
      FoldForms(f, a[2 * x], a[2 * x + 1], challenge);
      FoldForms(f, b[2 * x], b[2 * x + 1], challenge);
      var aLow, aHigh, bLow, bHigh := a[2 * x], a[2 * x + 1], b[2 * x], b[2 * x + 1];
      a[x] := Add(f.ring, aLow, Mul(f.ring, challenge, Add(f.ring, aHigh, aLow)));
      b[x] := Add(f.ring, bLow, Mul(f.ring, challenge, Add(f.ring, bHigh, bLow)));
    }
  }

  // --------------------------------------------------------------------- messages

  lemma {:induction false} WeightFirst(r: Ring, eq: E, a: E, b: E)
    requires Laws(r)
    ensures Mul(r, Mul(r, eq, a), b) == Mul(r, Mul(r, a, b), eq)
  {
    hide Laws, Mul;
    MulAssoc(r, eq, a, b);
    MulComm(r, eq, Mul(r, a, b));
  }

  /** One pass over the pairs; the first weight only scales the value at one. */
  method RoundPairNaive(r: Ring, a: seq<E>, b: seq<E>, eq: seq<E>) returns (msg: Message)
    requires Laws(r) && |a| == |b| == Pow2(|eq|) && eq != []
    ensures msg == Message(Mul(r, eq[0], RoundValues(r, a, b, eq[1..]).one), RoundValues(r, a, b, eq[1..]).inf)
  {
    hide Laws, Add, Mul, Weights, Lows, Highs, Sums, Products, Pow2;
    var half := |a| / 2;
    Pow2Doubles(|eq| - 1);
    var table := BuildEq(r, eq[1..]);
    var one, inf := r.zero, r.zero;
    ghost var w := Weights(r, eq[1..], half);
    ghost var v, c := Products(r, Highs(a, half), Highs(b, half)), Products(r, Sums(r, a, half), Sums(r, b, half));
    HalvesAt(r, a, half);
    HalvesAt(r, b, half);
    ProductsAt(r, Highs(a, half), Highs(b, half));
    ProductsAt(r, Sums(r, a, half), Sums(r, b, half));
    assert table[..] == w;
    for x := 0 to half
      invariant table[..] == w
      invariant one == Dot(r, v, w, x) && inf == Dot(r, c, w, x)
    {
      var a0, a1, b0, b1, e := a[2 * x], a[2 * x + 1], b[2 * x], b[2 * x + 1], table[x];
      assert e == table[..][x];
      WeightFirst(r, e, a1, b1);
      WeightFirst(r, e, Add(r, a0, a1), Add(r, b0, b1));
      one := Add(r, one, Mul(r, Mul(r, e, a1), b1));
      inf := Add(r, inf, Mul(r, Mul(r, e, Add(r, a0, a1)), Add(r, b0, b1)));
    }
    msg := Message(Mul(r, eq[0], one), inf);
  }

  // -------------------------------------------------------------------- the verifier

  method VerifyRounds(f: Field, claim: E, eq: seq<E>, msgs: seq<Message>, rhos: seq<E>, finalA: E, finalB: E)
    returns (ok: bool)
    requires |eq| == |msgs| == |rhos|
    ensures ok <==> RunningClaim(f, claim, eq, msgs, rhos) == Mul(f.ring, finalA, finalB)
  {
    hide NextRunning, Mul;
    var running := claim;
    assert eq[0..] == eq && msgs[0..] == msgs && rhos[0..] == rhos;
    for i := 0 to |eq|
      invariant RunningClaim(f, running, eq[i..], msgs[i..], rhos[i..]) == RunningClaim(f, claim, eq, msgs, rhos)
    {
      assert eq[i..][1..] == eq[i + 1..] && msgs[i..][1..] == msgs[i + 1..] && rhos[i..][1..] == rhos[i + 1..];
      running := NextRunning(f, running, eq[i], msgs[i], rhos[i]);
    }
    ok := running == Mul(f.ring, finalA, finalB);
  }
}
