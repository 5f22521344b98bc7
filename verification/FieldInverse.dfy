/** Inversion in GF(2^128) by repeated squaring, and that it gives the sumcheck the field it needs. */
module FieldInverse {
  import opened Powers
  import opened Algebra
  import opened Sumcheck

  const FIELD_BITS: nat := 128

  function PowerOf(r: Ring, x: E, n: nat): E {
    if n == 0 then r.one else Mul(r, x, PowerOf(r, x, n - 1))
  }

  lemma {:induction false} PowerAdds(r: Ring, x: E, m: nat, n: nat)
    requires Laws(r)
    ensures PowerOf(r, x, m + n) == Mul(r, PowerOf(r, x, m), PowerOf(r, x, n))
    decreases m
  {
    hide Laws, Mul;
    if m == 0 {
      MulOne(r, PowerOf(r, x, n));
    } else {
      PowerAdds(r, x, m - 1, n);
      MulAssoc(r, x, PowerOf(r, x, m - 1), PowerOf(r, x, n));
    }
  }

  /** `x` to the power `2^128 - 2`, by squaring. */
  method Inv(r: Ring, x: E) returns (y: E)
    requires Laws(r)
    ensures y == InverseOf(r, x)
  {
    hide Laws, Mul, PowerOf, Pow2;
    FirstPowers(r, x);
    y := r.one;
    var cur := Mul(r, x, x);
    for i: nat := 1 to FIELD_BITS
      invariant Pow2(i) >= 2 && cur == PowerOf(r, x, Pow2(i)) && y == PowerOf(r, x, Pow2(i) - 2)
    {
      Pow2Doubles(i);
      PowerAdds(r, x, Pow2(i) - 2, Pow2(i));
      PowerAdds(r, x, Pow2(i), Pow2(i));
      y := Mul(r, y, cur);
      cur := Mul(r, cur, cur);
    }
  }

  lemma {:induction false} FirstPowers(r: Ring, x: E)
    requires Laws(r)
    ensures Pow2(1) == 2 && PowerOf(r, x, 2) == Mul(r, x, x) && PowerOf(r, x, 0) == r.one
  {
    hide Laws, Mul;
    MulComm(r, x, r.one);
    MulOne(r, x);
    assert PowerOf(r, x, 1) == Mul(r, x, PowerOf(r, x, 0));
  }

  function InverseOf(r: Ring, x: E): E {
    LargeField();
    PowerOf(r, x, Pow2(128) - 2)
  }

  function FullPower(r: Ring, x: E): E {
    PowerOf(r, x, Pow2(128) - 1)
  }

  /** A ring of characteristic two in which every nonzero element has the order of GF(2^128). */
  ghost predicate BinaryField(r: Ring) {
    && Laws(r)
    && r.one != r.zero
    && (forall a {:trigger LawAt(a, a, a)} :: Add(r, a, a) == r.zero)
    && (forall a :: a != r.zero ==> FullPower(r, a) == r.one)
  }

  /** The power inverts every nonzero element and sends zero to zero, so the field laws hold. */
  lemma {:induction false} InvObeysLaws(f: Field)
    requires BinaryField(f.ring) && (forall x :: f.inv(x) == InverseOf(f.ring, x))
    ensures FieldLaws(f)
  {
    hide Laws, Add, Mul, PowerOf, Pow2;
    LargeField();
    var r, n: nat := f.ring, Pow2(128) - 2;
    PowerUnfolds(r, r.zero, n);
    MulZero(r, PowerOf(r, r.zero, n - 1));
    forall a | a != r.zero ensures Mul(r, a, f.inv(a)) == r.one {
      PowerUnfolds(r, a, n + 1);
      assert FullPower(r, a) == r.one && f.inv(a) == InverseOf(r, a);
    }
    forall a ensures Add(r, a, a) == r.zero {
      assert LawAt(a, a, a);
    }
  }

  lemma {:induction false} PowerUnfolds(r: Ring, x: E, n: nat)
    requires n >= 1
    ensures PowerOf(r, x, n) == Mul(r, x, PowerOf(r, x, n - 1))
  {
  }

  lemma {:induction false} LargeField()
    ensures Pow2(128) >= 4
  {
    hide Pow2;
    Pow2Monotone(2, 128);
    Pow2Doubles(0);
    Pow2Doubles(1);
  }
}
