/** Powers of two, quotients and products: the arithmetic the tree geometry needs. */
module Powers {

  function Pow2(k: nat): (r: nat)
    ensures r >= 1
  {
    if k == 0 then 1 else 2 * Pow2(k - 1)
  }

  lemma {:induction false} Pow2Adds(a: nat, b: nat)
    ensures Pow2(a + b) == Pow2(a) * Pow2(b)
  {
    if a != 0 {
      Pow2Adds(a - 1, b);
      assert Pow2(a + b) == 2 * Pow2(a - 1 + b);
      assert 2 * (Pow2(a - 1) * Pow2(b)) == (2 * Pow2(a - 1)) * Pow2(b);
    }
  }

  lemma {:induction false} Pow2Monotone(a: nat, b: nat)
    requires a <= b
    ensures Pow2(a) <= Pow2(b)
    decreases b
  {
    if a < b { Pow2Monotone(a, b - 1); }
  }

  lemma {:induction false} Pow2StrictlyMonotone(a: nat, b: nat)
    requires a < b
    ensures Pow2(a) < Pow2(b)
  {
    Pow2Monotone(a, b - 1);
  }

  lemma {:induction false} Pow2Doubles(k: nat)
    ensures Pow2(k + 1) == 2 * Pow2(k)
  {
  }

  lemma {:induction false} Pow2Halves(n: nat, k: nat)
    requires 2 <= n < Pow2(k)
    ensures k >= 2 && n / 2 < Pow2(k - 1)
  {
  }

  function Quotient(a: nat, b: nat): (q: nat)
    requires b >= 1
    ensures q * b <= a < q * b + b
  {
    assert a == b * (a / b) + a % b;
    a / b
  }

  function Remainder(a: nat, b: nat): (r: nat)
    requires b >= 1
    ensures r < b && a == Quotient(a, b) * b + r
  {
    assert a == b * (a / b) + a % b;
    a % b
  }

  lemma {:induction false} QuotientBound(a: nat, count: nat, b: nat)
    requires b >= 1
    ensures a < count * b <==> Quotient(a, b) < count
  {
    var q := Quotient(a, b);
    if q < count {
      assert (q + 1) * b <= count * b;
    } else {
      assert q * b >= count * b;
    }
  }

  lemma {:induction false} SameQuotient(a: nat, b: nat, q: nat)
    requires b >= 1 && q * b <= a < q * b + b
    ensures Quotient(a, b) == q
  {
    hide Quotient;
    QuotientBound(a, q, b);
    QuotientBound(a, q + 1, b);
    assert (q + 1) * b == q * b + b;
  }

  function Times(a: nat, b: nat): nat {
    a * b
  }

  function Min(a: nat, b: nat): nat {
    if a <= b then a else b
  }

  lemma {:induction false} TimesMonotone(a: nat, b: nat, c: nat)
    requires b <= c
    ensures Times(a, b) <= Times(a, c)
  {
  }

  lemma {:induction false} TimesOneMore(a: nat, b: nat)
    ensures Times(a + 1, b) == Times(a, b) + b
  {
  }
}
