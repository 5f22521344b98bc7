/** Commutative rings given by their operations, and finite sums of products in them. */
module Algebra {
  type E(==, 0, !new)

  datatype Ring = Ring(zero: E, one: E, add: (E, E) -> E, mul: (E, E) -> E)

  function Add(r: Ring, a: E, b: E): E {
    r.add(a, b)
  }

  function Mul(r: Ring, a: E, b: E): E {
    r.mul(a, b)
  }

  /** Names the elements a law is wanted for: the laws are instantiated nowhere else. */
  predicate LawAt(a: E, b: E, c: E) {
    true
  }

  /** The commutative ring laws, without negation: the folds never subtract. */
  ghost predicate Laws(r: Ring) {
    && (forall a, b, c {:trigger LawAt(a, b, c)} :: Add(r, Add(r, a, b), c) == Add(r, a, Add(r, b, c)))
    && (forall a, b {:trigger LawAt(a, b, b)} :: Add(r, a, b) == Add(r, b, a))
    && (forall a {:trigger LawAt(a, a, a)} :: Add(r, r.zero, a) == a)
    && (forall a, b, c {:trigger LawAt(a, b, c)} :: Mul(r, Mul(r, a, b), c) == Mul(r, a, Mul(r, b, c)))
    && (forall a, b {:trigger LawAt(a, b, b)} :: Mul(r, a, b) == Mul(r, b, a))
    && (forall a {:trigger LawAt(a, a, a)} :: Mul(r, r.one, a) == a)
    && (forall a {:trigger LawAt(a, a, a)} :: Mul(r, r.zero, a) == r.zero)
    && (forall a, b, c {:trigger LawAt(a, b, c)} :: Mul(r, a, Add(r, b, c)) == Add(r, Mul(r, a, b), Mul(r, a, c)))
  }

  lemma {:induction false} AddAssoc(r: Ring, a: E, b: E, c: E)
    requires Laws(r)
    ensures Add(r, Add(r, a, b), c) == Add(r, a, Add(r, b, c))
  {
    hide Add, Mul;
    assert LawAt(a, b, c);
  }

  lemma {:induction false} AddComm(r: Ring, a: E, b: E)
    requires Laws(r)
    ensures Add(r, a, b) == Add(r, b, a)
  {
    hide Add, Mul;
    assert LawAt(a, b, b);
  }

  lemma {:induction false} AddZero(r: Ring, a: E)
    requires Laws(r)
    ensures Add(r, r.zero, a) == a
  {
    hide Add, Mul;
    assert LawAt(a, a, a);
  }

  lemma {:induction false} MulAssoc(r: Ring, a: E, b: E, c: E)
    requires Laws(r)
    ensures Mul(r, Mul(r, a, b), c) == Mul(r, a, Mul(r, b, c))
  {
    hide Add, Mul;
    assert LawAt(a, b, c);
  }

  lemma {:induction false} MulComm(r: Ring, a: E, b: E)
    requires Laws(r)
    ensures Mul(r, a, b) == Mul(r, b, a)
  {
    hide Add, Mul;
    assert LawAt(a, b, b);
  }

  lemma {:induction false} MulOne(r: Ring, a: E)
    requires Laws(r)
    ensures Mul(r, r.one, a) == a
  {
    hide Add, Mul;
    assert LawAt(a, a, a);
  }

  lemma {:induction false} MulZero(r: Ring, a: E)
    requires Laws(r)
    ensures Mul(r, r.zero, a) == r.zero
  {
    hide Add, Mul;
    assert LawAt(a, a, a);
  }

  lemma {:induction false} Distributes(r: Ring, a: E, b: E, c: E)
    requires Laws(r)
    ensures Mul(r, a, Add(r, b, c)) == Add(r, Mul(r, a, b), Mul(r, a, c))
    ensures Mul(r, Add(r, b, c), a) == Add(r, Mul(r, b, a), Mul(r, c, a))
  {
    hide Add, Mul;
    assert LawAt(a, b, c);
    MulComm(r, Add(r, b, c), a);
    MulComm(r, b, a);
    MulComm(r, c, a);
  }

  /** The sum of `v[i] * w[i]` over the first `n` positions. */
  function Dot(r: Ring, v: seq<E>, w: seq<E>, n: nat): E
    requires n <= |v| && n <= |w|
  {
    if n == 0 then r.zero else Add(r, Dot(r, v, w, n - 1), Mul(r, v[n - 1], w[n - 1]))
  }
}
