/** The multilinear sumcheck behind the zerocheck: prover rounds over halving tables, and the
    verifier's running claim, over any field of characteristic two. */
module Sumcheck {
  import opened Powers
  import opened Algebra
  import opened QuirkyEval

  datatype Field = Field(ring: Ring, inv: E -> E)

  /** The inverse is computed as a power, so it sends zero to zero. */
  ghost predicate FieldLaws(f: Field) {
    && Laws(f.ring)
    && f.ring.one != f.ring.zero
    && f.inv(f.ring.zero) == f.ring.zero
    && (forall a {:trigger LawAt(a, a, a)} :: Add(f.ring, a, a) == f.ring.zero)
    && (forall a {:trigger LawAt(a, a, a)} :: a != f.ring.zero ==> Mul(f.ring, a, f.inv(a)) == f.ring.one)
  }

  lemma {:induction false} SelfCancels(f: Field, a: E)
    requires FieldLaws(f)
    ensures Laws(f.ring) && Add(f.ring, a, a) == f.ring.zero
  {
    hide Laws, Add, Mul;
    assert LawAt(a, a, a);
  }

  lemma {:induction false} Inverts(f: Field, a: E)
    requires FieldLaws(f) && a != f.ring.zero
    ensures Mul(f.ring, a, f.inv(a)) == f.ring.one
  {
    hide Laws, Add, Mul;
    assert LawAt(a, a, a);
  }

  // ---------------------------------------------------------------- rearrangements

  lemma {:induction false} AddSwap(r: Ring, a: E, b: E, c: E, d: E)
    requires Laws(r)
    ensures Add(r, Add(r, a, b), Add(r, c, d)) == Add(r, Add(r, a, c), Add(r, b, d))
  {
    hide Laws, Add;
    AddAssoc(r, a, b, Add(r, c, d));
    AddAssoc(r, b, c, d);
    AddComm(r, b, c);
    AddAssoc(r, c, b, d);
    AddAssoc(r, a, c, Add(r, b, d));
  }

  lemma {:induction false} MulSwap(r: Ring, a: E, b: E, c: E, d: E)
    requires Laws(r)
    ensures Mul(r, Mul(r, a, b), Mul(r, c, d)) == Mul(r, Mul(r, a, c), Mul(r, b, d))
  {
    hide Laws, Mul;
    MulAssoc(r, a, b, Mul(r, c, d));
    MulAssoc(r, b, c, d);
    MulComm(r, b, c);
    MulAssoc(r, c, b, d);
    MulAssoc(r, a, c, Mul(r, b, d));
  }

  /** In characteristic two, adding the same thing twice changes nothing. */
  lemma {:induction false} AddTwice(f: Field, a: E, b: E)
    requires FieldLaws(f)
    ensures Add(f.ring, Add(f.ring, a, b), b) == a
  {
    hide Laws, Add, FieldLaws;
    var r := f.ring;
    SelfCancels(f, b);
    AddAssoc(r, a, b, b);
    AddComm(r, a, r.zero);
    AddZero(r, a);
  }

  lemma {:induction false} Square(f: Field, p: E, q: E)
    requires FieldLaws(f) && Add(f.ring, p, q) == f.ring.one
    ensures Mul(f.ring, p, p) == Add(f.ring, p, Mul(f.ring, p, q))
  {
    hide Laws, Add, Mul, FieldLaws;
    var r := f.ring;
    SelfCancels(f, p);
    Distributes(r, p, p, q);
    MulComm(r, p, r.one);
    MulOne(r, p);
    AddTwice(f, Mul(r, p, p), Mul(r, p, q));
  }

  lemma {:induction false} OnePlus(f: Field, q: E)
    requires FieldLaws(f)
    ensures Add(f.ring, Add(f.ring, f.ring.one, q), q) == f.ring.one
    ensures Add(f.ring, q, Add(f.ring, f.ring.one, q)) == f.ring.one
  {
    hide Laws, Add, FieldLaws;
    AddTwice(f, f.ring.one, q);
    SelfCancels(f, q);
    AddComm(f.ring, q, Add(f.ring, f.ring.one, q));
  }

  // --------------------------------------------------------------- one position

  /** Both forms of the fold: `low (1 + x) + high x` and `low + x (high + low)`. */
  lemma {:induction false} FoldForms(f: Field, low: E, high: E, x: E)
    requires FieldLaws(f)
    ensures Fold(f.ring, low, high, x) == Add(f.ring, low, Mul(f.ring, x, Add(f.ring, high, low)))
  {
    hide Laws, Add, Mul, FieldLaws;
    var r := f.ring;
    SelfCancels(f, x);
    Distributes(r, low, r.one, x);
    MulComm(r, low, r.one);
    MulOne(r, low);
    AddAssoc(r, low, Mul(r, low, x), Mul(r, high, x));
    Distributes(r, x, low, high);
    AddComm(r, low, high);
    MulComm(r, x, Add(r, high, low));
  }

  /** `(a0 p + a1 q)(b0 p + b1 q)` multiplied out. */
  lemma {:induction false} Expand(r: Ring, a0: E, a1: E, b0: E, b1: E, p: E, q: E)
    requires Laws(r)
    ensures Mul(r, Add(r, Mul(r, a0, p), Mul(r, a1, q)), Add(r, Mul(r, b0, p), Mul(r, b1, q))) ==
            Add(r, Add(r, Mul(r, Mul(r, a0, b0), Mul(r, p, p)), Mul(r, Mul(r, a0, b1), Mul(r, p, q))),
                   Add(r, Mul(r, Mul(r, a1, b0), Mul(r, p, q)), Mul(r, Mul(r, a1, b1), Mul(r, q, q))))
  {
    hide Laws, Add, Mul;
    var u, v, s, t := Mul(r, a0, p), Mul(r, a1, q), Mul(r, b0, p), Mul(r, b1, q);
    Distributes(r, Add(r, s, t), u, v);
    Distributes(r, u, s, t);
    Distributes(r, v, s, t);
    MulSwap(r, a0, p, b0, p);
    MulSwap(r, a0, p, b1, q);
    MulSwap(r, a1, q, b0, p);
    MulComm(r, q, p);
    MulSwap(r, a1, q, b1, q);
  }

  /** The cross product of the sums, multiplied out. */
  lemma {:induction false} Cross(r: Ring, a0: E, a1: E, b0: E, b1: E)
    requires Laws(r)
    ensures Mul(r, Add(r, a0, a1), Add(r, b0, b1)) ==
            Add(r, Add(r, Mul(r, a0, b0), Mul(r, a0, b1)), Add(r, Mul(r, a1, b0), Mul(r, a1, b1)))
  {
    hide Laws, Add, Mul;
    Distributes(r, Add(r, b0, b1), a0, a1);
    Distributes(r, a0, b0, b1);
    Distributes(r, a1, b0, b1);
  }

  /** A product of two lines is the quadratic through its values at 0, 1 and infinity. */
  lemma {:induction false} QuadraticAt(f: Field, a0: E, a1: E, b0: E, b1: E, x: E)
    requires FieldLaws(f)
    ensures var r := f.ring;
            var p := Add(r, r.one, x);
            Mul(r, Fold(r, a0, a1, x), Fold(r, b0, b1, x)) ==
            Add(r, Add(r, Mul(r, Mul(r, a0, b0), p), Mul(r, Mul(r, a1, b1), x)),
                   Mul(r, Mul(r, Add(r, a0, a1), Add(r, b0, b1)), Mul(r, p, x)))
  {
    hide Laws, Add, Mul, FieldLaws;
    var r := f.ring;
    var p := Add(r, r.one, x);
    var m := Mul(r, p, x);
    SelfCancels(f, x);
    OnePlus(f, x);
    Expand(r, a0, a1, b0, b1, p, x);
    Square(f, p, x);
    Square(f, x, p);
    MulComm(r, x, p);
    var c00, c01, c10, c11 := Mul(r, a0, b0), Mul(r, a0, b1), Mul(r, a1, b0), Mul(r, a1, b1);
    Distributes(r, c00, p, m);
    Distributes(r, c11, x, m);
    Cross(r, a0, a1, b0, b1);
    Distributes(r, m, Add(r, c00, c01), Add(r, c10, c11));
    Distributes(r, m, c00, c01);
    Distributes(r, m, c10, c11);
    Gather(r, Mul(r, c00, p), Mul(r, c11, x), Mul(r, c00, m), Mul(r, c01, m), Mul(r, c10, m), Mul(r, c11, m));
  }

  lemma {:induction false} Gather(r: Ring, u: E, v: E, k: E, l: E, m: E, n: E)
    requires Laws(r)
    ensures Add(r, Add(r, Add(r, u, k), l), Add(r, m, Add(r, v, n)))
         == Add(r, Add(r, u, v), Add(r, Add(r, k, l), Add(r, m, n)))
  {
    hide Laws, Add;
    AddAssoc(r, u, k, l);
    AddAssoc(r, m, v, n);
    AddComm(r, m, v);
    AddAssoc(r, v, m, n);
    AddSwap(r, u, Add(r, k, l), v, Add(r, m, n));
  }

  // ------------------------------------------------------------------ one round

  function Products(r: Ring, a: seq<E>, b: seq<E>): (out: seq<E>)
    requires |a| == |b|
    ensures |out| == |a|
  {
    if a == [] then [] else Products(r, a[..|a| - 1], b[..|b| - 1]) + [Mul(r, a[|a| - 1], b[|b| - 1])]
  }

  function Lows(v: seq<E>, n: nat): (out: seq<E>)
    requires 2 * n <= |v|
    ensures |out| == n
  {
    if n == 0 then [] else Lows(v, n - 1) + [v[2 * n - 2]]
  }

  function Highs(v: seq<E>, n: nat): (out: seq<E>)
    requires 2 * n <= |v|
    ensures |out| == n
  {
    if n == 0 then [] else Highs(v, n - 1) + [v[2 * n - 1]]
  }

  function Sums(r: Ring, v: seq<E>, n: nat): (out: seq<E>)
    requires 2 * n <= |v|
    ensures |out| == n
  {
    if n == 0 then [] else Sums(r, v, n - 1) + [Add(r, v[2 * n - 2], v[2 * n - 1])]
  }

  lemma {:induction false} ProductsAt(r: Ring, a: seq<E>, b: seq<E>)
    requires |a| == |b|
    ensures forall i :: 0 <= i < |a| ==> Products(r, a, b)[i] == Mul(r, a[i], b[i])
  {
    hide Mul;
    if a != [] { ProductsAt(r, a[..|a| - 1], b[..|b| - 1]); }
  }

  lemma {:induction false} HalvesAt(r: Ring, v: seq<E>, n: nat)
    requires 2 * n <= |v|
    ensures forall i :: 0 <= i < n ==> Lows(v, n)[i] == v[2 * i] && Highs(v, n)[i] == v[2 * i + 1]
    ensures forall i :: 0 <= i < n ==> Sums(r, v, n)[i] == Add(r, v[2 * i], v[2 * i + 1])
  {
    hide Add;
    if n > 0 { HalvesAt(r, v, n - 1); }
  }

  /** Bind the lowest variable of a table. */
  function FoldTable(r: Ring, v: seq<E>, x: E): (out: seq<E>)
    requires |v| % 2 == 0
    ensures 2 * |out| == |v|
  {
    if v == [] then []
    else FoldTable(r, v[..|v| - 2], x) + [Fold(r, v[|v| - 2], v[|v| - 1], x)]
  }

  lemma {:induction false} FoldTableFolds(r: Ring, v: seq<E>, x: E)
    requires |v| % 2 == 0
    ensures Folded(r, v, x, FoldTable(r, v, x))
  {
    hide Fold;
    if v != [] { FoldTableFolds(r, v[..|v| - 2], x); }
  }

  /** The weighted sum of products that a claim is about. */
  function Claim(r: Ring, a: seq<E>, b: seq<E>, eq: seq<E>): E
    requires |a| == |b|
  {
    Dot(r, Products(r, a, b), Weights(r, eq, |a|), |a|)
  }

  /** Values of the round polynomial at zero, one and infinity. */
  datatype Values = Values(zero: E, one: E, inf: E)

  function RoundValues(r: Ring, a: seq<E>, b: seq<E>, rest: seq<E>): Values
    requires |a| == |b|
  {
    var n := |a| / 2;
    var w := Weights(r, rest, n);
    Values(Dot(r, Products(r, Lows(a, n), Lows(b, n)), w, n),
           Dot(r, Products(r, Highs(a, n), Highs(b, n)), w, n),
           Dot(r, Products(r, Sums(r, a, n), Sums(r, b, n)), w, n))
  }

  /** The quadratic through those values. */
  function At(r: Ring, g: Values, x: E): E {
    var p := Add(r, r.one, x);
    Add(r, Add(r, Mul(r, g.zero, p), Mul(r, g.one, x)), Mul(r, g.inf, Mul(r, p, x)))
  }

  lemma {:induction false} DotOfTwo(r: Ring, u: seq<E>, v: seq<E>, out: seq<E>, w: seq<E>, s: E, t: E, n: nat)
    requires Laws(r) && n <= |u| && n <= |v| && n <= |out| && n <= |w|
    requires forall i :: 0 <= i < n ==> out[i] == Add(r, Mul(r, u[i], s), Mul(r, v[i], t))
    ensures Dot(r, out, w, n) == Add(r, Mul(r, Dot(r, u, w, n), s), Mul(r, Dot(r, v, w, n), t))
  {
    hide Laws, Add, Mul;
    if n == 0 {
      MulZero(r, s);
      MulZero(r, t);
      AddZero(r, r.zero);
    } else {
      var k := n - 1;
      DotOfTwo(r, u, v, out, w, s, t, k);
      Distributes(r, w[k], Mul(r, u[k], s), Mul(r, v[k], t));
      MoveLast(r, u[k], s, w[k]);
      MoveLast(r, v[k], t, w[k]);
      Distributes(r, s, Dot(r, u, w, k), Mul(r, u[k], w[k]));
      Distributes(r, t, Dot(r, v, w, k), Mul(r, v[k], w[k]));
      AddSwap(r, Mul(r, Dot(r, u, w, k), s), Mul(r, Dot(r, v, w, k), t), Mul(r, Mul(r, u[k], w[k]), s),
              Mul(r, Mul(r, v[k], w[k]), t));
    }
  }

  lemma {:induction false} MoveLast(r: Ring, a: E, b: E, c: E)
    requires Laws(r)
    ensures Mul(r, Mul(r, a, b), c) == Mul(r, Mul(r, a, c), b)
  {
    hide Laws, Mul;
    MulAssoc(r, a, b, c);
    MulComm(r, b, c);
    MulAssoc(r, a, c, b);
  }

  lemma {:induction false} DotOfSum(r: Ring, u: seq<E>, v: seq<E>, out: seq<E>, w: seq<E>, t: E, n: nat)
    requires Laws(r) && n <= |u| && n <= |v| && n <= |out| && n <= |w|
    requires forall i :: 0 <= i < n ==> out[i] == Add(r, u[i], Mul(r, v[i], t))
    ensures Dot(r, out, w, n) == Add(r, Dot(r, u, w, n), Mul(r, Dot(r, v, w, n), t))
  {
    hide Laws, Add, Mul;
    if n == 0 {
      MulZero(r, t);
      AddZero(r, r.zero);
    } else {
      var k := n - 1;
      DotOfSum(r, u, v, out, w, t, k);
      Distributes(r, w[k], u[k], Mul(r, v[k], t));
      MoveLast(r, v[k], t, w[k]);
      Distributes(r, t, Dot(r, v, w, k), Mul(r, v[k], w[k]));
      AddSwap(r, Dot(r, u, w, k), Mul(r, Dot(r, v, w, k), t), Mul(r, u[k], w[k]), Mul(r, Mul(r, v[k], w[k]), t));
    }
  }

  /** The claim splits over the variable bound next: `(1 + r) G(0) + r G(1)`. */
  lemma {:induction false} ClaimSplits(r: Ring, a: seq<E>, b: seq<E>, eq: seq<E>)
    requires Laws(r) && |a| == |b| && |a| % 2 == 0 && eq != []
    ensures var g := RoundValues(r, a, b, eq[1..]);
            Claim(r, a, b, eq) == Add(r, Mul(r, g.zero, Add(r, r.one, eq[0])), Mul(r, g.one, eq[0]))
  {
    hide Laws, Add, Mul, Dot, Weights, Lows, Highs, Sums, Products, FoldTable;
    var n := |a| / 2;
    var all := Products(r, a, b);
    var next := FoldTable(r, all, eq[0]);
    FoldTableFolds(r, all, eq[0]);
    HalvingKeepsSum(r, all, eq, next, n);
    var u, v := Products(r, Lows(a, n), Lows(b, n)), Products(r, Highs(a, n), Highs(b, n));
    HalvesAt(r, a, n);
    HalvesAt(r, b, n);
    ProductsAt(r, a, b);
    ProductsAt(r, Lows(a, n), Lows(b, n));
    ProductsAt(r, Highs(a, n), Highs(b, n));
    forall i | 0 <= i < n ensures next[i] == Add(r, Mul(r, u[i], Add(r, r.one, eq[0])), Mul(r, v[i], eq[0])) {
      assert next[i] == Fold(r, all[2 * i], all[2 * i + 1], eq[0]);
    }
    DotOfTwo(r, u, v, next, Weights(r, eq[1..], n), Add(r, r.one, eq[0]), eq[0], n);
  }

  /** Folding both tables at `x` turns the claim into the round polynomial's value at `x`. */
  lemma {:induction false} FoldedClaim(f: Field, a: seq<E>, b: seq<E>, rest: seq<E>, x: E)
    requires FieldLaws(f) && |a| == |b| && |a| % 2 == 0
    ensures Claim(f.ring, FoldTable(f.ring, a, x), FoldTable(f.ring, b, x), rest)
         == At(f.ring, RoundValues(f.ring, a, b, rest), x)
  {
    hide Laws, Add, Mul, Dot, Weights, Lows, Highs, Sums, Products, FoldTable, FieldLaws, Fold;
    var r := f.ring;
    SelfCancels(f, x);
    var n := |a| / 2;
    var p := Add(r, r.one, x);
    var u, v, c := Products(r, Lows(a, n), Lows(b, n)), Products(r, Highs(a, n), Highs(b, n)),
        Products(r, Sums(r, a, n), Sums(r, b, n));
    var lines := Lines(r, u, v, p, x);
    var fa, fb := FoldTable(r, a, x), FoldTable(r, b, x);
    FoldTableFolds(r, a, x);
    FoldTableFolds(r, b, x);
    var out := Products(r, fa, fb);
    HalvesAt(r, a, n);
    HalvesAt(r, b, n);
    ProductsAt(r, fa, fb);
    ProductsAt(r, Lows(a, n), Lows(b, n));
    ProductsAt(r, Highs(a, n), Highs(b, n));
    ProductsAt(r, Sums(r, a, n), Sums(r, b, n));
    forall i | 0 <= i < n ensures out[i] == Add(r, lines[i], Mul(r, c[i], Mul(r, p, x))) {
      assert fa[i] == Fold(r, a[2 * i], a[2 * i + 1], x) && fb[i] == Fold(r, b[2 * i], b[2 * i + 1], x);
      QuadraticAt(f, a[2 * i], a[2 * i + 1], b[2 * i], b[2 * i + 1], x);
    }
    var w := Weights(r, rest, n);
    DotOfSum(r, lines, c, out, w, Mul(r, p, x), n);
    DotOfTwo(r, u, v, lines, w, p, x, n);
  }

  function Lines(r: Ring, u: seq<E>, v: seq<E>, s: E, t: E): (out: seq<E>)
    requires |u| == |v|
    ensures |out| == |u| && forall i :: 0 <= i < |u| ==> out[i] == Add(r, Mul(r, u[i], s), Mul(r, v[i], t))
  {
    if u == [] then []
    else Lines(r, u[..|u| - 1], v[..|v| - 1], s, t) + [Add(r, Mul(r, u[|u| - 1], s), Mul(r, v[|v| - 1], t))]
  }

  // -------------------------------------------------------------------- verifier

  /** What the prover sends in a round: the round polynomial at one and at infinity. */
  datatype Message = Message(one: E, inf: E)

  /** The value at zero that makes the running claim consistent. */
  function Reconstruct(f: Field, c: E, rEq: E, one: E): E {
    Mul(f.ring, Add(f.ring, c, Mul(f.ring, rEq, one)), f.inv(Add(f.ring, f.ring.one, rEq)))
  }

  function NextRunning(f: Field, c: E, rEq: E, msg: Message, rho: E): E {
    var r := f.ring;
    var p := Add(r, r.one, rho);
    Add(r, Add(r, Mul(r, Reconstruct(f, c, rEq, msg.one), p), Mul(r, msg.one, rho)), Mul(r, Mul(r, msg.inf, rho), p))
  }

  lemma {:induction false} NextIsAt(f: Field, c: E, rEq: E, msg: Message, rho: E)
    requires FieldLaws(f)
    ensures NextRunning(f, c, rEq, msg, rho)
         == At(f.ring, Values(Reconstruct(f, c, rEq, msg.one), msg.one, msg.inf), rho)
  {
    hide Laws, Add, Mul, FieldLaws, Reconstruct;
    var r := f.ring;
    SelfCancels(f, rho);
    var p := Add(r, r.one, rho);
    MulAssoc(r, msg.inf, rho, p);
    MulComm(r, rho, p);
  }

  /** The reconstruction is the only consistent value, whenever the weight of zero is not itself zero. */
  lemma {:induction false} ReconstructExact(f: Field, c: E, rEq: E, one: E, z: E)
    requires FieldLaws(f) && Add(f.ring, f.ring.one, rEq) != f.ring.zero
    ensures Reconstruct(f, c, rEq, one) == z
            <==> c == Add(f.ring, Mul(f.ring, z, Add(f.ring, f.ring.one, rEq)), Mul(f.ring, one, rEq))
  {
    hide Laws, Add, Mul, FieldLaws;
    var r := f.ring;
    SelfCancels(f, one);
    var p := Add(r, r.one, rEq);
    var t := Mul(r, one, rEq);
    MulComm(r, rEq, one);
    Inverts(f, p);
    MulComm(r, p, f.inv(p));
    AddTwice(f, c, t);
    AddTwice(f, Mul(r, z, p), t);
    MulAssoc(r, z, p, f.inv(p));
    MulComm(r, z, r.one);
    MulOne(r, z);
    var s := Add(r, c, t);
    MulAssoc(r, s, f.inv(p), p);
    MulComm(r, s, r.one);
    MulOne(r, s);
  }

  function RunningClaim(f: Field, c: E, eq: seq<E>, msgs: seq<Message>, rhos: seq<E>): E
    requires |eq| == |msgs| == |rhos|
    decreases |eq|
  {
    if eq == [] then c
    else RunningClaim(f, NextRunning(f, c, eq[0], msgs[0], rhos[0]), eq[1..], msgs[1..], rhos[1..])
  }

  // ---------------------------------------------------------------------- prover

  function RoundMessage(r: Ring, a: seq<E>, b: seq<E>, rest: seq<E>): Message
    requires |a| == |b|
  {
    var g := RoundValues(r, a, b, rest);
    Message(g.one, g.inf)
  }

  function Messages(r: Ring, a: seq<E>, b: seq<E>, eq: seq<E>, rhos: seq<E>): (msgs: seq<Message>)
    requires |a| == |b| == Pow2(|eq|) && |rhos| == |eq|
    ensures |msgs| == |eq|
    decreases |eq|
  {
    if eq == [] then []
    else
      [RoundMessage(r, a, b, eq[1..])] + Messages(r, FoldTable(r, a, rhos[0]), FoldTable(r, b, rhos[0]), eq[1..],
                                                  rhos[1..])
  }

  function FoldAll(r: Ring, v: seq<E>, rhos: seq<E>): E
    requires |v| == Pow2(|rhos|)
    decreases |rhos|
  {
    if rhos == [] then v[0] else FoldAll(r, FoldTable(r, v, rhos[0]), rhos[1..])
  }

  /** Binding every variable evaluates the multilinear extension at the challenge point. */
  lemma {:induction false} FoldAllEvaluates(r: Ring, v: seq<E>, rhos: seq<E>)
    requires Laws(r) && |v| == Pow2(|rhos|)
    ensures FoldAll(r, v, rhos) == Remaining(r, v, rhos)
    decreases |rhos|
  {
    if rhos == [] {
      LastValue(r, v);
    } else {
      hide Laws, Dot, Weights, FoldTable, Folded;
      var next := FoldTable(r, v, rhos[0]);
      FoldTableFolds(r, v, rhos[0]);
      FoldAllEvaluates(r, next, rhos[1..]);
      HalvingKeepsSum(r, v, rhos, next, |next|);
    }
  }

  function Ones(r: Ring, n: nat): (ones: seq<E>)
    ensures |ones| == n && forall i :: 0 <= i < n ==> ones[i] == r.one
  {
    if n == 0 then [] else Ones(r, n - 1) + [r.one]
  }

  /** The equality table sums to one, at every point. */
  lemma {:induction false} EqTableSumsToOne(f: Field, x: seq<E>)
    requires FieldLaws(f)
    ensures Remaining(f.ring, Ones(f.ring, Pow2(|x|)), x) == f.ring.one
    decreases |x|
  {
    hide Laws, Add, Mul, FieldLaws, Dot, Weights;
    var r := f.ring;
    var ones := Ones(r, Pow2(|x|));
    if x == [] {
      SelfCancels(f, r.one);
      LastValue(r, ones);
    } else {
      SelfCancels(f, x[0]);
      var next := Ones(r, Pow2(|x| - 1));
      assert Fold(r, r.one, r.one, x[0]) == r.one by {
        MulOne(r, Add(r, r.one, x[0]));
        MulOne(r, x[0]);
        OnePlus(f, x[0]);
      }
      assert Folded(r, ones, x[0], next);
      HalvingKeepsSum(r, ones, x, next, |next|);
      EqTableSumsToOne(f, x[1..]);
    }
  }

  // ------------------------------------------------------------ one round, exactly

  lemma {:induction false} SumIsZero(f: Field, a: E, b: E)
    requires FieldLaws(f)
    ensures Add(f.ring, a, b) == f.ring.zero <==> a == b
  {
    hide Laws, Add, FieldLaws;
    SelfCancels(f, b);
    AddTwice(f, a, b);
    AddZero(f.ring, b);
  }

  lemma {:induction false} NoZeroDivisors(f: Field, a: E, b: E)
    requires FieldLaws(f)
    ensures Mul(f.ring, a, b) == f.ring.zero <==> a == f.ring.zero || b == f.ring.zero
  {
    hide Laws, Mul, FieldLaws;
    var r := f.ring;
    SelfCancels(f, a);
    MulZero(r, b);
    MulZero(r, a);
    MulComm(r, a, b);
    if a != r.zero {
      Inverts(f, a);
      MulComm(r, a, f.inv(a));
      MulAssoc(r, f.inv(a), a, b);
      MulOne(r, b);
      MulComm(r, f.inv(a), r.zero);
      MulZero(r, f.inv(a));
    }
  }

  function Difference(r: Ring, g: Values, h: Values): Values {
    Values(Add(r, g.zero, h.zero), Add(r, g.one, h.one), Add(r, g.inf, h.inf))
  }

  lemma {:induction false} AtDifference(f: Field, g: Values, h: Values, x: E)
    requires FieldLaws(f)
    ensures At(f.ring, Difference(f.ring, g, h), x) == Add(f.ring, At(f.ring, g, x), At(f.ring, h, x))
  {
    hide Laws, Add, Mul, FieldLaws;
    var r := f.ring;
    SelfCancels(f, x);
    var p := Add(r, r.one, x);
    var m := Mul(r, p, x);
    Distributes(r, p, g.zero, h.zero);
    Distributes(r, x, g.one, h.one);
    Distributes(r, m, g.inf, h.inf);
    AddSwap(r, Mul(r, g.zero, p), Mul(r, h.zero, p), Mul(r, g.one, x), Mul(r, h.one, x));
    AddSwap(r, Add(r, Mul(r, g.zero, p), Mul(r, g.one, x)), Add(r, Mul(r, h.zero, p), Mul(r, h.one, x)),
            Mul(r, g.inf, m), Mul(r, h.inf, m));
  }

  /** The running claim after a round is true about the tables folded at that round's challenge. */
  ghost predicate Repaired(f: Field, a: seq<E>, b: seq<E>, eq: seq<E>, c: E, msg: Message, rho: E)
    requires |a| == |b| && |a| % 2 == 0 && eq != []
  {
    NextRunning(f, c, eq[0], msg, rho) == Claim(f.ring, FoldTable(f.ring, a, rho), FoldTable(f.ring, b, rho), eq[1..])
  }

  lemma {:induction false} RepairIsRoot(f: Field, a: seq<E>, b: seq<E>, eq: seq<E>, c: E, msg: Message, rho: E)
    requires FieldLaws(f) && |a| == |b| && |a| % 2 == 0 && eq != []
    ensures var h := Values(Reconstruct(f, c, eq[0], msg.one), msg.one, msg.inf);
            Repaired(f, a, b, eq, c, msg, rho)
            <==> At(f.ring, Difference(f.ring, h, RoundValues(f.ring, a, b, eq[1..])), rho) == f.ring.zero
  {
    hide Laws, Add, Mul, FieldLaws, RoundValues, Claim, At, NextRunning, Reconstruct, FoldTable, Difference;
    var h := Values(Reconstruct(f, c, eq[0], msg.one), msg.one, msg.inf);
    var g := RoundValues(f.ring, a, b, eq[1..]);
    NextIsAt(f, c, eq[0], msg, rho);
    FoldedClaim(f, a, b, eq[1..], rho);
    AtDifference(f, h, g, rho);
    SumIsZero(f, At(f.ring, h, rho), At(f.ring, g, rho));
  }

  /** At weight one the running claim is discarded: the value at zero comes out as zero. */
  lemma {:induction false} ReconstructAtOne(f: Field, c: E, one: E)
    requires FieldLaws(f)
    ensures Reconstruct(f, c, f.ring.one, one) == f.ring.zero
  {
    hide Laws, Add, Mul;
    var r := f.ring;
    SelfCancels(f, r.one);
    var s := Add(r, c, Mul(r, r.one, one));
    MulComm(r, s, r.zero);
    MulZero(r, s);
  }

  /** When the value at zero is reconstructed right: at any other weight exactly for a true running
      claim, at weight one exactly when that value is zero. */
  lemma {:induction false} ReconstructTrue(f: Field, a: seq<E>, b: seq<E>, eq: seq<E>, c: E)
    requires FieldLaws(f) && |a| == |b| && |a| % 2 == 0 && eq != []
    ensures var g := RoundValues(f.ring, a, b, eq[1..]);
            Reconstruct(f, c, eq[0], g.one) == g.zero <==>
            if eq[0] == f.ring.one then g.zero == f.ring.zero else c == Claim(f.ring, a, b, eq)
  {
    hide Laws, Add, Mul, FieldLaws, RoundValues, Claim, Reconstruct;
    var r := f.ring;
    SelfCancels(f, r.one);
    var g := RoundValues(r, a, b, eq[1..]);
    ReconstructAtOne(f, c, g.one);
    if eq[0] != r.one {
      SumIsZero(f, r.one, eq[0]);
      ClaimSplits(r, a, b, eq);
      ReconstructExact(f, c, eq[0], g.one, g.zero);
    }
  }

  lemma {:induction false} AtLow(f: Field, z: E, x: E)
    requires FieldLaws(f)
    ensures At(f.ring, Values(z, f.ring.zero, f.ring.zero), x) == f.ring.zero <==> z == f.ring.zero || x == f.ring.one
  {
    hide Laws, Add, Mul, FieldLaws;
    var r := f.ring;
    SelfCancels(f, x);
    var p := Add(r, r.one, x);
    var low := Mul(r, z, p);
    MulZero(r, x);
    MulZero(r, Mul(r, p, x));
    AddComm(r, low, r.zero);
    AddZero(r, low);
    NoZeroDivisors(f, z, p);
    SumIsZero(f, r.one, x);
  }

  /** An honest message, whatever the running claim was: the next claim is true exactly when the value
      at zero was reconstructed right or the challenge is one. */
  lemma {:induction false} HonestRound(f: Field, a: seq<E>, b: seq<E>, eq: seq<E>, c: E, rho: E)
    requires FieldLaws(f) && |a| == |b| && |a| % 2 == 0 && eq != []
    ensures var g := RoundValues(f.ring, a, b, eq[1..]);
            Repaired(f, a, b, eq, c, RoundMessage(f.ring, a, b, eq[1..]), rho) <==>
            rho == f.ring.one || (if eq[0] == f.ring.one then g.zero == f.ring.zero else c == Claim(f.ring, a, b, eq))
  {
    hide Laws, Add, Mul, FieldLaws, RoundValues, Claim, At, Reconstruct, Repaired;
    var r := f.ring;
    SelfCancels(f, rho);
    var g := RoundValues(r, a, b, eq[1..]);
    var low := Reconstruct(f, c, eq[0], g.one);
    RepairIsRoot(f, a, b, eq, c, Message(g.one, g.inf), rho);
    SelfCancels(f, g.one);
    SelfCancels(f, g.inf);
    SumIsZero(f, low, g.zero);
    AtLow(f, Add(r, low, g.zero), rho);
    ReconstructTrue(f, a, b, eq, c);
  }

  // ----------------------------------------------------------------- completeness

  lemma {:induction false} LastClaim(f: Field, a: seq<E>, b: seq<E>)
    requires FieldLaws(f) && |a| == |b| == 1
    ensures Claim(f.ring, a, b, []) == Mul(f.ring, a[0], b[0])
  {
    hide Laws, Add, Mul, FieldLaws;
    SelfCancels(f, a[0]);
    ProductsAt(f.ring, a, b);
    LastValue(f.ring, Products(f.ring, a, b));
  }

  /** A table after its first variables are bound, with `left` variables still free. */
  function BoundTable(r: Ring, v: seq<E>, rhos: seq<E>, left: nat): (out: seq<E>)
    requires |v| == Pow2(|rhos| + left)
    ensures |out| == Pow2(left)
    decreases |rhos|
  {
    if rhos == [] then v else BoundTable(r, FoldTable(r, v, rhos[0]), rhos[1..], left)
  }

  /** The last round of weight one, or -1. */
  function LastOne(one: E, eq: seq<E>): (k: int)
    ensures -1 <= k < |eq| && (k >= 0 ==> eq[k] == one)
    ensures forall j :: 0 <= j < |eq| && k < j ==> eq[j] != one
  {
    if eq == [] then -1
    else
      var k := LastOne(one, eq[1..]);
      assert forall j :: 1 <= j < |eq| ==> eq[j] == eq[1..][j - 1];
      if k >= 0 then k + 1 else if eq[0] == one then 0 else -1
  }

  /** The round polynomial at zero of the tables as they are bound before round `k`. */
  function LowValue(r: Ring, a: seq<E>, b: seq<E>, eq: seq<E>, rhos: seq<E>, k: nat): E
    requires |a| == |b| == Pow2(|eq|) && |rhos| == |eq| && k < |eq|
  {
    RoundValues(r, BoundTable(r, a, rhos[..k], |eq| - k), BoundTable(r, b, rhos[..k], |eq| - k), eq[k + 1..]).zero
  }

  /** What honest messages are worth, from any claim: they pass for a true claim while no weight is
      one; after a round of weight one the claim is forgotten and only the value at zero counts; and a
      challenge equal to one passes whatever came before it. */
  ghost predicate HonestPasses(f: Field, a: seq<E>, b: seq<E>, eq: seq<E>, rhos: seq<E>, c: E)
    requires |a| == |b| == Pow2(|eq|) && |rhos| == |eq|
  {
    var k := LastOne(f.ring.one, eq);
    if k < 0 then f.ring.one in rhos || c == Claim(f.ring, a, b, eq)
    else f.ring.one in rhos[k..] || LowValue(f.ring, a, b, eq, rhos, k) == f.ring.zero
  }

  lemma {:induction false} LowValueLater(r: Ring, a: seq<E>, b: seq<E>, eq: seq<E>, rhos: seq<E>, k: nat)
    requires |a| == |b| == Pow2(|eq|) && |rhos| == |eq| && k + 1 < |eq|
    ensures LowValue(r, a, b, eq, rhos, k + 1) ==
            LowValue(r, FoldTable(r, a, rhos[0]), FoldTable(r, b, rhos[0]), eq[1..], rhos[1..], k)
    ensures rhos[k + 1..] == rhos[1..][k..]
  {
    hide RoundValues, FoldTable;
    assert rhos[..k + 1][1..] == rhos[1..][..k] && eq[1..][k + 1..] == eq[k + 2..];
  }

  lemma {:induction false} LowValueFirst(r: Ring, a: seq<E>, b: seq<E>, eq: seq<E>, rhos: seq<E>)
    requires |a| == |b| == Pow2(|eq|) && |rhos| == |eq| && eq != []
    ensures LowValue(r, a, b, eq, rhos, 0) == RoundValues(r, a, b, eq[1..]).zero
  {
    hide RoundValues, FoldTable;
    assert rhos[..0] == [];
  }

  lemma {:induction false} InFirstOrRest(x: E, s: seq<E>)
    requires s != []
    ensures x in s <==> x == s[0] || x in s[1..]
  {
    assert s == [s[0]] + s[1..];
  }

  lemma {:induction false} LastOneUnfolds(one: E, eq: seq<E>)
    requires eq != []
    ensures var k := LastOne(one, eq[1..]);
            LastOne(one, eq) == if k >= 0 then k + 1 else if eq[0] == one then 0 else -1
  {
  }

  lemma {:induction false} PassesLater(f: Field, a: seq<E>, b: seq<E>, eq: seq<E>, rhos: seq<E>, c: E, c': E)
    requires |a| == |b| == Pow2(|eq|) && |rhos| == |eq| && eq != [] && LastOne(f.ring.one, eq[1..]) >= 0
    ensures HonestPasses(f, a, b, eq, rhos, c) <==>
            HonestPasses(f, FoldTable(f.ring, a, rhos[0]), FoldTable(f.ring, b, rhos[0]), eq[1..], rhos[1..], c')
  {
    hide Claim, FoldTable, LowValue, LastOne;
    LastOneUnfolds(f.ring.one, eq);
    LowValueLater(f.ring, a, b, eq, rhos, LastOne(f.ring.one, eq[1..]));
  }

  lemma {:induction false} PassesNow(f: Field, a: seq<E>, b: seq<E>, eq: seq<E>, rhos: seq<E>, c: E)
    requires |a| == |b| == Pow2(|eq|) && |rhos| == |eq| && eq != [] && LastOne(f.ring.one, eq[1..]) < 0
    ensures HonestPasses(f, a, b, eq, rhos, c) <==>
            || f.ring.one in rhos
            || (if eq[0] == f.ring.one then RoundValues(f.ring, a, b,
                                                        eq[1..]).zero == f.ring.zero else c == Claim(f.ring, a, b, eq))
  {
    hide Claim, FoldTable, LowValue, LastOne, RoundValues;
    LastOneUnfolds(f.ring.one, eq);
    LowValueFirst(f.ring, a, b, eq, rhos);
    assert rhos[0..] == rhos;
  }

  lemma {:induction false} PassesAfter(f: Field, a: seq<E>, b: seq<E>, eq: seq<E>, rhos: seq<E>, c: E)
    requires |a| == |b| == Pow2(|eq|) && |rhos| == |eq| && LastOne(f.ring.one, eq) < 0
    ensures HonestPasses(f, a, b, eq, rhos, c) <==> f.ring.one in rhos || c == Claim(f.ring, a, b, eq)
  {
    hide Claim, LowValue, LastOne;
  }

  /** Honest messages for any tables, weights and challenges take the verifier from any claim to the
      product of the two evaluations it checks against, exactly when they pass. */
  lemma {:induction false} HonestRun(f: Field, a: seq<E>, b: seq<E>, eq: seq<E>, rhos: seq<E>, c: E)
    requires FieldLaws(f) && |a| == |b| == Pow2(|eq|) && |rhos| == |eq|
    ensures HonestPasses(f, a, b, eq, rhos, c) <==>
            RunningClaim(f, c, eq, Messages(f.ring, a, b, eq, rhos), rhos)
            == Mul(f.ring, FoldAll(f.ring, a, rhos), FoldAll(f.ring, b, rhos))
    decreases |eq|
  {
    hide Laws, Add, Mul, FieldLaws, RoundMessage, Claim, NextRunning, FoldTable, Folded, HonestPasses, LastOne;
    if eq == [] {
      LastClaim(f, a, b);
      PassesAfter(f, a, b, eq, rhos, c);
    } else {
      var r, rho := f.ring, rhos[0];
      var fa, fb := FoldTable(r, a, rho), FoldTable(r, b, rho);
      var c' := NextRunning(f, c, eq[0], RoundMessage(r, a, b, eq[1..]), rho);
      HonestRun(f, fa, fb, eq[1..], rhos[1..], c');
      if LastOne(r.one, eq[1..]) >= 0 {
        PassesLater(f, a, b, eq, rhos, c, c');
      } else {
        PassesNow(f, a, b, eq, rhos, c);
        HonestRound(f, a, b, eq, c, rho);
        PassesAfter(f, fa, fb, eq[1..], rhos[1..], c');
        InFirstOrRest(r.one, rhos);
      }
    }
  }

  /** Starting from the true claim: accepted whenever no weight is one. */
  lemma {:induction false} TrueClaimPasses(f: Field, a: seq<E>, b: seq<E>, eq: seq<E>, rhos: seq<E>)
    requires |a| == |b| == Pow2(|eq|) && |rhos| == |eq|
    ensures f.ring.one !in eq ==> HonestPasses(f, a, b, eq, rhos, Claim(f.ring, a, b, eq))
  {
    hide Claim, LowValue;
  }
}
