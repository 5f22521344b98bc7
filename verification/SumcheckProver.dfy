/** The sumcheck prover: a fused kernel that binds one variable and computes the next message in one
    pass, with the equality table split in two, and the rounds that use it on large tables. */
module SumcheckProver {
  import opened Powers
  import opened Algebra
  import opened QuirkyEval
  import opened Sumcheck
  import opened SumcheckObject

  const MAX_N_HI: nat := 7
  const FUSED_FROM: nat := 10

  // -------------------------------------------------------------- split equality table

  lemma {:induction false} SplitIndex(j: nat, half: nat)
    requires half >= 1
    ensures Quotient(j / 2, half) == Quotient(j, 2 * half)
    ensures Remainder(j / 2, half) == Remainder(j, 2 * half) / 2 && Remainder(j, 2 * half) % 2 == j % 2
  {
    hide Quotient, Remainder;
    var q, rest := Quotient(j, 2 * half), Remainder(j, 2 * half);
    var base := q * half;
    assert q * (2 * half) == 2 * base;
    HalfOf(j, base, rest);
    SameQuotient(j / 2, half, q);
  }

  lemma {:induction false} HalfOf(j: nat, base: nat, rest: nat)
    requires j == 2 * base + rest
    ensures j / 2 == base + rest / 2 && j % 2 == rest % 2
  {
  }

  /** The weight of an index is the weight of its low bits times the weight of its high bits. */
  lemma {:induction false} WeightSplits(r: Ring, lo: seq<E>, hi: seq<E>, j: nat)
    requires Laws(r)
    ensures Weight(r, lo + hi, j)
         == Mul(r, Weight(r, lo, Remainder(j, Pow2(|lo|))), Weight(r, hi, Quotient(j, Pow2(|lo|))))
    decreases |lo|
  {
    hide Laws, Add, Mul, Pow2, Factor, Quotient, Remainder, Weight;
    if lo == [] {
      NoLowBits(r, hi, j);
      assert lo + hi == hi;
    } else {
      var half := Pow2(|lo| - 1);
      Pow2Doubles(|lo| - 1);
      SplitIndex(j, half);
      WeightSplits(r, lo[1..], hi, j / 2);
      assert (lo + hi)[1..] == lo[1..] + hi && (lo + hi)[0] == lo[0];
      WeightUnfolds(r, lo + hi, j);
      WeightUnfolds(r, lo, Remainder(j, 2 * half));
      MulAssoc(r, Factor(r, lo[0], j % 2 == 1), Weight(r, lo[1..], Remainder(j / 2, half)),
               Weight(r, hi, Quotient(j, 2 * half)));
    }
  }

  lemma {:induction false} NoLowBits(r: Ring, hi: seq<E>, j: nat)
    requires Laws(r)
    ensures Weight(r, hi, j) == Mul(r, Weight(r, [], Remainder(j, Pow2(0))), Weight(r, hi, Quotient(j, Pow2(0))))
  {
    hide Laws, Mul;
    MulOne(r, Weight(r, hi, j));
  }

  lemma {:induction false} SplitWeights(r: Ring, lo: seq<E>, hi: seq<E>, n: nat)
    requires Laws(r)
    ensures IndexWeights(r, Weights(r, lo, Pow2(|lo|)), hi, n) == Weights(r, lo + hi, n)
  {
    hide Laws, Add, Mul, Pow2, Weight, Weights, IndexWeights, Quotient, Remainder;
    var table := Weights(r, lo, Pow2(|lo|));
    var split, whole := IndexWeights(r, table, hi, n), Weights(r, lo + hi, n);
    forall i | 0 <= i < n ensures split[i] == whole[i] {
      InTable(r, lo, i);
      WeightSplits(r, lo, hi, i);
    }
  }

  lemma {:induction false} InTable(r: Ring, lo: seq<E>, i: nat)
    ensures Pow2(|lo|) == |Weights(r, lo, Pow2(|lo|))|
    ensures i % Pow2(|lo|) == Remainder(i, Pow2(|lo|)) && i / Pow2(|lo|) == Quotient(i, Pow2(|lo|))
    ensures Weights(r, lo, Pow2(|lo|))[i % Pow2(|lo|)] == Weight(r, lo, i % Pow2(|lo|))
  {
    hide Weight, Weights, Pow2;
  }

  /** Summing chunk by chunk against the low table, then over the high table, is the whole weighted sum. */
  lemma {:induction false} SplitSum(r: Ring, v: seq<E>, x: seq<E>, nLo: nat, chunks: seq<E>)
    requires Laws(r) && nLo <= |x| && |v| == Pow2(|x|) && |chunks| == Pow2(|x| - nLo)
    requires BlockFolded(r, v, Weights(r, x[..nLo], Pow2(nLo)), chunks)
    ensures Dot(r, v, Weights(r, x, |v|), |v|) == Dot(r, chunks, Weights(r, x[nLo..], |chunks|), |chunks|)
  {
    hide Laws, Pow2, Weights, IndexWeights, Dot, Times;
    assert x[..nLo] + x[nLo..] == x;
    SplitWeights(r, x[..nLo], x[nLo..], |v|);
    BlocksKeepSum(r, v, Weights(r, x[..nLo], Pow2(nLo)), x[nLo..], chunks, |chunks|);
  }

  // ---------------------------------------------------------------------- fused kernel

  /** The products whose weighted sums are the next message, at one and at infinity. */
  ghost function AtOne(r: Ring, a: seq<E>, b: seq<E>): (out: seq<E>)
    requires |a| == |b|
    ensures |out| == |a| / 2
  {
    Products(r, Highs(a, |a| / 2), Highs(b, |b| / 2))
  }

  ghost function AtInf(r: Ring, a: seq<E>, b: seq<E>): (out: seq<E>)
    requires |a| == |b|
    ensures |out| == |a| / 2
  {
    Products(r, Sums(r, a, |a| / 2), Sums(r, b, |b| / 2))
  }

  lemma {:induction false} PairTerms(r: Ring, a: seq<E>, b: seq<E>, j: nat)
    requires |a| == |b| && j < |a| / 2
    ensures AtOne(r, a, b)[j] == Mul(r, a[2 * j + 1], b[2 * j + 1])
    ensures AtInf(r, a, b)[j] == Mul(r, Add(r, a[2 * j], a[2 * j + 1]), Add(r, b[2 * j], b[2 * j + 1]))
  {
    hide Add, Mul, Highs, Sums, Products;
    var n := |a| / 2;
    HalvesAt(r, a, n);
    HalvesAt(r, b, n);
    ProductsAt(r, Highs(a, n), Highs(b, n));
    ProductsAt(r, Sums(r, a, n), Sums(r, b, n));
  }

  lemma {:induction false} FoldTableAt(f: Field, v: seq<E>, x: E, j: nat)
    requires FieldLaws(f) && |v| % 2 == 0 && 2 * j < |v|
    ensures FoldTable(f.ring, v, x)[j] == Add(f.ring, v[2 * j], Mul(f.ring, x, Add(f.ring, v[2 * j + 1], v[2 * j])))
  {
    hide FieldLaws, Add, Mul, Fold, FoldTable;
    FoldTableFolds(f.ring, v, x);
    FoldForms(f, v[2 * j], v[2 * j + 1], x);
  }

  /** The first `n` entries of the buffer are those of the folded table. */
  ghost predicate Filled(out: array<E>, table: seq<E>, n: nat)
    reads out
  {
    n <= |table| <= out.Length && out[..n] == table[..n]
  }

  /** Fold four entries of one table into two. */
  method FoldFour(f: Field, v: seq<E>, out: array<E>, ghost table: seq<E>, rFold: E, j: nat) returns (low: E, high: E)
    requires |v| == 2 * |table| && 2 * j + 1 < |table| && table == FoldTable(f.ring, v, rFold)
    requires Filled(out, table, 2 * j) && FieldLaws(f)
    modifies out
    ensures Filled(out, table, 2 * j + 2) && low == table[2 * j] && high == table[2 * j + 1]
  {
    hide FieldLaws, Add, Mul, FoldTable;
    var r := f.ring;
    FoldTableAt(f, v, rFold, 2 * j);
    FoldTableAt(f, v, rFold, 2 * j + 1);
    low := Add(r, v[4 * j], Mul(r, rFold, Add(r, v[4 * j + 1], v[4 * j])));
    high := Add(r, v[4 * j + 2], Mul(r, rFold, Add(r, v[4 * j + 3], v[4 * j + 2])));
    out[2 * j], out[2 * j + 1] := low, high;
    assert out[..2 * j + 2] == out[..2 * j] + [low, high];
    assert table[..2 * j + 2] == table[..2 * j] + [low, high];
  }

  lemma {:induction false} DotGrows(f: Field, v: seq<E>, at: nat, lo: seq<E>, x: nat)
    requires FieldLaws(f) && at + |lo| <= |v| && x < |lo|
    ensures Dot(f.ring, Block(v, at, |lo|), lo, x + 1)
         == Add(f.ring, Dot(f.ring, Block(v, at, |lo|), lo, x), Mul(f.ring, lo[x], v[at + x]))
  {
    hide FieldLaws, Add, Mul;
    SelfCancels(f, lo[x]);
    MulComm(f.ring, lo[x], v[at + x]);
  }

  lemma {:induction false} NoDot(r: Ring, w: seq<E>)
    ensures forall v: seq<E> :: Dot(r, v, w, 0) == r.zero
  {
  }

  /** One worker's chunk: fold both tables and add every folded pair to both sums. */
  method FusedChunk(f: Field, a: seq<E>, b: seq<E>, aOut: array<E>, bOut: array<E>, ghost fa: seq<E>, ghost fb: seq<E>,
                    rFold: E, lo: seq<E>, at: nat)
    returns (p1: E, pInf: E)
    requires |a| == |b| && |a| % 4 == 0 && aOut != bOut && 4 * (at + |lo|) <= |a|
    requires fa == FoldTable(f.ring, a, rFold) && fb == FoldTable(f.ring, b, rFold)
    requires Filled(aOut, fa, 2 * at) && Filled(bOut, fb, 2 * at) && FieldLaws(f)
    modifies aOut, bOut
    ensures Filled(aOut, fa, 2 * (at + |lo|)) && Filled(bOut, fb, 2 * (at + |lo|))
    ensures p1 == Dot(f.ring, Block(AtOne(f.ring, fa, fb), at, |lo|), lo, |lo|)
    ensures pInf == Dot(f.ring, Block(AtInf(f.ring, fa, fb), at, |lo|), lo, |lo|)
  {
    hide FieldLaws, Add, Mul, FoldTable, AtOne, AtInf, Filled, Dot, Block;
    var r := f.ring;
    NoDot(r, lo);
    ghost var ones, infs := AtOne(r, fa, fb), AtInf(r, fa, fb);
    p1, pInf := r.zero, r.zero;
    for x := 0 to |lo|
      invariant Filled(aOut, fa, 2 * (at + x)) && Filled(bOut, fb, 2 * (at + x))
      invariant p1 == Dot(r, Block(ones, at, |lo|), lo, x) && pInf == Dot(r, Block(infs, at, |lo|), lo, x)
    {
      PairTerms(r, fa, fb, at + x);
      DotGrows(f, ones, at, lo, x);
      DotGrows(f, infs, at, lo, x);
      var a0, a1 := FoldFour(f, a, aOut, fa, rFold, at + x);
      var b0, b1 := FoldFour(f, b, bOut, fb, rFold, at + x);
      p1 := Add(r, p1, Mul(r, lo[x], Mul(r, a1, b1)));
      pInf := Add(r, pInf, Mul(r, lo[x], Mul(r, Add(r, a0, a1), Add(r, b0, b1))));
    }
  }

  /** What each worker contributes: the dot product of its chunk with the low table. */
  ghost function ChunkSums(r: Ring, v: seq<E>, lo: seq<E>, n: nat): (chunks: seq<E>)
    requires Times(n, |lo|) <= |v|
    ensures |chunks| == n
  {
    if n == 0 then []
    else
      TimesOneMore(n - 1, |lo|);
      ChunkSums(r, v, lo, n - 1) + [Dot(r, Block(v, Times(n - 1, |lo|), |lo|), lo, |lo|)]
  }

  lemma {:induction false} ChunkSumsAt(r: Ring, v: seq<E>, lo: seq<E>, n: nat, j: nat)
    requires Times(n, |lo|) <= |v| && j < n
    ensures Times(j, |lo|) + |lo| <= |v|
    ensures ChunkSums(r, v, lo, n)[j] == Dot(r, Block(v, Times(j, |lo|), |lo|), lo, |lo|)
  {
    hide Dot, Block, Times;
    TimesOneMore(n - 1, |lo|);
    if j < n - 1 { ChunkSumsAt(r, v, lo, n - 1, j); }
  }

  lemma {:induction false} ChunksFold(r: Ring, v: seq<E>, lo: seq<E>, n: nat)
    requires Times(n, |lo|) == |v|
    ensures BlockFolded(r, v, lo, ChunkSums(r, v, lo, n))
  {
    hide Dot, Block, Times, ChunkSums;
    forall j: nat | j < n
      ensures Times(j, |lo|) + |lo| <= |v|
      ensures ChunkSums(r, v, lo, n)[j] == Dot(r, Block(v, Times(j, |lo|), |lo|), lo, |lo|) {
      ChunkSumsAt(r, v, lo, n, j);
    }
  }

  lemma {:induction false} ChunksCover(nLo: nat, nHi: nat)
    ensures Times(Pow2(nHi), Pow2(nLo)) == Pow2(nLo + nHi)
  {
    hide Pow2;
    Pow2Adds(nLo, nHi);
  }

  /** The chunked sums are the round values. */
  lemma {:induction false} ChunkedMessage(r: Ring, fa: seq<E>, fb: seq<E>, rest: seq<E>, nLo: nat)
    requires Laws(r) && nLo <= |rest| && |fa| == |fb| == Pow2(|rest| + 1)
    ensures |fa| / 2 == Pow2(|rest|) == Times(Pow2(|rest| - nLo), Pow2(nLo))
    ensures var lo, hi, n := Weights(r, rest[..nLo], Pow2(nLo)), rest[nLo..], Pow2(|rest| - nLo);
            && RoundValues(r, fa, fb, rest).one == Dot(r, ChunkSums(r, AtOne(r, fa, fb), lo, n), Weights(r, hi, n), n)
            && RoundValues(r, fa, fb, rest).inf == Dot(r, ChunkSums(r, AtInf(r, fa, fb), lo, n), Weights(r, hi, n), n)
  {
    hide Laws, Dot, Weights, Products, Highs, Sums, Lows, Pow2, ChunkSums, Times, BlockFolded;
    var lo, n := Weights(r, rest[..nLo], Pow2(nLo)), Pow2(|rest| - nLo);
    Pow2Doubles(|rest|);
    ChunksCover(nLo, |rest| - nLo);
    ChunksFold(r, AtOne(r, fa, fb), lo, n);
    ChunksFold(r, AtInf(r, fa, fb), lo, n);
    SplitSum(r, AtOne(r, fa, fb), rest, nLo, ChunkSums(r, AtOne(r, fa, fb), lo, n));
    SplitSum(r, AtInf(r, fa, fb), rest, nLo, ChunkSums(r, AtInf(r, fa, fb), lo, n));
  }

  /** Bind one variable and compute the next message in one pass: the buffers receive the folded tables,
      and the message is the one those tables would give. */
  method FoldAndComputeRoundPairInto(f: Field, a: seq<E>, b: seq<E>, aOut: array<E>, bOut: array<E>, rFold: E,
                                     rNext: seq<E>)
    returns (msg: Message)
    requires |rNext| + 1 >= FUSED_FROM && |a| == |b| == Pow2(|rNext| + 1)
    requires aOut != bOut && Pow2(|rNext|) <= aOut.Length && Pow2(|rNext|) <= bOut.Length && FieldLaws(f)
    modifies aOut, bOut
    ensures var fa, fb, half := FoldTable(f.ring, a, rFold), FoldTable(f.ring, b, rFold), Pow2(|rNext|);
            && |fa| == |fb| == half && aOut[..half] == fa && bOut[..half] == fb
            && msg
              == Message(Mul(f.ring, rNext[0], RoundValues(f.ring, fa, fb, rNext[1..]).one),
                         RoundValues(f.ring, fa, fb, rNext[1..]).inf)
  {
    hide FieldLaws, Laws, Add, Mul, FoldTable, RoundValues, AtOne, AtInf, Filled, Dot, Block, Weights, ChunkSums,
         Times, Pow2;
    var r, rest := f.ring, rNext[1..];
    var nHi := if |rest| < MAX_N_HI then |rest| else MAX_N_HI;
    var nLo := |rest| - nHi;
    SelfCancels(f, rFold);
    var loTable := BuildEq(r, rest[..nLo]);
    var hiTable := BuildEq(r, rest[nLo..]);
    var lo, hi := loTable[..], hiTable[..];
    Pow2Doubles(|rNext|);
    Pow2Doubles(|rest|);
    ghost var fa, fb := FoldTable(r, a, rFold), FoldTable(r, b, rFold);
    ChunkedMessage(r, fa, fb, rest, nLo);
    ghost var ones, infs := AtOne(r, fa, fb), AtInf(r, fa, fb);
    NoDot(r, hi);
    Start(aOut, fa, |lo|);
    Start(bOut, fb, |lo|);
    var sum1, sumInf := r.zero, r.zero;
    for x: nat := 0 to |hi|
      invariant Filled(aOut, fa, 2 * Times(x, |lo|)) && Filled(bOut, fb, 2 * Times(x, |lo|))
      invariant sum1 == Dot(r, ChunkSums(r, ones, lo, |hi|), hi, x)
      invariant sumInf == Dot(r, ChunkSums(r, infs, lo, |hi|), hi, x)
    {
      ChunkSumsAt(r, ones, lo, |hi|, x);
      ChunkSumsAt(r, infs, lo, |hi|, x);
      TimesOneMore(x, |lo|);
      var p1, pInf := FusedChunk(f, a, b, aOut, bOut, fa, fb, rFold, lo, Times(x, |lo|));
      DotStep(f, ChunkSums(r, ones, lo, |hi|), hi, x);
      DotStep(f, ChunkSums(r, infs, lo, |hi|), hi, x);
      sum1, sumInf := Add(r, sum1, Mul(r, hi[x], p1)), Add(r, sumInf, Mul(r, hi[x], pInf));
    }
    Done(aOut, fa);
    Done(bOut, fb);
    msg := Message(Mul(r, rNext[0], sum1), sumInf);
  }

  lemma {:induction false} DotStep(f: Field, v: seq<E>, w: seq<E>, x: nat)
    requires x < |v| && x < |w| && FieldLaws(f)
    ensures Dot(f.ring, v, w, x + 1) == Add(f.ring, Dot(f.ring, v, w, x), Mul(f.ring, w[x], v[x]))
  {
    hide FieldLaws, Add, Mul;
    SelfCancels(f, w[x]);
    MulComm(f.ring, w[x], v[x]);
  }

  lemma {:induction false} Start(out: array<E>, table: seq<E>, size: nat)
    requires |table| <= out.Length
    ensures Filled(out, table, 2 * Times(0, size))
  {
  }

  lemma {:induction false} Done(out: array<E>, table: seq<E>)
    requires Filled(out, table, |table|)
    ensures out[..|table|] == table
  {
  }

  // ------------------------------------------------------------------------ the rounds

  lemma {:induction false} ProverStep(r: Ring, a: seq<E>, b: seq<E>, eq: seq<E>, rhos: seq<E>, i: nat)
    requires i < |eq| == |rhos| && |a| == |b| == Pow2(|eq| - i) && |a| % 2 == 0
    ensures |FoldTable(r, a, rhos[i])| == |FoldTable(r, b, rhos[i])| == Pow2(|eq| - i - 1)
    ensures Messages(r, a, b, eq[i..], rhos[i..]) ==
            [RoundMessage(r, a, b, eq[i + 1..])] + Messages(r, FoldTable(r, a, rhos[i]), FoldTable(r, b, rhos[i]),
                                                            eq[i + 1..], rhos[i + 1..])
    ensures FoldAll(r, a, rhos[i..]) == FoldAll(r, FoldTable(r, a, rhos[i]), rhos[i + 1..])
    ensures FoldAll(r, b, rhos[i..]) == FoldAll(r, FoldTable(r, b, rhos[i]), rhos[i + 1..])
  {
    hide FoldTable, RoundMessage;
    assert eq[i..][1..] == eq[i + 1..] && rhos[i..][1..] == rhos[i + 1..] && rhos[i..][0] == rhos[i];
  }

  lemma {:induction false} ProverEnds(r: Ring, a: seq<E>, b: seq<E>, eq: seq<E>, rhos: seq<E>)
    requires eq == [] && rhos == [] && |a| == |b| == 1 == Pow2(0)
    ensures Messages(r, a, b, eq, rhos) == [] && FoldAll(r, a, rhos) == a[0] && FoldAll(r, b, rhos) == b[0]
  {
  }

  /** Bind a variable and compute the next message: fused into the scratch buffers, which then trade
      places with the tables, or in place on small tables. */
  method BindRound(f: Field, a: array<E>, b: array<E>, aNxt: array<E>, bNxt: array<E>, n: nat, rho: E, rest: seq<E>)
    returns (a': array<E>, b': array<E>, aNxt': array<E>, bNxt': array<E>, msg: Message)
    requires rest != [] && n == Pow2(|rest| + 1) && n <= a.Length && n <= b.Length
    requires a != b && a != aNxt && a != bNxt && b != aNxt && b != bNxt && aNxt != bNxt
    requires |rest| + 1 >= FUSED_FROM ==> n <= 2 * aNxt.Length && n <= 2 * bNxt.Length
    requires FieldLaws(f)
    modifies a, b, aNxt, bNxt
    ensures (a' == a && b' == b && aNxt' == aNxt && bNxt' == bNxt) || (a' == aNxt && b' == bNxt && aNxt' == a
                                                                       && bNxt' == b)
    ensures |rest| + 1 >= FUSED_FROM ==> aNxt' == a && bNxt' == b
    ensures n / 2 <= a'.Length && n / 2 <= b'.Length
    ensures a'[..n / 2] == FoldTable(f.ring, old(a[..n]), rho) && b'[..n / 2] == FoldTable(f.ring, old(b[..n]), rho)
    ensures msg == RoundMessage(f.ring, a'[..n / 2], b'[..n / 2], rest[1..])
  {
    hide FieldLaws, Laws, Pow2, FoldTable, RoundValues, Mul, Add;
    var r, half := f.ring, n / 2;
    Pow2Doubles(|rest|);
    var rNext := [r.one] + rest[1..];
    assert rNext[1..] == rest[1..];
    SelfCancels(f, rho);
    if |rest| + 1 >= FUSED_FROM {
      msg := FoldAndComputeRoundPairInto(f, a[..n], b[..n], aNxt, bNxt, rho, rNext);
      a', b', aNxt', bNxt' := aNxt, bNxt, a, b;
    } else {
      FoldInPlacePair(f, a, b, n, rho);
      msg := RoundPairNaive(r, a[..half], b[..half], rNext);
      a', b', aNxt', bNxt' := a, b, aNxt, bNxt;
    }
    MulOne(r, RoundValues(r, a'[..half], b'[..half], rest[1..]).one);
  }

  /** The first message, before any variable is bound. */
  method FirstMessage(f: Field, a: seq<E>, b: seq<E>, eq: seq<E>) returns (msg: Message)
    requires eq != [] && |a| == |b| == Pow2(|eq|) && FieldLaws(f)
    ensures msg == RoundMessage(f.ring, a, b, eq[1..])
  {
    hide FieldLaws, Laws, Pow2, RoundValues, Mul, Add;
    var weights := [f.ring.one] + eq[1..];
    assert weights[1..] == eq[1..];
    SelfCancels(f, f.ring.one);
    msg := RoundPairNaive(f.ring, a, b, weights);
    MulOne(f.ring, RoundValues(f.ring, a, b, eq[1..]).one);
  }

  /** The prover between rounds: the message of round `i` is the last one sent, about tables that lead
      to the same messages and evaluations as the tables at the start. */
  ghost predicate Sent(r: Ring, a0: seq<E>, b0: seq<E>, eq: seq<E>, rhos: seq<E>, msgs: seq<Message>, a: seq<E>,
                       b: seq<E>, i: nat)
    requires |a0| == |b0| == Pow2(|eq|) && |rhos| == |eq|
  {
    && i < |eq| && |a| == |b| == Pow2(|eq| - i)
    && |msgs| == i + 1 && msgs[i] == RoundMessage(r, a, b, eq[i + 1..])
    && Messages(r, a0, b0, eq, rhos) == msgs[..i] + Messages(r, a, b, eq[i..], rhos[i..])
    && FoldAll(r, a0, rhos) == FoldAll(r, a, rhos[i..]) && FoldAll(r, b0, rhos) == FoldAll(r, b, rhos[i..])
  }

  lemma {:induction false} SentFirst(r: Ring, a0: seq<E>, b0: seq<E>, eq: seq<E>, rhos: seq<E>, msg: Message)
    requires |a0| == |b0| == Pow2(|eq|) && |rhos| == |eq| && eq != [] && msg == RoundMessage(r, a0, b0, eq[1..])
    ensures Sent(r, a0, b0, eq, rhos, [msg], a0, b0, 0)
  {
    hide Messages, FoldAll, RoundMessage, Pow2;
    assert eq[0..] == eq && rhos[0..] == rhos;
    assert [msg][..0] + Messages(r, a0, b0, eq, rhos) == Messages(r, a0, b0, eq, rhos);
  }

  lemma {:induction false} SentNext(r: Ring, a0: seq<E>, b0: seq<E>, eq: seq<E>, rhos: seq<E>, msgs: seq<Message>,
                                    a: seq<E>, b: seq<E>, i: nat, msg: Message)
    requires |a0| == |b0| == Pow2(|eq|) && |rhos| == |eq| && Sent(r, a0, b0, eq, rhos, msgs, a, b, i) && i + 1 < |eq|
    requires |a| % 2 == 0 && msg == RoundMessage(r, FoldTable(r, a, rhos[i]), FoldTable(r, b, rhos[i]), eq[i + 2..])
    ensures Sent(r, a0, b0, eq, rhos, msgs + [msg], FoldTable(r, a, rhos[i]), FoldTable(r, b, rhos[i]), i + 1)
  {
    hide Messages, FoldAll, RoundMessage, FoldTable, Pow2;
    ProverStep(r, a, b, eq, rhos, i);
    assert (msgs + [msg])[..i + 1] == msgs[..i] + [msgs[i]];
  }

  lemma {:induction false} SentLast(r: Ring, a0: seq<E>, b0: seq<E>, eq: seq<E>, rhos: seq<E>, msgs: seq<Message>,
                                    a: seq<E>, b: seq<E>)
    requires |a0| == |b0| == Pow2(|eq|) && |rhos| == |eq| && eq != [] && Sent(r, a0, b0, eq, rhos, msgs, a, b, |eq| - 1)
    ensures |a| == |b| == 2 && msgs == Messages(r, a0, b0, eq, rhos)
    ensures FoldAll(r, a0, rhos) == FoldTable(r, a, rhos[|eq| - 1])[0]
    ensures FoldAll(r, b0, rhos) == FoldTable(r, b, rhos[|eq| - 1])[0]
  {
    hide Messages, FoldAll, RoundMessage, FoldTable, Pow2;
    var i := |eq| - 1;
    FirstWeight(r, []);
    Pow2Doubles(0);
    ProverStep(r, a, b, eq, rhos, i);
    ProverEnds(r, FoldTable(r, a, rhos[i]), FoldTable(r, b, rhos[i]), eq[|eq|..], rhos[|eq|..]);
    assert msgs == msgs[..i] + [msgs[i]];
  }

  /** With the first message sent: bind the variable, send the next one, and again, until one value of each
      table is left. */
  method ProveFrom(f: Field, a0: array<E>, b0: array<E>, first: Message, eq: seq<E>, rhos: seq<E>)
    returns (msgs: seq<Message>, finalA: E, finalB: E)
    requires eq != [] && a0 != b0 && a0.Length == b0.Length == Pow2(|eq|) && |rhos| == |eq|
    requires first == RoundMessage(f.ring, a0[..], b0[..], eq[1..]) && FieldLaws(f)
    modifies a0, b0
    ensures msgs == Messages(f.ring, old(a0[..]), old(b0[..]), eq, rhos)
    ensures finalA == FoldAll(f.ring, old(a0[..]), rhos) && finalB == FoldAll(f.ring, old(b0[..]), rhos)
  {
    hide FieldLaws, Laws, Pow2, FoldTable, Messages, FoldAll, RoundMessage, Sent;
    var r, n, a, b, msg := f.ring, a0.Length, a0, b0, first;
    ghost var ta0, tb0 := a0[..], b0[..];
    var scratch := if |eq| >= FUSED_FROM then n / 2 else 0;
    var aNxt, bNxt := new E[scratch](_ => r.zero), new E[scratch](_ => r.zero);
    Pow2Doubles(|eq| - 1);
    msgs := [msg];
    assert a[..n] == ta0 && b[..n] == tb0;
    SentFirst(r, ta0, tb0, eq, rhos, msg);
    for i := 0 to |eq| - 1
      invariant (a == a0 || fresh(a)) && (b == b0 || fresh(b)) && (aNxt == a0 || fresh(aNxt))
      invariant (bNxt == b0 || fresh(bNxt))
      invariant a != b && a != aNxt && a != bNxt && b != aNxt && b != bNxt && aNxt != bNxt
      invariant n == Pow2(|eq| - i) && n <= a.Length && n <= b.Length
      invariant |eq| - i >= FUSED_FROM ==> n <= 2 * aNxt.Length && n <= 2 * bNxt.Length
      invariant Sent(r, ta0, tb0, eq, rhos, msgs, a[..n], b[..n], i)
    {
      ghost var ta, tb := a[..n], b[..n];
      Pow2Doubles(|eq| - i - 1);
      Pow2Doubles(|eq| - i - 2);
      a, b, aNxt, bNxt, msg := BindRound(f, a, b, aNxt, bNxt, n, rhos[i], eq[i + 1..]);
      assert eq[i + 1..][1..] == eq[i + 2..];
      SentNext(r, ta0, tb0, eq, rhos, msgs, ta, tb, i, msg);
      msgs := msgs + [msg];
      n := n / 2;
    }
    SentLast(r, ta0, tb0, eq, rhos, msgs, a[..n], b[..n]);
    FoldInPlacePair(f, a, b, n, rhos[|eq| - 1]);
    finalA, finalB := a[0], b[0];
    assert a[..n / 2][0] == a[0] && b[..n / 2][0] == b[0];
  }

  /** The same from the tables alone, with the first message from a plain pass. */
  method ProveRounds(f: Field, a0: seq<E>, b0: seq<E>, eq: seq<E>, rhos: seq<E>)
    returns (msgs: seq<Message>, finalA: E, finalB: E)
    requires |a0| == |b0| == Pow2(|eq|) && |rhos| == |eq| && FieldLaws(f)
    ensures msgs == Messages(f.ring, a0, b0, eq, rhos)
    ensures finalA == FoldAll(f.ring, a0, rhos) && finalB == FoldAll(f.ring, b0, rhos)
  {
    hide FieldLaws, Laws, Pow2, FoldTable, Messages, FoldAll, RoundMessage;
    FirstWeight(f.ring, []);
    if eq == [] {
      ProverEnds(f.ring, a0, b0, eq, rhos);
      return [], a0[0], b0[0];
    }
    var a := new E[|a0|](i requires 0 <= i < |a0| => a0[i]);
    var b := new E[|b0|](i requires 0 <= i < |b0| => b0[i]);
    assert a[..] == a0 && b[..] == b0;
    var first := FirstMessage(f, a0, b0, eq);
    msgs, finalA, finalB := ProveFrom(f, a, b, first, eq, rhos);
  }

  /** Prover and verifier together, over any tables, weights and challenges: what the prover claims are
      the multilinear evaluations at the challenges, and it is accepted exactly when honest messages
      pass; with no weight of one they always do. */
  method ProveThenVerify(f: Field, a: seq<E>, b: seq<E>, eq: seq<E>, rhos: seq<E>)
    returns (ok: bool, finalA: E, finalB: E)
    requires FieldLaws(f) && |a| == |b| == Pow2(|eq|) && |rhos| == |eq|
    ensures finalA == Remaining(f.ring, a, rhos) && finalB == Remaining(f.ring, b, rhos)
    ensures ok <==> HonestPasses(f, a, b, eq, rhos, Claim(f.ring, a, b, eq))
    ensures f.ring.one !in eq ==> ok
  {
    hide FieldLaws, Laws, Pow2, Messages, FoldAll, RunningClaim, Claim, Mul, Add, Remaining, HonestPasses;
    var msgs;
    msgs, finalA, finalB := ProveRounds(f, a, b, eq, rhos);
    ok := VerifyRounds(f, Claim(f.ring, a, b, eq), eq, msgs, rhos, finalA, finalB);
    HonestRun(f, a, b, eq, rhos, Claim(f.ring, a, b, eq));
    TrueClaimPasses(f, a, b, eq, rhos);
    SelfCancels(f, f.ring.one);
    FoldAllEvaluates(f.ring, a, rhos);
    FoldAllEvaluates(f.ring, b, rhos);
  }
}
