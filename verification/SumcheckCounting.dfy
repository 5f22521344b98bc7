/** Soundness of the sumcheck as a count: of all challenge sequences drawn from a pool, how many
    carry a false claim through, against a prover that answers with everything it has seen. */
module SumcheckCounting {
  import opened Powers
  import opened Algebra
  import opened QuirkyEval
  import opened Sumcheck
  import opened SumcheckSoundness

  // -------------------------------------------------------------- challenge sequences

  function Power(p: nat, n: nat): nat {
    if n == 0 then 1 else Times(p, Power(p, n - 1))
  }

  function Prefixed(x: E, tails: seq<seq<E>>): (out: seq<seq<E>>)
    ensures |out| == |tails|
  {
    if tails == [] then [] else Prefixed(x, tails[..|tails| - 1]) + [[x] + tails[|tails| - 1]]
  }

  /** All sequences of `n` challenges from the pool. */
  function Draws(pool: seq<E>, n: nat): seq<seq<E>>
    decreases n, |pool| + 1
  {
    if n == 0 then [[]] else DrawsFrom(pool, |pool|, n)
  }

  /** Those that start with one of the first `i` elements. */
  function DrawsFrom(pool: seq<E>, i: nat, n: nat): seq<seq<E>>
    requires i <= |pool| && n >= 1
    decreases n, i
  {
    if i == 0 then [] else DrawsFrom(pool, i - 1, n) + Prefixed(pool[i - 1], Draws(pool, n - 1))
  }

  ghost predicate Distinct(pool: seq<E>) {
    forall i, j :: 0 <= i < j < |pool| ==> pool[i] != pool[j]
  }

  lemma {:induction false} PrefixedCounts(x: E, tails: seq<seq<E>>, s: seq<E>)
    ensures multiset(Prefixed(x, tails))[s] == if s != [] && s[0] == x then multiset(tails)[s[1..]] else 0
  {
    if tails != [] {
      var front, last := tails[..|tails| - 1], tails[|tails| - 1];
      PrefixedCounts(x, front, s);
      assert tails == front + [last];
      assert ([x] + last)[1..] == last;
      assert s != [] && s[0] == x && s[1..] == last ==> s == [x] + last;
    }
  }

  lemma {:induction false} DrawsFromCounts(pool: seq<E>, i: nat, n: nat, s: seq<E>)
    requires Distinct(pool) && i <= |pool| && n >= 1
    ensures multiset(DrawsFrom(pool, i, n))[s]
         == if s != [] && s[0] in pool[..i] then multiset(Draws(pool, n - 1))[s[1..]] else 0
    decreases i
  {
    hide Draws, Prefixed;
    if i > 0 {
      DrawsFromCounts(pool, i - 1, n, s);
      PrefixedCounts(pool[i - 1], Draws(pool, n - 1), s);
      assert pool[..i] == pool[..i - 1] + [pool[i - 1]];
    }
  }

  /** Every sequence of `n` elements of the pool is drawn exactly once, and nothing else is. */
  lemma {:induction false} DrawsExact(pool: seq<E>, n: nat, s: seq<E>)
    requires Distinct(pool)
    ensures multiset(Draws(pool, n))[s] == if |s| == n && (forall k :: 0 <= k < n ==> s[k] in pool) then 1 else 0
    decreases n
  {
    hide DrawsFrom;
    if n > 0 {
      DrawsFromCounts(pool, |pool|, n, s);
      assert pool[..|pool|] == pool;
      if s != [] {
        DrawsExact(pool, n - 1, s[1..]);
        assert forall k :: 1 <= k < |s| ==> s[k] == s[1..][k - 1];
        assert forall k :: 0 <= k < |s| - 1 ==> s[1..][k] == s[k + 1];
      }
    }
  }

  lemma {:induction false} DrawsFromSize(pool: seq<E>, i: nat, n: nat)
    requires i <= |pool| && n >= 1
    ensures |DrawsFrom(pool, i, n)| == Times(i, |Draws(pool, n - 1)|)
    decreases i
  {
    hide Draws, Prefixed;
    if i > 0 {
      DrawsFromSize(pool, i - 1, n);
      TimesOneMore(i - 1, |Draws(pool, n - 1)|);
    }
  }

  lemma {:induction false} DrawsSize(pool: seq<E>, n: nat)
    ensures |Draws(pool, n)| == Power(|pool|, n)
    decreases n
  {
    hide DrawsFrom, Times;
    if n > 0 {
      DrawsSize(pool, n - 1);
      DrawsFromSize(pool, |pool|, n);
    }
  }

  // --------------------------------------------------------------------- the exchange

  /** The prover's message, from the challenges it has seen. */
  type Prover = seq<E> -> Message

  /** Where an exchange stands: the tables as bound so far, the weights still to come, the running claim. */
  datatype Exchange = Exchange(a: seq<E>, b: seq<E>, eq: seq<E>, claim: E, seen: seq<E>)

  ghost predicate Fits(e: Exchange) {
    |e.a| == |e.b| == Pow2(|e.eq|)
  }

  ghost predicate True(f: Field, e: Exchange)
    requires Fits(e)
  {
    e.claim == Claim(f.ring, e.a, e.b, e.eq)
  }

  function Played(prover: Prover, seen: seq<E>, rhos: seq<E>): (msgs: seq<Message>)
    ensures |msgs| == |rhos|
    decreases |rhos|
  {
    if rhos == [] then [] else [prover(seen)] + Played(prover, seen + [rhos[0]], rhos[1..])
  }

  /** The verifier accepts the true evaluations of the tables at these challenges. */
  ghost predicate Accepts(f: Field, prover: Prover, e: Exchange, rhos: seq<E>)
    requires Fits(e)
  {
    && |rhos| == |e.eq|
    && RunningClaim(f, e.claim, e.eq, Played(prover, e.seen, rhos), rhos)
      == Mul(f.ring, FoldAll(f.ring, e.a, rhos), FoldAll(f.ring, e.b, rhos))
  }

  ghost function Accepted(f: Field, prover: Prover, e: Exchange, draws: seq<seq<E>>): (n: nat)
    requires Fits(e)
    ensures n <= |draws|
  {
    if draws == [] then 0
    else Accepted(f, prover, e, draws[..|draws| - 1]) + if Accepts(f, prover, e, draws[|draws| - 1]) then 1 else 0
  }

  ghost function Next(f: Field, prover: Prover, e: Exchange, x: E): (after: Exchange)
    requires Fits(e) && e.eq != []
    ensures Fits(after) && after.eq == e.eq[1..]
  {
    Exchange(FoldTable(f.ring, e.a, x), FoldTable(f.ring, e.b, x), e.eq[1..],
             NextRunning(f, e.claim, e.eq[0], prover(e.seen), x), e.seen + [x])
  }

  lemma {:induction false} AcceptsUnfolds(f: Field, prover: Prover, e: Exchange, x: E, rest: seq<E>)
    requires Fits(e) && e.eq != []
    ensures Accepts(f, prover, e, [x] + rest) <==> Accepts(f, prover, Next(f, prover, e, x), rest)
  {
    hide NextRunning, FoldTable, Mul;
    var rhos := [x] + rest;
    assert rhos[1..] == rest && rhos[0] == x;
    if |rest| == |e.eq| - 1 {
      var msgs := Played(prover, e.seen, rhos);
      assert msgs[0] == prover(e.seen) && msgs[1..] == Played(prover, e.seen + [x], rest);
    }
  }

  lemma {:induction false} AcceptedPrefixed(f: Field, prover: Prover, e: Exchange, x: E, tails: seq<seq<E>>)
    requires Fits(e) && e.eq != []
    ensures Accepted(f, prover, e, Prefixed(x, tails)) == Accepted(f, prover, Next(f, prover, e, x), tails)
  {
    hide Accepts, Next, Fits;
    if tails != [] {
      var front, last := tails[..|tails| - 1], tails[|tails| - 1];
      AcceptedPrefixed(f, prover, e, x, front);
      AcceptsUnfolds(f, prover, e, x, last);
      var out := Prefixed(x, tails);
      assert out[..|out| - 1] == Prefixed(x, front) && out[|out| - 1] == [x] + last;
    }
  }

  lemma {:induction false} AcceptedAppend(f: Field, prover: Prover, e: Exchange, xs: seq<seq<E>>, ys: seq<seq<E>>)
    requires Fits(e)
    ensures Accepted(f, prover, e, xs + ys) == Accepted(f, prover, e, xs) + Accepted(f, prover, e, ys)
    decreases |ys|
  {
    hide Accepts, Fits;
    if ys == [] {
      assert xs + ys == xs;
    } else {
      AcceptedAppend(f, prover, e, xs, ys[..|ys| - 1]);
      assert (xs + ys)[..|xs + ys| - 1] == xs + ys[..|ys| - 1];
    }
  }

  // ------------------------------------------------------------------------ the count

  /** The repairing challenges among the first `i` of the pool. */
  ghost function Repairing(f: Field, prover: Prover, e: Exchange, pool: seq<E>, i: nat): (xs: seq<E>)
    requires Fits(e) && e.eq != [] && i <= |pool|
  {
    if i == 0 then []
    else Repairing(f, prover, e, pool, i - 1) + if True(f, Next(f, prover, e, pool[i - 1])) then [pool[i - 1]] else []
  }

  lemma {:induction false} RepairingShape(f: Field, prover: Prover, e: Exchange, pool: seq<E>, i: nat)
    requires Fits(e) && e.eq != [] && i <= |pool| && Distinct(pool)
    ensures var xs := Repairing(f, prover, e, pool, i);
            && Distinct(xs)
            && (forall k :: 0 <= k < |xs| ==> xs[k] in pool[..i] && True(f, Next(f, prover, e, xs[k])))
    decreases i
  {
    hide True, Next, Fits;
    if i > 0 {
      RepairingShape(f, prover, e, pool, i - 1);
      assert pool[..i] == pool[..i - 1] + [pool[i - 1]];
    }
  }

  lemma {:induction false} TrueIsRepaired(f: Field, prover: Prover, e: Exchange, x: E)
    requires Fits(e) && e.eq != []
    ensures |e.a| % 2 == 0
    ensures (True(f, Next(f, prover, e, x)) <==> Repaired(f, e.a, e.b, e.eq, e.claim, prover(e.seen), x))
  {
    hide NextRunning, FoldTable, Claim;
  }

  lemma {:induction false} AtMostTwoRepairing(f: Field, prover: Prover, e: Exchange, pool: seq<E>)
    requires Fits(e) && e.eq != [] && FieldLaws(f) && Distinct(pool) && !True(f, e) && e.eq[0] != f.ring.one
    ensures |Repairing(f, prover, e, pool, |pool|)| <= 2
  {
    hide FieldLaws, Repaired, Next, Claim, Repairing;
    RepairingShape(f, prover, e, pool, |pool|);
    var xs := Repairing(f, prover, e, pool, |pool|);
    if |xs| >= 3 {
      TrueIsRepaired(f, prover, e, xs[0]);
      TrueIsRepaired(f, prover, e, xs[1]);
      TrueIsRepaired(f, prover, e, xs[2]);
      FalseClaimStaysFalse(f, e.a, e.b, e.eq, e.claim, prover(e.seen), xs[0], xs[1], xs[2]);
      assert false;
    }
  }

  /** Two repairing challenges in this round, each with every continuation, and the rest of the pool later. */
  function Bound(p: nat, n: nat): nat {
    if n == 0 then 0 else 2 * Power(p, n - 1) + Times(p, Bound(p, n - 1))
  }

  lemma {:induction false} TimesSum(p: nat, x: nat, y: nat)
    ensures Times(p, x + y) == Times(p, x) + Times(p, y)
  {
  }

  lemma {:induction false} TimesSwap(p: nat, k: nat, x: nat)
    ensures Times(p, Times(k, x)) == Times(k, Times(p, x))
  {
  }

  lemma {:induction false} BoundIs(p: nat, n: nat)
    ensures Times(p, Bound(p, n)) == Times(2 * n, Power(p, n))
  {
    hide Times;
    if n == 0 {
      ZeroTimes(p, 1);
    } else {
      var q, k := Power(p, n - 1), 2 * (n - 1);
      BoundIs(p, n - 1);
      TimesSum(p, 2 * q, Times(p, Bound(p, n - 1)));
      TimesSum(p, q, q);
      TimesSwap(p, k, q);
      TimesOneMore(k, Times(p, q));
      TimesOneMore(k + 1, Times(p, q));
    }
  }

  lemma {:induction false} ZeroTimes(p: nat, x: nat)
    ensures Times(p, 0) == 0 && Times(0, x) == 0
  {
  }

  lemma {:induction false} AcceptedFrom(f: Field, prover: Prover, e: Exchange, pool: seq<E>, i: nat)
    requires Fits(e) && e.eq != [] && i <= |pool| && FieldLaws(f) && Distinct(pool) && f.ring.one !in e.eq[1..]
    ensures Accepted(f, prover, e, DrawsFrom(pool, i, |e.eq|)) <=
            Times(|Repairing(f, prover, e, pool, i)|, Power(|pool|, |e.eq| - 1)) + Times(i, Bound(|pool|, |e.eq| - 1))
    decreases |e.eq|, i
  {
    hide FieldLaws, Next, Fits, True, Accepted, Draws, Prefixed, Power, Bound, Times, Distinct;
    var n := |e.eq| - 1;
    var p := |pool|;
    if i == 0 {
      AcceptedNone(f, prover, e);
    } else {
      var x, before := pool[i - 1], Repairing(f, prover, e, pool, i - 1);
      AcceptedFrom(f, prover, e, pool, i - 1);
      AcceptedAppend(f, prover, e, DrawsFrom(pool, i - 1, n + 1), Prefixed(x, Draws(pool, n)));
      AcceptedPrefixed(f, prover, e, x, Draws(pool, n));
      DrawsSize(pool, n);
      TimesOneMore(i - 1, Bound(p, n));
      var after := Next(f, prover, e, x);
      if True(f, after) {
        TimesOneMore(|before|, Power(p, n));
      } else {
        FewAccepted(f, prover, after, pool);
      }
    }
  }

  lemma {:induction false} AcceptedNone(f: Field, prover: Prover, e: Exchange)
    requires Fits(e)
    ensures Accepted(f, prover, e, []) == 0
  {
  }

  lemma {:induction false} FewAccepted(f: Field, prover: Prover, e: Exchange, pool: seq<E>)
    requires Fits(e) && FieldLaws(f) && Distinct(pool) && f.ring.one !in e.eq && !True(f, e)
    ensures Accepted(f, prover, e, Draws(pool, |e.eq|)) <= Bound(|pool|, |e.eq|)
    decreases |e.eq|, |pool| + 1
  {
    hide FieldLaws, Fits, True, Accepts, Power, Times, Distinct, Repairing;
    if e.eq == [] {
      NeverAccepted(f, prover, e);
      assert Draws(pool, 0) == [[]];
    } else {
      hide Accepted, DrawsFrom;
      var n := |e.eq| - 1;
      AcceptedFrom(f, prover, e, pool, |pool|);
      AtMostTwoRepairing(f, prover, e, pool);
      AtMostTwice(|Repairing(f, prover, e, pool, |pool|)|, Power(|pool|, n));
    }
  }

  lemma {:induction false} AtMostTwice(k: nat, x: nat)
    requires k <= 2
    ensures Times(k, x) <= 2 * x
  {
  }

  lemma {:induction false} NeverAccepted(f: Field, prover: Prover, e: Exchange)
    requires Fits(e) && FieldLaws(f) && e.eq == [] && !True(f, e)
    ensures !Accepts(f, prover, e, [])
  {
    hide FieldLaws, Claim, Mul;
    LastClaim(f, e.a, e.b);
  }

  /** Of the `p^n` challenge sequences over a pool of `p`, a false claim is accepted on at most
      `2 n p^(n-1)`, whatever the tables and however the prover adapts, as long as no weight is one. */
  lemma {:induction false} FalseClaimRarelyAccepted(f: Field, prover: Prover, e: Exchange, pool: seq<E>)
    requires Fits(e) && FieldLaws(f) && Distinct(pool) && f.ring.one !in e.eq && !True(f, e)
    ensures |Draws(pool, |e.eq|)| == Power(|pool|, |e.eq|)
    ensures Times(|pool|, Accepted(f, prover, e, Draws(pool, |e.eq|))) <= Times(2 * |e.eq|, Power(|pool|, |e.eq|))
  {
    hide FieldLaws, Fits, True, Accepts, Power, Times, Distinct, Accepted, Draws, Bound;
    DrawsSize(pool, |e.eq|);
    FewAccepted(f, prover, e, pool);
    TimesMonotone(|pool|, Accepted(f, prover, e, Draws(pool, |e.eq|)), Bound(|pool|, |e.eq|));
    BoundIs(|pool|, |e.eq|);
  }

  // ------------------------------------------------------------------- a weight of one

  function Zeros(r: Ring, n: nat): (zeros: seq<E>)
    ensures |zeros| == n && forall i :: 0 <= i < n ==> zeros[i] == r.zero
  {
    if n == 0 then [] else Zeros(r, n - 1) + [r.zero]
  }

  function Silence(r: Ring): Message {
    Message(r.zero, r.zero)
  }

  lemma {:induction false} SilentRound(f: Field, c: E, w: E, rho: E)
    requires FieldLaws(f) && (w == f.ring.one || c == f.ring.zero)
    ensures NextRunning(f, c, w, Silence(f.ring), rho) == f.ring.zero
  {
    hide Laws, Add, Mul, FieldLaws, At, NextRunning;
    var r := f.ring;
    SelfCancels(f, rho);
    NextIsAt(f, c, w, Silence(r), rho);
    if w == r.one {
      ReconstructAtOne(f, c, r.zero);
    } else {
      MulComm(r, w, r.zero);
      MulZero(r, w);
      SelfCancels(f, r.zero);
      MulZero(r, f.inv(Add(r, r.one, w)));
    }
    AtLow(f, r.zero, rho);
  }

  lemma {:induction false} SilentRun(f: Field, prover: Prover, c: E, eq: seq<E>, seen: seq<E>, rhos: seq<E>)
    requires FieldLaws(f) && |rhos| == |eq| && (c == f.ring.zero || f.ring.one in eq)
    requires forall s :: prover(s) == Silence(f.ring)
    ensures RunningClaim(f, c, eq, Played(prover, seen, rhos), rhos) == f.ring.zero
    decreases |eq|
  {
    hide FieldLaws, NextRunning;
    if eq != [] {
      InFirstOrRest(f.ring.one, eq);
      var c' := NextRunning(f, c, eq[0], Silence(f.ring), rhos[0]);
      if eq[0] == f.ring.one || c == f.ring.zero { SilentRound(f, c, eq[0], rhos[0]); }
      SilentRun(f, prover, c', eq[1..], seen + [rhos[0]], rhos[1..]);
      var msgs := Played(prover, seen, rhos);
      assert msgs[0] == Silence(f.ring) && msgs[1..] == Played(prover, seen + [rhos[0]], rhos[1..]);
    }
  }

  lemma {:induction false} DotOfZeros(r: Ring, v: seq<E>, w: seq<E>, n: nat)
    requires Laws(r) && n <= |v| && n <= |w| && forall i :: 0 <= i < n ==> v[i] == r.zero
    ensures Dot(r, v, w, n) == r.zero
  {
    hide Laws, Add, Mul;
    if n > 0 {
      DotOfZeros(r, v, w, n - 1);
      MulZero(r, w[n - 1]);
      AddZero(r, r.zero);
    }
  }

  lemma {:induction false} ZeroTables(f: Field, eq: seq<E>, rhos: seq<E>)
    requires FieldLaws(f) && |rhos| == |eq|
    ensures var zeros := Zeros(f.ring, Pow2(|eq|));
            && Claim(f.ring, zeros, zeros, eq) == f.ring.zero
            && Mul(f.ring, FoldAll(f.ring, zeros, rhos), FoldAll(f.ring, zeros, rhos)) == f.ring.zero
  {
    hide Laws, Add, Mul, FieldLaws, Dot, Weights, FoldAll, Products, Pow2;
    var r, n := f.ring, Pow2(|eq|);
    var zeros := Zeros(r, n);
    SelfCancels(f, r.zero);
    MulZero(r, r.zero);
    ProductsAt(r, zeros, zeros);
    DotOfZeros(r, Products(r, zeros, zeros), Weights(r, eq, n), n);
    FoldAllEvaluates(r, zeros, rhos);
    DotOfZeros(r, zeros, Weights(r, rhos, n), n);
  }

  lemma {:induction false} DrawsFromLength(pool: seq<E>, i: nat, n: nat, k: nat)
    requires i <= |pool| && n >= 1 && k < |DrawsFrom(pool, i, n)|
    ensures |DrawsFrom(pool, i, n)[k]| == n
    decreases n, i
  {
    hide Draws, Prefixed;
    if i > 0 {
      var before := DrawsFrom(pool, i - 1, n);
      if k < |before| {
        DrawsFromLength(pool, i - 1, n, k);
      } else {
        PrefixedAt(pool[i - 1], Draws(pool, n - 1), k - |before|);
        DrawsLength(pool, n - 1, k - |before|);
      }
    }
  }

  lemma {:induction false} PrefixedAt(x: E, tails: seq<seq<E>>, k: nat)
    requires k < |tails|
    ensures Prefixed(x, tails)[k] == [x] + tails[k]
  {
    if k < |tails| - 1 { PrefixedAt(x, tails[..|tails| - 1], k); }
  }

  lemma {:induction false} DrawsLength(pool: seq<E>, n: nat, k: nat)
    requires k < |Draws(pool, n)|
    ensures |Draws(pool, n)[k]| == n
    decreases n, |pool| + 1
  {
    if n > 0 { DrawsFromLength(pool, |pool|, n, k); }
  }

  lemma {:induction false} AllAccepted(f: Field, prover: Prover, e: Exchange, draws: seq<seq<E>>)
    requires Fits(e) && forall k :: 0 <= k < |draws| ==> Accepts(f, prover, e, draws[k])
    ensures Accepted(f, prover, e, draws) == |draws|
  {
    hide Accepts, Fits;
    if draws != [] {
      AllAccepted(f, prover, e, draws[..|draws| - 1]);
    }
  }

  /** With a weight of one anywhere, two zero tables carry every claim through on every challenge. */
  lemma {:induction false} WeightOneForgets(f: Field, eq: seq<E>, c: E, pool: seq<E>)
    requires FieldLaws(f) && f.ring.one in eq
    ensures var e := Exchange(Zeros(f.ring, Pow2(|eq|)), Zeros(f.ring, Pow2(|eq|)), eq, c, []);
            && (True(f, e) <==> c == f.ring.zero)
            && Accepted(f, _ => Silence(f.ring), e, Draws(pool, |eq|)) == Power(|pool|, |eq|)
  {
    hide FieldLaws, Draws, Power, Claim, Zeros, FoldAll, Mul, Pow2, RunningClaim, Played;
    var zeros := Zeros(f.ring, Pow2(|eq|));
    var e := Exchange(zeros, zeros, eq, c, []);
    var prover: Prover := _ => Silence(f.ring);
    var draws := Draws(pool, |eq|);
    ZeroTables(f, eq, eq);
    forall k | 0 <= k < |draws| ensures Accepts(f, prover, e, draws[k]) {
      DrawsLength(pool, |eq|, k);
      SilentRun(f, prover, c, eq, [], draws[k]);
      ZeroTables(f, eq, draws[k]);
    }
    AllAccepted(f, prover, e, draws);
    DrawsSize(pool, |eq|);
  }

  /** Every false claim, over any tables and against any prover, is rarely accepted. */
  ghost predicate Sound(f: Field, eq: seq<E>, pool: seq<E>) {
    forall prover: Prover, e: Exchange | Fits(e) && e.eq == eq && !True(f, e) ::
      Times(|pool|, Accepted(f, prover, e, Draws(pool, |eq|))) <= Times(2 * |eq|, Power(|pool|, |eq|))
  }

  lemma {:induction false} PowerPositive(p: nat, n: nat)
    requires p >= 1
    ensures Power(p, n) >= 1
  {
    if n > 0 { PowerPositive(p, n - 1); }
  }

  lemma {:induction false} TimesStrict(x: nat, y: nat, q: nat)
    requires x < y && q >= 1
    ensures Times(x, q) < Times(y, q)
  {
  }

  /** The bound holds exactly when no weight is one. */
  lemma {:induction false} SoundExactly(f: Field, eq: seq<E>, pool: seq<E>)
    requires FieldLaws(f) && Distinct(pool) && |pool| > 2 * |eq|
    ensures Sound(f, eq, pool) <==> f.ring.one !in eq
  {
    hide FieldLaws, Draws, Power, True, Fits, Times, Distinct, Accepted;
    var p, n := |pool|, |eq|;
    if f.ring.one in eq {
      OneIsNotZero(f);
      WeightOneForgets(f, eq, f.ring.one, pool);
      ZerosFit(f.ring, eq, f.ring.one);
      var e := Exchange(Zeros(f.ring, Pow2(n)), Zeros(f.ring, Pow2(n)), eq, f.ring.one, []);
      PowerPositive(p, n);
      TimesStrict(2 * n, p, Power(p, n));
    } else {
      forall prover: Prover, e: Exchange | Fits(e) && e.eq == eq && !True(f, e)
        ensures Times(p, Accepted(f, prover, e, Draws(pool, n))) <= Times(2 * n, Power(p, n)) {
        FalseClaimRarelyAccepted(f, prover, e, pool);
      }
    }
  }

  lemma {:induction false} OneIsNotZero(f: Field)
    requires FieldLaws(f)
    ensures f.ring.one != f.ring.zero
  {
  }

  lemma {:induction false} ZerosFit(r: Ring, eq: seq<E>, c: E)
    ensures Fits(Exchange(Zeros(r, Pow2(|eq|)), Zeros(r, Pow2(|eq|)), eq, c, []))
  {
  }
}
