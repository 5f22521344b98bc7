/** The analytical capacity of a multiproof frontier is exact: no touched set of
    that size needs more siblings, and some touched set needs that many.
 */
module FrontierCapacity {
  import opened Powers
  import opened SparseMultiproof

  /** Smallest exponent whose power of two is at least `n`. */
  function Cover(n: nat, from: nat := 0): (k: nat)
    requires from == 0 || Pow2(from - 1) < n
    ensures k >= from && Pow2(k) >= n
    ensures k == 0 || Pow2(k - 1) < n
    decreases if n > Pow2(from) then n - Pow2(from) else 0
  {
    if Pow2(from) >= n then from else Cover(n, from + 1)
  }

  lemma {:induction false} CoverAtMost(n: nat, depth: nat)
    requires n <= Pow2(depth)
    ensures Cover(n) <= depth
  {
    var k := Cover(n);
    if k > depth { Pow2Monotone(depth, k - 1); }
  }

  lemma {:induction false} CoverIs(n: nat, k: nat)
    requires n <= Pow2(k) && (k == 0 || Pow2(k - 1) < n)
    ensures Cover(n) == k
  {
    CoverAtMost(n, k);
    var c := Cover(n);
    if c < k { Pow2Monotone(c, k - 1); }
  }

  function Maximum(touched: nat, depth: nat): nat
    requires touched <= Pow2(depth)
  {
    if touched == 0 then 0
    else
      CoverAtMost(touched, depth);
      Times(depth - Cover(touched), touched) + Pow2(Cover(touched)) - touched
  }

  method MaximumSiblingCount(touched: nat, depth: nat) returns (maximum: nat)
    requires touched <= Pow2(depth)
    ensures maximum == Maximum(touched, depth)
  {
    if touched == 0 {
      return 0;
    }
    var coveringPower, coveringDepth := 1, 0;
    while coveringPower < touched
      invariant coveringPower == Pow2(coveringDepth)
      invariant coveringDepth == 0 || Pow2(coveringDepth - 1) < touched
      decreases touched - coveringPower
    {
      coveringPower := 2 * coveringPower;
      coveringDepth := coveringDepth + 1;
    }
    CoverIs(touched, coveringDepth);
    CoverAtMost(touched, depth);
    maximum := Times(depth - coveringDepth, touched) + coveringPower - touched;
  }

  // -------------------------------------------------------------- upper bound

  /** Going one level up, at least half of the nodes remain and the exponent drops
      by at most one. */
  lemma {:induction false} CoverOfParents(n: nat, m: nat)
    requires 1 <= m <= n <= 2 * m
    ensures Cover(m) <= Cover(n) <= Cover(m) + 1
  {
    var k, c := Cover(n), Cover(m);
    Pow2Monotone(c, c);
    CoverAtMost(m, k);
    Pow2Doubles(c);
    CoverAtMost(n, c + 1);
  }

  lemma {:induction false} MaximumStep(n: nat, m: nat, depth: nat, below: nat)
    requires depth == below + 1 && 1 <= m <= n <= 2 * m && m <= Pow2(below) && n <= Pow2(depth)
    ensures 2 * m - n + Maximum(m, below) <= Maximum(n, depth)
  {
    hide Pow2, Cover, Times;
    CoverOfParents(n, m);
    CoverAtMost(n, depth);
    CoverAtMost(m, below);
    var k, c := Cover(n), Cover(m);
    TimesMonotone(below - c, m, n);
    if c == k {
      TimesOneMore(below - c, n);
    } else {
      Pow2Doubles(c);
    }
  }

  /** No touched set needs more siblings than the analytical maximum. */
  lemma {:induction false} CountWithinMaximum(ps: seq<nat>, depth: nat)
    requires Positions(ps, depth)
    ensures |ps| <= Pow2(depth)
    ensures SiblingCount(ps, depth) <= Maximum(|ps|, depth)
    decreases depth
  {
    AscendingFits(ps, Pow2(depth));
    if depth > 0 {
      var below := depth - 1;
      ParentsShape(ps, Pow2(below));
      PositionsUp(ps, depth);
      CountWithinMaximum(Parents(ps), below);
      MaximumStep(|ps|, |Parents(ps)|, depth, below);
    }
  }

  // --------------------------------------------------------------- attainment

  /** Both children of the first `full` positions, the left child of the others. */
  function Children(ps: seq<nat>, full: nat): (below: seq<nat>)
    requires full <= |ps|
    ensures |below| == |ps| + full
    decreases |ps|
  {
    if ps == [] then []
    else if full > 0 then [2 * ps[0], 2 * ps[0] + 1] + Children(ps[1..], full - 1)
    else [2 * ps[0]] + Children(ps[1..], 0)
  }

  lemma {:induction false} ChildrenShape(ps: seq<nat>, full: nat, bound: nat)
    requires Ascending(ps) && Below(ps, bound) && full <= |ps|
    ensures Ascending(Children(ps, full)) && Below(Children(ps, full), 2 * bound)
    ensures forall i :: 0 <= i < |Children(ps, full)| ==> Children(ps, full)[i] >= 2 * ps[0]
    decreases |ps|
  {
    if ps != [] {
      ChildrenShape(ps[1..], if full > 0 then full - 1 else 0, bound);
    }
  }

  lemma {:induction false} ChildrenUnfold(ps: seq<nat>, full: nat)
    requires ps != [] && Ascending(ps) && full <= |ps|
    ensures var below := Children(ps, full);
            && below != [] && below[0] == 2 * ps[0] && (Paired(below) <==> full > 0)
            && below[Width(below)..] == Children(ps[1..], if full > 0 then full - 1 else 0)
  {
    if full == 0 && |ps| > 1 {
      assert Children(ps, 0)[1] == 2 * ps[1] && ps[0] < ps[1];
    }
  }

  /** One level up from the children are the positions themselves; every left child alone needs a sibling. */
  lemma {:induction false} ChildrenUp(ps: seq<nat>, full: nat)
    requires Ascending(ps) && full <= |ps|
    ensures Parents(Children(ps, full)) == ps && |Missing(Children(ps, full))| == |ps| - full
    decreases |ps|
  {
    if ps != [] {
      ChildrenUnfold(ps, full);
      LevelUnfolds(Children(ps, full));
      ChildrenUp(ps[1..], if full > 0 then full - 1 else 0);
      hide Parents, Missing, Children;
      assert Parents(Children(ps, full)) == [ps[0]] + ps[1..];
    }
  }

  /** One level further down: the wider set, and what it adds to the count. */
  lemma {:induction false} OneLevelDown(ps: seq<nat>, full: nat, depth: nat)
    requires Positions(ps, depth) && full <= |ps|
    ensures Positions(Children(ps, full), depth + 1) && |Children(ps, full)| == |ps| + full
    ensures forall levels: nat :: SiblingCount(Children(ps, full), levels + 1) == |ps| - full + SiblingCount(ps, levels)
    ensures Parents(Children(ps, full)) == ps
  {
    ChildrenShape(ps, full, Pow2(depth));
    ChildrenUp(ps, full);
    hide Parents, Missing, Children;
  }

  function RangeFrom(start: nat, count: nat): (r: seq<nat>)
    ensures |r| == count
    decreases count
  {
    if count == 0 then [] else [start] + RangeFrom(start + 1, count - 1)
  }

  lemma {:induction false} RangeShape(start: nat, count: nat)
    ensures Ascending(RangeFrom(start, count)) && Below(RangeFrom(start, count), start + count)
    ensures forall i :: 0 <= i < count ==> RangeFrom(start, count)[i] >= start
    decreases count
  {
    if count > 0 { RangeShape(start + 1, count - 1); }
  }

  lemma {:induction false} RangeDoubles(start: nat, count: nat)
    ensures RangeFrom(2 * start, 2 * count) == Children(RangeFrom(start, count), count)
    decreases count
  {
    if count > 0 {
      RangeDoubles(start + 1, count - 1);
      assert RangeFrom(start, count)[1..] == RangeFrom(start + 1, count - 1);
    }
  }

  /** A complete level needs nothing. */
  lemma {:induction false} CompleteNeedsNothing(depth: nat)
    ensures Positions(RangeFrom(0, Pow2(depth)), depth) && SiblingCount(RangeFrom(0, Pow2(depth)), depth) == 0
    decreases depth
  {
    RangeShape(0, Pow2(depth));
    if depth > 0 {
      var half := Pow2(depth - 1);
      CompleteNeedsNothing(depth - 1);
      RangeDoubles(0, half);
      OneLevelDown(RangeFrom(0, half), half, depth - 1);
    }
  }

  /** When the touched set is over half the domain, one child of every parent. */
  lemma {:induction false} DenseAttained(touched: nat, depth: nat, below: nat) returns (ps: seq<nat>)
    requires depth == below + 1 && Pow2(below) < touched <= Pow2(depth)
    ensures Positions(ps, depth) && |ps| == touched
    ensures SiblingCount(ps, depth) == Maximum(touched, depth)
  {
    var half := Pow2(below);
    Pow2Doubles(below);
    CoverIs(touched, depth);
    CompleteNeedsNothing(below);
    ps := Children(RangeFrom(0, half), touched - half);
    OneLevelDown(RangeFrom(0, half), touched - half, below);
    hide Pow2, Children, RangeFrom;
  }

  /** Every level with room to spare is spread out further. */
  lemma {:induction false} MaximumDeeper(touched: nat, below: nat)
    requires 1 <= touched <= Pow2(below)
    ensures touched <= Pow2(below + 1) && Maximum(touched, below + 1) == touched + Maximum(touched, below)
  {
    Pow2Doubles(below);
    CoverAtMost(touched, below);
    TimesOneMore(below - Cover(touched), touched);
    hide Pow2, Times, Cover;
  }

  /** Some touched set of every size needs the analytical maximum. */
  lemma {:induction false} MaximumAttained(touched: nat, depth: nat) returns (ps: seq<nat>)
    requires 1 <= touched <= Pow2(depth)
    ensures Positions(ps, depth) && |ps| == touched
    ensures SiblingCount(ps, depth) == Maximum(touched, depth)
    decreases depth
  {
    if depth == 0 {
      ps := [0];
      CoverIs(1, 0);
    } else {
      hide Pow2, Maximum, Positions, SiblingCount;
      if touched <= Pow2(depth - 1) {
        var narrow := MaximumAttained(touched, depth - 1);
        ps := Children(narrow, 0);
        OneLevelDown(narrow, 0, depth - 1);
        MaximumDeeper(touched, depth - 1);
      } else {
        ps := DenseAttained(touched, depth, depth - 1);
      }
    }
  }
}
