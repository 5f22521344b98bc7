/** The frontier capacity when the touched leaves may occupy only so many segments. It is exact: no
    touched set within the cap needs more siblings, and one of every size needs that many.
 */
module SegmentCapacity {
  import opened Powers
  import opened SparseMultiproof
  import opened FrontierCapacity

  // ------------------------------------------------------------ the touched segments

  /** The positions `levels` levels up: the subtrees of that depth that hold a touched position. */
  function Ancestors(ps: seq<nat>, levels: nat): seq<nat>
    decreases levels
  {
    if levels == 0 then ps else Ancestors(Parents(ps), levels - 1)
  }

  lemma {:induction false} ParentIsNeeded(ps: seq<nat>, q: nat)
    requires q in Parents(ps)
    ensures exists i :: 0 <= i < |ps| && ps[i] / 2 == q
    decreases |ps|
  {
    var rest := ps[Width(ps)..];
    if q == ps[0] / 2 {
      assert ps[0] / 2 == q;
    } else {
      ParentIsNeeded(rest, q);
      var i :| 0 <= i < |rest| && rest[i] / 2 == q;
      assert ps[Width(ps) + i] == rest[i];
    }
  }

  lemma {:induction false} HalfThenQuotient(p: nat, levels: nat)
    requires levels >= 1
    ensures Quotient(p / 2, Pow2(levels - 1)) == Quotient(p, Pow2(levels))
  {
    hide Quotient, Pow2;
    var half := Pow2(levels - 1);
    Pow2Doubles(levels - 1);
    var q := Quotient(p, 2 * half);
    assert q * (2 * half) == 2 * (q * half);
    HalfBetween(p, q * half, half);
    SameQuotient(p / 2, half, q);
  }

  lemma {:induction false} HalfBetween(p: nat, base: nat, half: nat)
    requires 2 * base <= p < 2 * base + 2 * half
    ensures base <= p / 2 < base + half
  {
  }

  /** The ancestors are exactly the segments the touched positions fall into. */
  lemma {:induction false} AncestorsAreSegments(ps: seq<nat>, levels: nat, q: nat)
    ensures q in Ancestors(ps, levels) <==> exists i :: 0 <= i < |ps| && Quotient(ps[i], Pow2(levels)) == q
    decreases levels
  {
    hide Quotient, Pow2, Parents;
    if levels == 0 {
      forall i | 0 <= i < |ps| ensures Quotient(ps[i], Pow2(0)) == ps[i] {
        WholeQuotient(ps[i]);
      }
    } else {
      var up := Parents(ps);
      AncestorsAreSegments(up, levels - 1, q);
      if i :| 0 <= i < |ps| && Quotient(ps[i], Pow2(levels)) == q {
        ParentIsKnown(ps, ps[i]);
        HalfThenQuotient(ps[i], levels);
        var j :| 0 <= j < |up| && up[j] == ps[i] / 2;
      }
      if j :| 0 <= j < |up| && Quotient(up[j], Pow2(levels - 1)) == q {
        ParentIsNeeded(ps, up[j]);
        var i :| 0 <= i < |ps| && ps[i] / 2 == up[j];
        HalfThenQuotient(ps[i], levels);
      }
    }
  }

  lemma {:induction false} WholeQuotient(p: nat)
    ensures Quotient(p, Pow2(0)) == p
  {
  }

  /** Nodes `used` segments have at depth `levels`. */
  function Room(used: nat, levels: nat): nat
    decreases levels
  {
    if levels == 0 then used else 2 * Room(used, levels - 1)
  }

  lemma {:induction false} RoomIs(used: nat, levels: nat)
    ensures Room(used, levels) == Times(used, Pow2(levels))
    decreases levels
  {
    hide Times, Pow2;
    if levels == 0 {
      TimesOne(used);
    } else {
      RoomIs(used, levels - 1);
      Pow2Doubles(levels - 1);
      TimesTwice(used, Pow2(levels - 1));
    }
  }

  lemma {:induction false} AncestorsShape(ps: seq<nat>, levels: nat, depth: nat)
    requires Positions(ps, depth) && levels <= depth
    ensures Positions(Ancestors(ps, levels), depth - levels)
    ensures |Ancestors(ps, levels)| <= |ps| <= Room(|Ancestors(ps, levels)|, levels)
    decreases levels
  {
    hide Pow2, Parents, Positions;
    if levels > 0 {
      LevelShrinks(ps, depth);
      AncestorsShape(Parents(ps), levels - 1, depth - 1);
    }
  }

  lemma {:induction false} TimesOne(n: nat)
    ensures Times(n, Pow2(0)) == n
  {
  }

  lemma {:induction false} TimesTwice(n: nat, half: nat)
    ensures Times(n, 2 * half) == 2 * Times(n, half)
  {
  }

  lemma {:induction false} LevelShrinks(ps: seq<nat>, depth: nat)
    requires Positions(ps, depth) && depth >= 1
    ensures Positions(Parents(ps), depth - 1) && |Parents(ps)| <= |ps| <= 2 * |Parents(ps)|
    ensures |Missing(ps)| == 2 * |Parents(ps)| - |ps|
  {
    ParentsShape(ps, Pow2(depth - 1));
    PositionsUp(ps, depth);
  }

  lemma {:induction false} CountSplits(ps: seq<nat>, levels: nat, above: nat)
    ensures SiblingCount(ps, levels + above) == SiblingCount(ps, levels) + SiblingCount(Ancestors(ps, levels), above)
    decreases levels
  {
    hide Parents, Missing;
    if levels > 0 { CountSplits(Parents(ps), levels - 1, above); }
  }

  // --------------------------------------------------- inside a number of segments

  /** Siblings inside `used` segments of depth `levels` when every level keeps as many nodes apart as it
      has room for, however the leaves are shared out between the segments. */
  function Widest(touched: nat, used: nat, levels: nat): (count: int)
    decreases levels
  {
    if levels == 0 then 0
    else
      var next := Min(touched, Room(used, levels - 1));
      2 * next - touched + Widest(next, used, levels - 1)
  }

  lemma {:induction false} WidestGrows(n: nat, m: nat, used: nat, levels: nat)
    requires n <= m
    ensures Widest(n, used, levels) + n <= Widest(m, used, levels) + m
    decreases levels
  {
    hide Room;
    if levels > 0 {
      var room := Room(used, levels - 1);
      WidestGrows(Min(n, room), Min(m, room), used, levels - 1);
    }
  }

  /** Whatever the touched set, its segments hold no more siblings than that. */
  lemma {:induction false} InsideSegments(ps: seq<nat>, levels: nat, depth: nat)
    requires Positions(ps, depth) && levels <= depth
    ensures SiblingCount(ps, levels) <= Widest(|ps|, |Ancestors(ps, levels)|, levels)
    decreases levels
  {
    hide Pow2, Parents, Missing, Positions, Times, Room;
    if levels > 0 {
      var up, used := Parents(ps), |Ancestors(ps, levels)|;
      LevelShrinks(ps, depth);
      InsideSegments(up, levels - 1, depth - 1);
      AncestorsShape(up, levels - 1, depth - 1);
      WidestGrows(|up|, Min(|ps|, Room(used, levels - 1)), used, levels - 1);
    }
  }

  // ------------------------------------------------------------- balanced segments

  lemma {:induction false} FullIsZero(levels: nat)
    ensures Widest(Pow2(levels), 1, levels) == 0
    decreases levels
  {
    hide Pow2, Room;
    if levels > 0 {
      Pow2Doubles(levels - 1);
      OneSegment(levels - 1);
      FullIsZero(levels - 1);
    }
  }

  lemma {:induction false} OneSegment(levels: nat)
    ensures Room(1, levels) == Pow2(levels)
    decreases levels
  {
    if levels > 0 { OneSegment(levels - 1); }
  }

  /** In one segment this is the analytical maximum. */
  lemma {:induction false} WidestIsMaximum(touched: nat, levels: nat)
    requires 1 <= touched <= Pow2(levels)
    ensures Widest(touched, 1, levels) == Maximum(touched, levels)
    decreases levels
  {
    if levels == 0 {
      CoverIs(1, 0);
    } else {
      var half := Pow2(levels - 1);
      OneSegment(levels - 1);
      hide Pow2, Times, Cover, Room;
      Pow2Doubles(levels - 1);
      if touched <= half {
        CoverAtMost(touched, levels - 1);
        TimesOneMore(levels - 1 - Cover(touched), touched);
        WidestIsMaximum(touched, levels - 1);
      } else {
        CoverIs(touched, levels);
        FullIsZero(levels - 1);
        NoTimes(touched);
      }
    }
  }

  lemma {:induction false} NoTimes(n: nat)
    ensures Times(0, n) == 0
  {
  }

  /** `x` in all but `r` of the segments and `y` in those. */
  function Mixed(used: nat, r: nat, x: int, y: int): int {
    (used - r) * x + r * y
  }

  lemma {:induction false} MixedRoom(used: nat, r: nat, q: nat, x: int, y: int)
    ensures Mixed(used, r, q + x, q + 1 + y) == Times(q, used) + r + Mixed(used, r, x, y)
  {
    assert (used - r) * (q + x) == (used - r) * q + (used - r) * x;
    assert r * (q + 1 + y) == r * q + r + r * y;
    assert (used - r) * q + r * q == used * q;
  }

  lemma {:induction false} MixedFull(used: nat, r: nat, q: nat, c: int)
    ensures Mixed(used, r, c - q, c - q - 1) == used * c - (Times(q, used) + r)
  {
    assert (used - r) * (c - q) + r * (c - q) == used * (c - q);
    assert used * (c - q) == used * c - used * q;
  }

  ghost predicate Fits(q: nat, r: nat, room: nat) {
    if r == 0 then q <= room else q + 1 <= room
  }

  lemma {:induction false} FitsTotal(q: nat, r: nat, used: nat, room: nat)
    requires r < used
    ensures Fits(q, r, room) <==> Times(q, used) + r <= Times(used, room)
  {
    if q + 1 <= room {
      assert (q + 1) * used <= room * used;
    } else if q == room {
      assert q * used == used * room;
    } else {
      assert (room + 1) * used <= q * used;
    }
  }

  lemma {:induction false} RoomSplits(used: nat, half: nat, w: int)
    ensures used * (2 * half + w) == 2 * Times(used, half) + used * w
  {
  }

  lemma {:induction false} MixedNone(used: nat, x: int, y: int)
    ensures Mixed(used, 0, x, y) == used * x
  {
  }

  /** Sharing the leaves out evenly reaches the widest count. */
  lemma {:induction false} BalancedIsWidest(q: nat, r: nat, used: nat, levels: nat)
    requires r < used && Fits(q, r, Pow2(levels))
    ensures Widest(Times(q, used) + r, used, levels) == Mixed(used, r, Widest(q, 1, levels), Widest(q + 1, 1, levels))
    decreases levels
  {
    hide Times, Mixed, Pow2, Room;
    if levels == 0 {
      MixedZero(used, r);
    } else {
      var half := Pow2(levels - 1);
      OneSegment(levels - 1);
      RoomIs(used, levels - 1);
      FitsTotal(q, r, used, half);
      if Fits(q, r, half) {
        BalancedIsWidest(q, r, used, levels - 1);
        MixedRoom(used, r, q, Widest(q, 1, levels - 1), Widest(q + 1, 1, levels - 1));
        if r == 0 {
          MixedNone(used, Widest(q, 1, levels), Widest(q + 1, 1, levels));
          MixedNone(used, Widest(q, 1, levels), q + 1 + Widest(q + 1, 1, levels - 1));
        }
      } else {
        SharedFull(q, r, used, levels);
      }
    }
  }

  lemma {:induction false} MixedZero(used: nat, r: nat)
    ensures Mixed(used, r, 0, 0) == 0
  {
  }

  lemma {:induction false} SharedFull(q: nat, r: nat, used: nat, levels: nat)
    requires levels >= 1 && r < used && Fits(q, r, Pow2(levels)) && !Fits(q, r, Pow2(levels - 1))
    ensures Widest(Times(q, used) + r, used, levels) == Mixed(used, r, Widest(q, 1, levels), Widest(q + 1, 1, levels))
    decreases levels, 0
  {
    hide Times, Mixed, Pow2, Room;
    var half, w := Pow2(levels - 1), Widest(Pow2(levels - 1), 1, levels - 1);
    OneSegment(levels - 1);
    RoomIs(used, levels - 1);
    FitsTotal(q, r, used, half);
    BalancedIsWidest(half, 0, used, levels - 1);
    MixedNone(used, w, Widest(half + 1, 1, levels - 1));
    TimesCommutes(half, used);
    MixedFull(used, r, q, 2 * half + w);
    RoomSplits(used, half, w);
  }

  lemma {:induction false} TimesCommutes(a: nat, b: nat)
    ensures Times(a, b) == Times(b, a)
  {
  }

  // ---------------------------------------------------------------- the capped maximum

  /** The count the source computes for one number of used segments. */
  function Total(touched: nat, depth: nat, logSegment: nat, used: nat): int
    requires logSegment <= depth && 1 <= used <= touched && used <= Pow2(depth - logSegment)
    requires touched <= Room(used, logSegment)
  {
    Widest(touched, used, logSegment) + Maximum(used, depth - logSegment)
  }

  /** This many segments of this size can hold the touched leaves, and the domain has that many. */
  ghost predicate Usable(touched: nat, depth: nat, logSegment: nat, maxSegments: nat, used: nat) {
    && logSegment <= depth && 1 <= used <= touched && used <= maxSegments && used <= Pow2(depth - logSegment)
    && touched <= Room(used, logSegment)
  }

  /** The touched set stays within the cap. */
  ghost predicate Capped(ps: seq<nat>, depth: nat, logSegment: nat, maxSegments: nat) {
    logSegment <= depth && Positions(ps, depth) && |Ancestors(ps, logSegment)| <= maxSegments
  }

  /** A touched set needs at most the total for the number of segments it uses. */
  lemma {:induction false} CountWithinTotal(ps: seq<nat>, depth: nat, logSegment: nat, maxSegments: nat)
    requires Capped(ps, depth, logSegment, maxSegments)
    ensures Usable(|ps|, depth, logSegment, maxSegments, |Ancestors(ps, logSegment)|)
    ensures SiblingCount(ps, depth) <= Total(|ps|, depth, logSegment, |Ancestors(ps, logSegment)|)
  {
    hide Pow2, Room, Ancestors, SiblingCount, Maximum, Widest, Positions;
    var up, above := Ancestors(ps, logSegment), depth - logSegment;
    AncestorsShape(ps, logSegment, depth);
    AtLeastOnePosition(up, above);
    CountWithinMaximum(up, above);
    InsideSegments(ps, logSegment, depth);
    CountSplits(ps, logSegment, above);
  }

  lemma {:induction false} AtLeastOnePosition(ps: seq<nat>, depth: nat)
    requires Positions(ps, depth)
    ensures |ps| >= 1
  {
  }

  /** Below given segments, spread the leaves as widely as every level allows. */
  lemma {:induction false} WidestBelow(segments: seq<nat>, above: nat, touched: nat, levels: nat) returns (ps: seq<nat>)
    requires Positions(segments, above) && |segments| <= touched <= Room(|segments|, levels)
    ensures Positions(ps, above + levels) && |ps| == touched && Ancestors(ps, levels) == segments
    ensures SiblingCount(ps, levels) == Widest(touched, |segments|, levels)
    decreases levels
  {
    hide Pow2, Positions, Parents, Children, Missing;
    if levels == 0 {
      ps := segments;
    } else {
      var used := |segments|;
      RoomForAll(used, levels - 1);
      var next := Min(touched, Room(used, levels - 1));
      var narrow := WidestBelow(segments, above, next, levels - 1);
      ps := Children(narrow, touched - next);
      OneLevelDown(narrow, touched - next, above + levels - 1);
    }
  }

  lemma {:induction false} RoomForAll(used: nat, levels: nat)
    ensures used <= Room(used, levels)
    decreases levels
  {
    if levels > 0 { RoomForAll(used, levels - 1); }
  }

  /** Every total is needed by some touched set that uses that many segments. */
  lemma {:induction false} TotalAttained(touched: nat, depth: nat, logSegment: nat, maxSegments: nat, used: nat)
    returns (ps: seq<nat>)
    requires Usable(touched, depth, logSegment, maxSegments, used)
    ensures Capped(ps, depth, logSegment, maxSegments) && |ps| == touched
    ensures SiblingCount(ps, depth) == Total(touched, depth, logSegment, used)
  {
    hide Room, Pow2, Positions, SiblingCount, Widest, Maximum;
    var above := depth - logSegment;
    var segments := MaximumAttained(used, above);
    ps := WidestBelow(segments, above, touched, logSegment);
    CountSplits(ps, logSegment, above);
  }

  /** The balanced shares of the source give that total. */
  lemma {:induction false} SharesGiveTotal(touched: nat, depth: nat, logSegment: nat, used: nat, q: nat, r: nat)
    requires logSegment <= depth && 1 <= used <= touched && used <= Pow2(depth - logSegment)
    requires r < used && touched == Times(q, used) + r && Fits(q, r, Pow2(logSegment))
    ensures q >= 1 && q <= Pow2(logSegment) && (r > 0 ==> q + 1 <= Pow2(logSegment))
    ensures touched <= Room(used, logSegment)
    ensures Total(touched, depth, logSegment, used) ==
            Mixed(used, r, Maximum(q, logSegment), if r == 0 then 0 else Maximum(q + 1, logSegment)) + Maximum(used,
                depth - logSegment)
  {
    hide Times, Pow2, Room, Widest, Maximum, Mixed;
    AtLeastOne(q, used, r);
    RoomIs(used, logSegment);
    FitsTotal(q, r, used, Pow2(logSegment));
    BalancedIsWidest(q, r, used, logSegment);
    WidestIsMaximum(q, logSegment);
    if r == 0 {
      MixedNone(used, Widest(q, 1, logSegment), Widest(q + 1, 1, logSegment));
      MixedNone(used, Widest(q, 1, logSegment), 0);
    } else {
      WidestIsMaximum(q + 1, logSegment);
    }
  }

  lemma {:induction false} AtLeastOne(q: nat, used: nat, r: nat)
    requires r < used <= Times(q, used) + r
    ensures q >= 1
  {
  }

  /** The largest total over the usable numbers of segments up to `last`; zero if there is none. */
  ghost predicate IsLargest(touched: nat, depth: nat, logSegment: nat, maxSegments: nat, last: nat, maximum: nat) {
    && (forall used: nat :: used <= last && Usable(touched, depth, logSegment, maxSegments, used) ==>
          Total(touched, depth, logSegment, used) <= maximum)
    && (maximum == 0 || exists used: nat ::
          && used <= last && Usable(touched, depth, logSegment, maxSegments, used)
          && Total(touched, depth, logSegment, used) == maximum)
  }

  lemma {:induction false} LargestNothing(touched: nat, depth: nat, logSegment: nat, maxSegments: nat)
    ensures IsLargest(touched, depth, logSegment, maxSegments, 0, 0)
  {
    hide Total, Pow2, Room;
  }

  lemma {:induction false} LargestSkips(touched: nat, depth: nat, logSegment: nat, maxSegments: nat, used: nat,
                                        maximum: nat)
    requires used >= 1 && IsLargest(touched, depth, logSegment, maxSegments, used - 1, maximum)
    requires Usable(touched, depth, logSegment, maxSegments, used) ==>
               Total(touched, depth, logSegment, used) <= maximum
    ensures IsLargest(touched, depth, logSegment, maxSegments, used, maximum)
  {
    hide Total, Pow2, Room, Usable;
  }

  lemma {:induction false} LargestTakes(touched: nat, depth: nat, logSegment: nat, maxSegments: nat, used: nat,
                                        maximum: nat)
    requires used >= 1 && IsLargest(touched, depth, logSegment, maxSegments, used - 1, maximum)
    requires Usable(touched, depth, logSegment, maxSegments, used) && Total(touched, depth, logSegment, used) > maximum
    ensures IsLargest(touched, depth, logSegment, maxSegments, used, Total(touched, depth, logSegment, used))
  {
    hide Total, Pow2, Room, Usable;
  }

  /** No touched set of that size within the cap needs more. */
  ghost predicate Covers(touched: nat, depth: nat, logSegment: nat, maxSegments: nat, maximum: nat) {
    forall ps: seq<nat> :: |ps| == touched && Capped(ps, depth, logSegment, maxSegments) ==>
      SiblingCount(ps, depth) <= maximum
  }

  /** One of that size within the cap needs that many. */
  ghost predicate Reached(touched: nat, depth: nat, logSegment: nat, maxSegments: nat, maximum: nat) {
    exists ps: seq<nat> ::
      |ps| == touched && Capped(ps, depth, logSegment, maxSegments) && SiblingCount(ps, depth) == maximum
  }

  lemma {:induction false} LargestCovers(touched: nat, depth: nat, logSegment: nat, maxSegments: nat, last: nat,
                                         maximum: nat)
    requires IsLargest(touched, depth, logSegment, maxSegments, last, maximum)
    requires logSegment <= depth && last == Min(touched, Min(maxSegments, Pow2(depth - logSegment)))
    ensures Covers(touched, depth, logSegment, maxSegments, maximum)
  {
    hide Total, Pow2, Room, Capped, SiblingCount;
    forall ps: seq<nat> | |ps| == touched && Capped(ps, depth, logSegment, maxSegments)
      ensures SiblingCount(ps, depth) <= maximum {
      CountWithinTotal(ps, depth, logSegment, maxSegments);
    }
  }

  lemma {:induction false} LargestReached(touched: nat, depth: nat, logSegment: nat, maxSegments: nat, last: nat,
                                          maximum: nat)
    requires IsLargest(touched, depth, logSegment, maxSegments, last, maximum)
    requires Usable(touched, depth, logSegment, maxSegments, last)
    ensures Reached(touched, depth, logSegment, maxSegments, maximum)
  {
    hide Total, Pow2, Room, Capped, SiblingCount;
    var used: nat := last;
    if maximum > 0 {
      used :| used <= last && Usable(touched, depth, logSegment, maxSegments, used) && Total(touched, depth, logSegment,
          used) == maximum;
    }
    var ps := TotalAttained(touched, depth, logSegment, maxSegments, used);
  }

  lemma {:induction false} AllSegmentsUsable(touched: nat, depth: nat, logSegment: nat, maxSegments: nat)
    requires touched >= 1 && maxSegments >= 1 && logSegment <= depth
    requires touched <= Times(Min(maxSegments, Pow2(depth - logSegment)), Pow2(logSegment))
    ensures Usable(touched, depth, logSegment, maxSegments, Min(touched, Min(maxSegments, Pow2(depth - logSegment))))
  {
    hide Pow2, Times, Room;
    RoomIs(Min(maxSegments, Pow2(depth - logSegment)), logSegment);
    RoomForAll(touched, logSegment);
  }

  /** The largest total over every legal number of used segments is exactly what a touched set within
      the cap can need. */
  method MaximumSiblingCountWithSegmentCap(touched: nat, depth: nat, logSegment: nat, maxSegments: nat)
    returns (maximum: nat)
    requires logSegment <= depth
    requires touched > 0 ==>
               maxSegments > 0 && touched <= Times(Min(maxSegments, Pow2(depth - logSegment)), Pow2(logSegment))
    ensures Covers(touched, depth, logSegment, maxSegments, maximum)
    ensures touched > 0 ==> Reached(touched, depth, logSegment, maxSegments, maximum)
    ensures touched == 0 ==> maximum == 0
  {
    hide Pow2, Times, Quotient, Remainder, Total, Maximum, Mixed, Usable, IsLargest, Covers, Reached;
    maximum := 0;
    if touched == 0 {
      LargestNothing(0, depth, logSegment, maxSegments);
      LargestCovers(0, depth, logSegment, maxSegments, 0, 0);
      return;
    }
    var above := depth - logSegment;
    var maxUsed := Min(touched, Min(maxSegments, Pow2(above)));
    LargestNothing(touched, depth, logSegment, maxSegments);
    for used: nat := 1 to maxUsed + 1
      invariant IsLargest(touched, depth, logSegment, maxSegments, used - 1, maximum)
    {
      var q, r := Quotient(touched, used), Remainder(touched, used);
      SharesOf(touched, depth, logSegment, maxSegments, used);
      if q <= Pow2(logSegment) && (r == 0 || q + 1 <= Pow2(logSegment)) {
        SharesGiveTotal(touched, depth, logSegment, used, q, r);
        var small := MaximumSiblingCount(q, logSegment);
        var large := 0;
        if r != 0 {
          large := MaximumSiblingCount(q + 1, logSegment);
        }
        var upper := MaximumSiblingCount(used, above);
        var total := Mixed(used, r, small, large) + upper;
        if total > maximum {
          LargestTakes(touched, depth, logSegment, maxSegments, used, maximum);
          maximum := total;
        } else {
          LargestSkips(touched, depth, logSegment, maxSegments, used, maximum);
        }
      } else {
        LargestSkips(touched, depth, logSegment, maxSegments, used, maximum);
      }
    }
    LargestCovers(touched, depth, logSegment, maxSegments, maxUsed, maximum);
    AllSegmentsUsable(touched, depth, logSegment, maxSegments);
    LargestReached(touched, depth, logSegment, maxSegments, maxUsed, maximum);
  }

  lemma {:induction false} SharesOf(touched: nat, depth: nat, logSegment: nat, maxSegments: nat, used: nat)
    requires logSegment <= depth && 1 <= used <= touched && used <= maxSegments && used <= Pow2(depth - logSegment)
    ensures touched == Times(Quotient(touched, used), used) + Remainder(touched, used)
    ensures Usable(touched, depth, logSegment, maxSegments, used)
            <==> Fits(Quotient(touched, used), Remainder(touched, used), Pow2(logSegment))
  {
    hide Quotient, Remainder, Pow2, Room;
    RoomIs(used, logSegment);
    FitsTotal(Quotient(touched, used), Remainder(touched, used), used, Pow2(logSegment));
  }
}
