/** Doubling the slot domain, and rolling it back once its upper half is empty. */
module SegmentedResize {
  import opened Wrappers
  import opened Powers
  import opened ExactStateHash
  import opened SegmentedState

  /** A single segment is committed again at its new size, which an evicted one cannot be. */
  predicate ExpandAborts(st: State) {
    st.logSlots + 1 <= LOG_SEGMENT_SIZE && 0 in st.evicted
  }

  function Expanded(st: State): State
    requires |st.segments| >= 1 && !ExpandAborts(st)
  {
    if st.logSlots + 1 <= LOG_SEGMENT_SIZE then
      var grown := match st.segments[0]
        case Some(columns) => Some(columns + ZeroSlots(Pow2(st.logSlots)))
        case None => None;
      st.(logSlots := st.logSlots + 1, segments := st.segments[0 := grown])
    else
      var n := |st.segments|;
      st.(logSlots := st.logSlots + 1,
          segments := st.segments + seq(n, _ => None),
          live := st.live + seq(n, _ => 0))
  }

  /** The first segment from `s` on that must not be discarded. */
  function Blocked(st: State, s: nat): Option<StateError>
    requires |st.segments| == |st.live|
    decreases |st.segments| - s
  {
    if s >= |st.segments| then None
    else if s in st.evicted then Some(EvictedUpperSegment(s))
    else if st.live[s] != 0 then Some(NonEmptyUpperHalf(s))
    else Blocked(st, s + 1)
  }

  /** One level of the rollback; fails closed on live or evicted upper slots. */
  function ShrunkOnce(st: State): Result<State, StateError>
    requires st.logSlots >= 1 && |st.segments| == |st.live| >= 1
    requires st.segments[0].Some? ==> |st.segments[0].value| == st.Size()
  {
    if st.logSlots <= LOG_SEGMENT_SIZE then
      var keep := Pow2(st.logSlots - 1);
      assert st.Size() == 2 * keep;
      if 0 in st.evicted then Err(EvictedUpperSegment(0))
      else
        match st.segments[0]
        case None => Ok(st.(logSlots := st.logSlots - 1))
        case Some(columns) =>
          if columns[keep..] != ZeroSlots(keep) then Err(NonEmptyUpperHalf(0))
          else
            var count := CountLive(columns[..keep]);
            Ok(st.(logSlots := st.logSlots - 1,
                   segments := st.segments[0 := if count == 0 then None else Some(columns[..keep])],
                   live := st.live[0 := count]))
    else
      var n := |st.segments| / 2;
      match Blocked(st, n)
      case Some(error) => Err(error)
      case None => Ok(State(st.logSlots - 1, st.segments[..n], st.live[..n], set s | s in st.evicted && s < n))
  }

  lemma {:induction false} ExpandedValid(st: State)
    requires st.Valid() && st.logSlots < LOG_SLOTS_MAX && !ExpandAborts(st)
    ensures Expanded(st).Valid() && Expanded(st).evicted == st.evicted
    ensures forall s :: 0 <= s < |Expanded(st).segments| ==>
              Expanded(st).Excess(s) == if s < |st.segments| then st.Excess(s) else 0
  {
    var st' := Expanded(st);
    SegmentIdsFit(st'.logSlots);
    forall s | 0 <= s < |st'.segments|
      ensures st'.SegmentOk(s) && st'.Excess(s) == if s < |st.segments| then st.Excess(s) else 0 {
      if s < |st.segments| {
        assert st.SegmentOk(s);
        ExpandedCount(st, s);
      } else {
        CountLiveZero(st'.Slots(s));
      }
    }
  }

  lemma {:induction false} ExpandedCount(st: State, s: nat)
    requires st.Valid() && !ExpandAborts(st) && s < |st.segments| && st.SegmentOk(s)
    ensures Expanded(st).SegmentOk(s) && Expanded(st).Excess(s) == st.Excess(s)
  {
    var zeros := ZeroSlots(Pow2(st.logSlots));
    CountLiveZero(zeros);
    if st.logSlots + 1 <= LOG_SEGMENT_SIZE {
      CountLiveConcat(st.Slots(0), zeros);
      CountLiveZero(st.Slots(0));
      CountLiveZero(Expanded(st).Slots(0));
    }
  }

  /** The old slots keep their values and the new ones are empty. */
  lemma {:induction false} ExpandedSlots(st: State, idx: nat)
    requires st.Valid() && st.logSlots < LOG_SLOTS_MAX && !ExpandAborts(st) && idx < 2 * Pow2(st.logSlots)
    requires Expanded(st).Valid()
    ensures SegmentOf(Expanded(st), idx) < |Expanded(st).segments|
    ensures idx < Pow2(st.logSlots) ==> SegmentOf(st, idx) < |st.segments|
    ensures SlotAt(Expanded(st), idx) == if idx < Pow2(st.logSlots) then SlotAt(st, idx) else EMPTY
  {
    var st' := Expanded(st);
    IndexInside(st, idx);
    IndexInside(st', idx);
    assert Pow2(st'.logSlots) == 2 * Pow2(st.logSlots);
    if st'.logSlots <= LOG_SEGMENT_SIZE {
      WholeSegment(st', idx);
      assert st.SegmentOk(0);
      if idx < Pow2(st.logSlots) { WholeSegment(st, idx); }
    }
  }

  /** In a single-segment domain an index is its own local index. */
  lemma {:induction false} WholeSegment(st: State, idx: nat)
    requires st.logSlots <= LOG_SEGMENT_SIZE && idx < Pow2(st.logSlots)
    ensures SegmentOf(st, idx) == 0 && LocalOf(st, idx) == idx
  {
    QuotientBound(idx, 1, st.Size());
  }

  lemma {:induction false} ShrunkValid(st: State)
    requires st.Valid() && st.logSlots >= 1 && st.SegmentOk(0) && ShrunkOnce(st).Ok?
    ensures ShrunkOnce(st).value.Valid() && ShrunkOnce(st).value.logSlots == st.logSlots - 1
    ensures |ShrunkOnce(st).value.segments| <= |st.segments|
    ensures st.Exact() ==> ShrunkOnce(st).value.Exact()
  {
    if st.logSlots <= LOG_SEGMENT_SIZE {
      ShrunkSingle(st);
    } else {
      ShrunkMany(st);
    }
    hide ShrunkOnce;
  }

  lemma {:induction false} ShrunkSingle(st: State)
    requires st.Valid() && 1 <= st.logSlots <= LOG_SEGMENT_SIZE && st.SegmentOk(0) && ShrunkOnce(st).Ok?
    ensures ShrunkOnce(st).value.Valid() && ShrunkOnce(st).value.Exact()
    ensures |ShrunkOnce(st).value.segments| == |st.segments| && ShrunkOnce(st).value.logSlots == st.logSlots - 1
  {
    Pow2Doubles(st.logSlots - 1);
    hide Pow2;
    var st' := ShrunkOnce(st).value;
    CountLiveZero(st'.Slots(0));
    assert st'.SegmentOk(0);
  }

  lemma {:induction false} ShrunkMany(st: State)
    requires st.Valid() && st.logSlots > LOG_SEGMENT_SIZE && st.SegmentOk(0) && ShrunkOnce(st).Ok?
    ensures ShrunkOnce(st).value.Valid() && (st.Exact() ==> ShrunkOnce(st).value.Exact())
    ensures |ShrunkOnce(st).value.segments| <= |st.segments| && ShrunkOnce(st).value.logSlots == st.logSlots - 1
  {
    HalfTheSegments(st.logSlots);
    hide Pow2, NumSegments, LogSegment, CountLive, Blocked;
    var st' := ShrunkOnce(st).value;
    forall s | 0 <= s < |st'.segments| ensures st'.SegmentOk(s) && st'.Excess(s) == st.Excess(s) {
      assert st.SegmentOk(s);
    }
  }

  /** The slots that survive a rollback are the ones that were there. */
  lemma {:induction false} ShrunkSlots(st: State, idx: nat)
    requires st.Valid() && st.logSlots >= 1 && st.SegmentOk(0) && ShrunkOnce(st).Ok? && ShrunkOnce(st).value.Valid()
    requires ShrunkOnce(st).value.logSlots == st.logSlots - 1 && idx < Pow2(st.logSlots - 1)
    ensures SegmentOf(st, idx) < |st.segments| && SegmentOf(ShrunkOnce(st).value, idx) < |ShrunkOnce(st).value.segments|
    ensures SegmentOf(st, idx) in st.evicted <==> SegmentOf(ShrunkOnce(st).value, idx) in ShrunkOnce(st).value.evicted
    ensures SlotAt(ShrunkOnce(st).value, idx) == SlotAt(st, idx)
    ensures SegmentOf(st, idx) == SegmentOf(ShrunkOnce(st).value, idx)
    ensures SegmentOf(st, idx) > 0 ==> ShrunkOnce(st).value.live[SegmentOf(st, idx)] == st.live[SegmentOf(st, idx)]
  {
    var st' := ShrunkOnce(st).value;
    assert Pow2(st.logSlots) == 2 * Pow2(st.logSlots - 1);
    IndexInside(st, idx);
    IndexInside(st', idx);
    if st.logSlots <= LOG_SEGMENT_SIZE {
      WholeSegment(st, idx);
      WholeSegment(st', idx);
      if st.segments[0].Some? { CountLiveZero(st.segments[0].value[..Pow2(st.logSlots - 1)]); }
    }
  }

  /** Rolling back one level after expanding restores every slot, and every count that was exact:
      a single segment is counted afresh. */
  lemma {:induction false} ShrinkUndoesExpand(st: State)
    requires st.Valid() && st.logSlots < LOG_SLOTS_MAX
    requires !ExpandAborts(st)
    ensures Expanded(st).Valid() && Expanded(st).SegmentOk(0) && ShrunkOnce(Expanded(st)).Ok?
    ensures var back := ShrunkOnce(Expanded(st)).value;
            && back.logSlots == st.logSlots && back.evicted == st.evicted && |back.segments| == |st.segments|
            && (back.live == if st.logSlots < LOG_SEGMENT_SIZE then [CountLive(st.Slots(0))] else st.live)
            && forall s :: 0 <= s < |st.segments| ==> back.Slots(s) == st.Slots(s)
  {
    ExpandedValid(st);
    assert st.SegmentOk(0) && Expanded(st).SegmentOk(0);
    if st.logSlots + 1 <= LOG_SEGMENT_SIZE {
      UndoSingle(st);
    } else {
      UndoMany(st);
    }
    hide Expanded, ShrunkOnce, Pow2, NumSegments, LogSegment;
  }

  lemma {:induction false} UndoSingle(st: State)
    requires st.Valid() && st.logSlots + 1 <= LOG_SEGMENT_SIZE && 0 !in st.evicted && st.SegmentOk(0)
    requires Expanded(st).Valid() && Expanded(st).SegmentOk(0)
    ensures ShrunkOnce(Expanded(st)).Ok?
    ensures var back := ShrunkOnce(Expanded(st)).value;
            back.logSlots == st.logSlots && back.evicted == st.evicted && back.live == [CountLive(st.Slots(0))]
            && |back.segments| == |st.segments| && back.Slots(0) == st.Slots(0)
  {
    assert |st.segments| == 1;
    hide NumSegments;
    CountLiveZero(st.Slots(0));
    if st.segments[0].Some? {
      var columns, keep := st.segments[0].value, Pow2(st.logSlots);
      assert (columns + ZeroSlots(keep))[..keep] == columns;
      assert (columns + ZeroSlots(keep))[keep..] == ZeroSlots(keep);
    }
  }

  lemma {:induction false} UndoMany(st: State)
    requires st.Valid() && st.logSlots + 1 > LOG_SEGMENT_SIZE && st.SegmentOk(0)
    requires Expanded(st).Valid() && Expanded(st).SegmentOk(0)
    ensures ShrunkOnce(Expanded(st)) == Ok(st)
  {
    hide Pow2, NumSegments, LogSegment;
    var wide, n := Expanded(st), |st.segments|;
    BlockedNowhere(wide, n);
    assert wide.segments[..n] == st.segments && wide.live[..n] == st.live;
    assert (set s | s in wide.evicted && s < n) == st.evicted;
  }

  lemma {:induction false} BlockedNowhere(st: State, s: nat)
    requires |st.segments| == |st.live|
    ensures Blocked(st, s).None? <==> forall u :: s <= u < |st.segments| ==> u !in st.evicted && st.live[u] == 0
    decreases |st.segments| - s
  {
    if s < |st.segments| { BlockedNowhere(st, s + 1); }
  }

  /** `st` is a narrower domain in which every slot, eviction and upper count is as it was in `before`. */
  ghost predicate Narrows(before: State, st: State)
    requires before.Valid() && st.Valid()
  {
    && st.logSlots <= before.logSlots
    && forall idx: nat :: idx < Pow2(st.logSlots) ==> SameSlot(before, st, idx)
  }

  ghost predicate SameSlot(before: State, st: State, idx: nat)
    requires before.Valid() && st.Valid()
  {
    && SegmentOf(before, idx) == SegmentOf(st, idx) < |st.segments| <= |before.segments|
    && (SegmentOf(before, idx) in before.evicted <==> SegmentOf(st, idx) in st.evicted)
    && SlotAt(st, idx) == SlotAt(before, idx)
    && (SegmentOf(st, idx) > 0 ==> st.live[SegmentOf(st, idx)] == before.live[SegmentOf(st, idx)])
  }

  lemma {:induction false} NarrowsItself(st: State)
    requires st.Valid()
    ensures Narrows(st, st)
  {
    forall idx: nat | idx < Pow2(st.logSlots) ensures SameSlot(st, st, idx) {
      IndexInside(st, idx);
    }
  }

  lemma {:induction false} NarrowsFurther(before: State, st: State)
    requires before.Valid() && st.Valid() && Narrows(before, st)
    requires st.logSlots >= 1 && st.SegmentOk(0) && ShrunkOnce(st).Ok? && ShrunkOnce(st).value.Valid()
    requires ShrunkOnce(st).value.logSlots == st.logSlots - 1
    ensures Narrows(before, ShrunkOnce(st).value)
  {
    hide ShrunkOnce, Pow2, Quotient, Remainder, NumSegments, LogSegment;
    var st' := ShrunkOnce(st).value;
    Pow2Doubles(st.logSlots - 1);
    ShrunkValid(st);
    forall idx: nat | idx < Pow2(st'.logSlots) ensures SameSlot(before, st', idx) {
      assert SameSlot(before, st, idx);
      ShrunkSlots(st, idx);
    }
  }

  // ------------------------------------------------------------ when it succeeds

  /** Nothing from slot `from` on is evicted, live, or counted live in a segment of its own. */
  ghost predicate ClearFrom(st: State, from: nat)
    requires st.Valid()
  {
    forall idx: nat :: from <= idx < Pow2(st.logSlots) ==> ClearAt(st, idx)
  }

  ghost predicate ClearAt(st: State, idx: nat)
    requires st.Valid()
  {
    && SegmentOf(st, idx) < |st.segments|
    && SegmentOf(st, idx) !in st.evicted
    && SlotAt(st, idx) == EMPTY
    && (SegmentOf(st, idx) > 0 ==> st.live[SegmentOf(st, idx)] == 0)
  }

  lemma {:induction false} SingleSegmentClear(st: State)
    requires st.Valid() && 1 <= st.logSlots <= LOG_SEGMENT_SIZE && st.SegmentOk(0)
    ensures ShrunkOnce(st).Ok? <==> ClearFrom(st, Pow2(st.logSlots - 1))
  {
    var keep := Pow2(st.logSlots - 1);
    Pow2Doubles(st.logSlots - 1);
    hide Quotient, Remainder;
    var slots := st.Slots(0);
    assert |slots| == 2 * keep;
    if ShrunkOnce(st).Ok? {
      assert slots[keep..] == ZeroSlots(keep);
      forall idx: nat | keep <= idx < Pow2(st.logSlots) ensures ClearAt(st, idx) {
        WholeSegment(st, idx);
        assert slots[idx] == slots[keep..][idx - keep];
      }
    }
    if ClearFrom(st, keep) {
      WholeSegment(st, keep);
      assert ClearAt(st, keep);
      forall i | 0 <= i < keep ensures slots[keep..][i] == EMPTY {
        WholeSegment(st, keep + i);
        assert ClearAt(st, keep + i);
      }
      assert slots[keep..] == ZeroSlots(keep);
    }
  }

  lemma {:induction false} SlotOfSegment(st: State, s: nat, loc: nat)
    requires st.Valid() && s < |st.segments| && loc < st.Size()
    ensures SegmentOf(st, Times(s, st.Size()) + loc) == s && LocalOf(st, Times(s, st.Size()) + loc) == loc
    ensures Times(s, st.Size()) + loc < Pow2(st.logSlots)
  {
    SameQuotient(s * st.Size() + loc, st.Size(), s);
    IndexInside(st, s * st.Size() + loc);
  }

  lemma {:induction false} UpperSegments(st: State, idx: nat)
    requires st.Valid() && st.logSlots > LOG_SEGMENT_SIZE
    ensures |st.segments| % 2 == 0
    ensures Pow2(st.logSlots - 1) <= idx < Pow2(st.logSlots)
            <==> |st.segments| / 2 <= SegmentOf(st, idx) < |st.segments|
  {
    hide Pow2, Quotient, NumSegments, LogSegment;
    var n := NumSegments(st.logSlots - 1);
    HalfTheSegments(st.logSlots);
    SegmentsCoverSlots(st.logSlots - 1);
    QuotientBound(idx, n, st.Size());
    IndexInside(st, idx);
  }

  lemma {:induction false} HalfTheSegments(logSlots: nat)
    requires logSlots > LOG_SEGMENT_SIZE
    ensures NumSegments(logSlots) == 2 * NumSegments(logSlots - 1) && LogSegment(logSlots) == LogSegment(logSlots - 1)
  {
    if logSlots - 1 > LOG_SEGMENT_SIZE { Pow2Doubles(logSlots - 1 - LOG_SEGMENT_SIZE); }
  }

  lemma {:induction false} EmptySegment(st: State, s: nat, loc: nat)
    requires st.Valid() && s < |st.segments| && st.live[s] == 0 && loc < st.Size()
    ensures st.Slots(s)[loc] == EMPTY
  {
    hide Pow2, LogSegment, NumSegments;
    assert st.SegmentOk(s);
    CountLiveZero(st.Slots(s));
  }

  lemma {:induction false} ManySegmentsClear(st: State)
    requires st.Valid() && st.logSlots > LOG_SEGMENT_SIZE && st.SegmentOk(0)
    ensures ShrunkOnce(st).Ok? <==> ClearFrom(st, Pow2(st.logSlots - 1))
  {
    var n := |st.segments| / 2;
    BlockedNowhere(st, n);
    hide Pow2, Quotient, Remainder, Blocked;
    if ShrunkOnce(st).Ok? {
      forall idx: nat | Pow2(st.logSlots - 1) <= idx < Pow2(st.logSlots) ensures ClearAt(st, idx) {
        UpperSegments(st, idx);
        EmptySegment(st, SegmentOf(st, idx), LocalOf(st, idx));
      }
    }
    if ClearFrom(st, Pow2(st.logSlots - 1)) {
      forall u | n <= u < |st.segments| ensures u !in st.evicted && st.live[u] == 0 {
        ClearSegment(st, u);
      }
    }
  }

  lemma {:induction false} ClearSegment(st: State, u: nat)
    requires st.Valid() && st.logSlots > LOG_SEGMENT_SIZE && |st.segments| / 2 <= u < |st.segments|
    requires ClearFrom(st, Pow2(st.logSlots - 1))
    ensures u !in st.evicted && st.live[u] == 0
  {
    HalfTheSegments(st.logSlots);
    hide Pow2, Quotient, Remainder, NumSegments;
    SlotOfSegment(st, u, 0);
    UpperSegments(st, Times(u, st.Size()) + 0);
    assert ClearAt(st, Times(u, st.Size()) + 0);
  }

  /** One halving is accepted exactly when the upper half holds nothing. */
  lemma {:induction false} ShrinksWhenClear(st: State)
    requires st.Valid() && st.logSlots >= 1 && st.SegmentOk(0)
    ensures ShrunkOnce(st).Ok? <==> ClearFrom(st, Pow2(st.logSlots - 1))
  {
    hide ShrunkOnce, ClearFrom;
    if st.logSlots <= LOG_SEGMENT_SIZE {
      SingleSegmentClear(st);
    } else {
      ManySegmentsClear(st);
    }
  }

  /** Once everything beyond the narrower domain was clear, it has the same clear slots as before. */
  lemma {:induction false} NarrowsClear(before: State, st: State, from: nat)
    requires before.Valid() && st.Valid() && Narrows(before, st) && from <= Pow2(st.logSlots)
    requires ClearFrom(before, Pow2(st.logSlots))
    ensures ClearFrom(before, from) <==> ClearFrom(st, from)
  {
    hide Pow2, SlotAt, SegmentOf;
    Pow2Monotone(st.logSlots, before.logSlots);
    forall idx: nat | idx < Pow2(st.logSlots) ensures ClearAt(before, idx) <==> ClearAt(st, idx) {
      assert SameSlot(before, st, idx);
    }
    if ClearFrom(st, from) {
      forall idx: nat | from <= idx < Pow2(before.logSlots) ensures ClearAt(before, idx) {
      }
    }
  }

  lemma {:induction false} ClearWider(st: State, low: nat, high: nat)
    requires st.Valid() && low <= high
    ensures ClearFrom(st, low) ==> ClearFrom(st, high)
  {
    hide Pow2, Quotient, Remainder;
  }

  lemma {:induction false} ClearToTheEnd(st: State)
    requires st.Valid()
    ensures ClearFrom(st, Pow2(st.logSlots))
  {
    hide Pow2, Quotient, Remainder;
  }

  // -------------------------------------------------------------- segment by segment

  function Dirtied(st: State, dirty: set<nat>): set<nat>
    requires st.logSlots >= 1 && |st.segments| == |st.live| >= 1
    requires st.segments[0].Some? ==> |st.segments[0].value| == st.Size()
  {
    if st.logSlots <= LOG_SEGMENT_SIZE then dirty + {0} else set s | s in dirty && s < |st.segments| / 2
  }

  /** Down to one full segment the lower segments stay as they are; below that the only one is marked. */
  ghost predicate Prefixed(before: State, st: State, dirty: set<nat>, dirty': set<nat>) {
    && |st.segments| <= |before.segments|
    && (st.logSlots >= LOG_SEGMENT_SIZE || st.logSlots == before.logSlots ==>
          && st.segments == before.segments[..|st.segments|]
          && (forall s :: 0 <= s < |st.segments| ==>
                (s in st.evicted <==> s in before.evicted) && (s in dirty <==> s in dirty')))
    && (st.logSlots < LOG_SEGMENT_SIZE && st.logSlots != before.logSlots ==>
          0 in dirty' && 0 !in st.evicted && |st.segments| == 1)
  }

  lemma {:induction false} PrefixedItself(st: State, dirty: set<nat>)
    ensures Prefixed(st, st, dirty, dirty)
  {
  }

  lemma {:induction false} PrefixedOnce(before: State, st: State, dirty: set<nat>, marked: set<nat>)
    requires before.Valid() && st.Valid() && st.logSlots >= 1 && st.SegmentOk(0) && st.logSlots <= before.logSlots
    requires Prefixed(before, st, dirty, marked) && ShrunkOnce(st).Ok?
    ensures Prefixed(before, ShrunkOnce(st).value, dirty, Dirtied(st, marked))
  {
    hide Pow2, CountLive, Blocked;
  }
}
