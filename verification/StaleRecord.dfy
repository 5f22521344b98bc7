/** A rollback that is not refreshed before the domain grows again: the root recorded for a dropped segment
    comes back into the domain, unmarked, and the next refresh returns the root of slots that are gone.
 */
module StaleRecord {
  import opened Powers
  import opened ExactStateHash
  import opened SegmentCache
  import opened SegmentedState
  import opened SegmentedResize
  import opened StateRoots
  import opened StateContents
  import opened StateUpdates
  import opened StateTransition
  import opened ChainState

  const WIDE: nat := LOG_SEGMENT_SIZE + 1

  /** The slots of two segments that are empty but for the first slot of the second. */
  function OneUpperSlot(value: SlotValue): seq<SlotValue> {
    Pow2StrictlyMonotone(LOG_SEGMENT_SIZE, WIDE);
    ZeroSlots(Pow2(WIDE))[Pow2(LOG_SEGMENT_SIZE) := value]
  }

  /** Two resident segments that hold only that slot, counted exactly. */
  ghost predicate Holds(st: State, store: Store, value: SlotValue) {
    && st.Valid() && st.logSlots == WIDE && st.evicted == {} && st.Exact()
    && Flat(Contents(st, store)) == OneUpperSlot(value)
  }

  lemma {:induction false} WrittenHolds(before: State, st: State, store: Store, previous: SlotValue, value: SlotValue)
    requires Holds(before, store, previous) && st.Valid() && st.evicted <= before.evicted
    requires Applied(before, [(Pow2(LOG_SEGMENT_SIZE), value)], st)
    ensures Holds(st, store, value)
  {
    hide Pow2, Flat, Contents, CountLive;
    var deltas := [(Pow2(LOG_SEGMENT_SIZE), value)];
    Pow2StrictlyMonotone(LOG_SEGMENT_SIZE, WIDE);
    forall idx: nat | idx < Pow2(WIDE)
      ensures |Flat(Contents(st, store))| == Pow2(WIDE) && Flat(Contents(st, store))[idx] == OneUpperSlot(value)[idx] {
      SlotAfter(before, st, store, deltas, idx);
      OneWrite(OneUpperSlot(previous)[idx], deltas[0], idx);
    }
    SlotIs(st, store, 0);
  }

  lemma {:induction false} OneWrite(slot: SlotValue, write: (nat, SlotValue), idx: nat)
    ensures LastWrite(slot, [write], idx) == if write.0 == idx then write.1 else slot
  {
    assert [write][..0] == [] && [write][1..] == [];
  }

  lemma {:induction false} EmptyIsClear(st: State, store: Store)
    requires Holds(st, store, EMPTY)
    ensures ClearFrom(st, Pow2(LOG_SEGMENT_SIZE))
  {
    hide Pow2, Flat, Contents, CountLive, Quotient, Remainder, NumSegments;
    forall idx: nat | Pow2(LOG_SEGMENT_SIZE) <= idx < Pow2(st.logSlots) ensures ClearAt(st, idx) {
      SlotIs(st, store, idx);
      EmptySegment(st, store, SegmentOf(st, idx));
    }
  }

  lemma {:induction false} EmptySegment(st: State, store: Store, s: nat)
    requires Holds(st, store, EMPTY) && s < |st.segments|
    ensures st.live[s] == 0
  {
    hide Pow2, Flat, Contents, CountLive, Quotient, Remainder, NumSegments;
    var slots := st.Slots(s);
    forall loc: nat | loc < |slots| ensures slots[loc] == EMPTY {
      SlotOfSegment(st, s, loc);
      SlotIs(st, store, Times(s, st.Size()) + loc);
    }
    assert slots == ZeroSlots(|slots|);
    CountLiveZero(slots);
    assert st.Excess(s) == 0;
  }

  /** The slot names the second segment only. */
  lemma {:induction false} MarksSecond(st: State, value: SlotValue, dirty: set<nat>)
    requires st.logSlots == WIDE && MarksOnly(st, [(Pow2(LOG_SEGMENT_SIZE), value)], {}, dirty)
    ensures dirty <= {1}
  {
    hide Pow2, Quotient;
    SameQuotient(Pow2(LOG_SEGMENT_SIZE), Pow2(LOG_SEGMENT_SIZE), 1);
  }

  /** If the second segment's root were recorded as empty, so would be the whole. */
  lemma {:induction false} SecondIsStale(h: Hasher, st: State, store: Store, roots: seq<StateHash>, value: SlotValue)
    requires Holds(st, store, value) && Sealed(h, st, store, {}, roots) && |roots| == NumSegments(WIDE)
    requires |OneUpperSlot(value)| == Pow2(WIDE) && SlotsRoot(h, WIDE, OneUpperSlot(value)) != ZeroRoot(h, WIDE)
    ensures |roots| == 2 && UpperDepth(WIDE) == 1 && MerkleRoot(h, 1, roots) == SlotsRoot(h, WIDE, OneUpperSlot(value))
    ensures roots[1] != ZeroRoot(h, LOG_SEGMENT_SIZE)
  {
    SegmentIds(st);
    TwoSegments();
    hide Pow2, Flat, Contents, MerkleRoot, SlotsRoot, ZeroRoot, Content, NumSegments, CountLive;
    SealedRoot(h, st, store, roots);
    FirstIsEmpty(h, st, store, value);
    EmptyPair(h, roots);
  }

  lemma {:induction false} EmptyPair(h: Hasher, roots: seq<StateHash>)
    requires |roots| == 2 == Pow2(1) && roots[0] == ZeroRoot(h, LOG_SEGMENT_SIZE)
    ensures roots[1] == ZeroRoot(h, LOG_SEGMENT_SIZE) ==> MerkleRoot(h, 1, roots) == ZeroRoot(h, WIDE)
  {
    hide MerkleRoot, ZeroRoot, Pow2;
    if roots[1] == roots[0] { ZeroSegmentsRoot(h, 1, LOG_SEGMENT_SIZE, roots); }
  }

  lemma {:induction false} TwoSegments()
    ensures NumSegments(WIDE) == 2 == Pow2(1) && UpperDepth(WIDE) == 1 && LogSegment(WIDE) == LOG_SEGMENT_SIZE
  {
  }

  lemma {:induction false} FirstIsEmpty(h: Hasher, st: State, store: Store, value: SlotValue)
    requires Holds(st, store, value) && |st.segments| == 2
    ensures SlotsRoot(h, LOG_SEGMENT_SIZE, Content(st, store, 0)) == ZeroRoot(h, LOG_SEGMENT_SIZE)
  {
    hide Pow2, Flat, Contents, MerkleRoot, ZeroRoot, NumSegments, CountLive, Quotient, Remainder, Content;
    var slots := Content(st, store, 0);
    forall loc: nat | loc < |slots| ensures slots[loc] == EMPTY {
      SlotOfSegment(st, 0, loc);
      SlotIs(st, store, Times(0, st.Size()) + loc);
    }
    EmptySlotsRoot(h, LOG_SEGMENT_SIZE, slots);
  }

  /** A chain that holds one slot of its second segment and is refreshed. */
  method WriteUpper(h: Hasher, fill: StateHash, budget: nat, value: SlotValue, capacities: Capacities, columnBytes: nat)
    returns (chain: ChainState)
    requires capacities.nodes >= 2 * Pow2(LOG_SEGMENT_SIZE) && capacities.zeros >= LOG_SEGMENT_SIZE + 1
    ensures fresh(chain) && fresh(chain.state) && fresh(chain.state.cache) && fresh(chain.roots) && chain.h == h
    ensures chain.Valid() && chain.Current() && Holds(chain.state.Now(), chain.store, value)
  {
    hide Pow2, Flat, Contents, SlotsRoot, ZeroRoot, NumSegments, CountLive, Sealed, PlainRoot, GrownRoots, State.Valid,
         Applied, Holds;
    TwoSegments();
    Pow2StrictlyMonotone(LOG_SEGMENT_SIZE, WIDE);
    chain := new ChainState(h, fill, WIDE, budget);
    ghost var st := chain.state.Now();
    FreshHolds(st, chain.store);
    var result := chain.ApplyDelta([(Pow2(LOG_SEGMENT_SIZE), value)]);
    WrittenHolds(st, chain.state.Now(), chain.store, EMPTY, value);
    var root := chain.TryStateRoot(capacities, columnBytes);
  }

  /** Empty that slot and roll back to one segment: nothing is left marked, and the record is not touched. */
  method EmptyAndShrink(chain: ChainState, ghost value: SlotValue)
    requires chain.Valid() && chain.Current() && Holds(chain.state.Now(), chain.store, value)
    modifies chain.state, chain.state.cache
    ensures chain.Valid() && chain.state.logSlots == LOG_SEGMENT_SIZE && chain.state.exactDirty == {}
    ensures chain.state.evicted == {}
    ensures Flat(Contents(chain.state.Now(), chain.store)) == ZeroSlots(Pow2(LOG_SEGMENT_SIZE))
  {
    hide Pow2, Flat, Contents, NumSegments, CountLive, Sealed, PlainRoot, GrownRoots, State.Valid, Applied, Holds,
         MarksOnly;
    ghost var st := chain.state.Now();
    Pow2StrictlyMonotone(LOG_SEGMENT_SIZE, WIDE);
    HoldsShape(st, chain.store, value);
    var result := chain.ApplyDelta([(Pow2(LOG_SEGMENT_SIZE), EMPTY)]);
    WrittenHolds(st, chain.state.Now(), chain.store, value, EMPTY);
    EmptyIsClear(chain.state.Now(), chain.store);
    MarksSecond(st, EMPTY, chain.state.exactDirty);
    ghost var wide, dirty := chain.state.Now(), chain.state.exactDirty;
    var completed, shrunk := chain.ShrinkState(LOG_SEGMENT_SIZE);
    OneSegmentLeft(wide, chain.state.Now(), chain.store, dirty, chain.state.exactDirty);
  }

  lemma {:induction false} OneSegmentLeft(wide: State, st: State, store: Store, dirty: set<nat>, dirty': set<nat>)
    requires Holds(wide, store, EMPTY) && st.Valid() && st.logSlots == LOG_SEGMENT_SIZE && Stored(st, store)
    requires dirty <= {1}
    requires Prefixed(wide, st, dirty, dirty') && forall s :: s in dirty' ==> s < |st.segments|
    ensures dirty' == {} && st.evicted == {}
    ensures |Flat(Contents(wide, store))| >= Pow2(LOG_SEGMENT_SIZE)
    ensures Flat(Contents(wide, store))[..Pow2(LOG_SEGMENT_SIZE)] == ZeroSlots(Pow2(LOG_SEGMENT_SIZE))
  {
    OneSegment();
    hide Pow2, Flat, Contents, CountLive;
    Pow2StrictlyMonotone(LOG_SEGMENT_SIZE, WIDE);
  }

  lemma {:induction false} OneSegment()
    ensures NumSegments(LOG_SEGMENT_SIZE) == 1
  {
  }

  lemma {:induction false} HoldsShape(st: State, store: Store, value: SlotValue)
    requires Holds(st, store, value)
    ensures st.logSlots == WIDE && st.evicted == {}
  {
  }

  /** Grow again: the dropped segment's root is back in the domain, and nothing is marked. */
  method GrowAgain(chain: ChainState) returns (completed: bool)
    requires chain.Valid() && chain.state.logSlots == LOG_SEGMENT_SIZE && chain.state.exactDirty == {}
    requires chain.state.evicted == {}
    requires chain.roots.logSlots == WIDE && |chain.roots.segmentRoots| == 2
    requires chain.roots.segmentRoots[1] != ZeroRoot(chain.h, LOG_SEGMENT_SIZE)
    requires Flat(Contents(chain.state.Now(), chain.store)) == ZeroSlots(Pow2(LOG_SEGMENT_SIZE))
    modifies chain.state, chain.state.cache, chain.roots, chain`utxoRoot
    ensures completed && !chain.Valid() && chain.state.Valid() && Stored(chain.state.Now(), chain.store)
    ensures chain.state.exactDirty == {}
    ensures chain.state.logSlots == WIDE && Flat(Contents(chain.state.Now(), chain.store)) == ZeroSlots(Pow2(WIDE))
    ensures chain.roots.Valid() && chain.roots.logSlots == WIDE + 1
    ensures old(chain.roots.segmentRoots) <= chain.roots.segmentRoots
  {
    hide Pow2, Flat, Contents, ZeroRoot, CountLive, Sealed, PlainRoot, GrownRoots, State.Valid, NumSegments;
    SegmentIds(chain.state.Now());
    OneSegment();
    ExpandedSupply(chain.state.Now(), chain.store);
    Pow2Doubles(LOG_SEGMENT_SIZE);
    assert ZeroSlots(Pow2(LOG_SEGMENT_SIZE)) + ZeroSlots(Pow2(LOG_SEGMENT_SIZE)) == ZeroSlots(Pow2(WIDE));
    completed := chain.ExpandOne();
  }

  lemma {:induction false} EmptyDomain(h: Hasher, st: State, store: Store)
    requires st.Valid() && Stored(st, store) && Flat(Contents(st, store)) == ZeroSlots(Pow2(st.logSlots))
    ensures PlainRoot(h, st, store) == ZeroRoot(h, st.logSlots)
  {
    hide Pow2, Flat, Contents, ZeroRoot, MerkleRoot;
    EmptySlotsRoot(h, st.logSlots, ZeroSlots(Pow2(st.logSlots)));
  }

  /** Write a slot of the second segment and refresh, empty it, roll back to one segment and grow again. The
      chain is then empty and nothing is marked, but its record is wrong, and refreshing it gives back the
      root from when the slot was written. */
  method RollBackAndGrow(h: Hasher, fill: StateHash, budget: nat, value: SlotValue, capacities: Capacities,
                         columnBytes: nat)
    returns (chain: ChainState, completed: bool, refreshed: StateHash)
    requires capacities.nodes >= 2 * Pow2(LOG_SEGMENT_SIZE) && capacities.zeros >= LOG_SEGMENT_SIZE + 1
    requires |OneUpperSlot(value)| == Pow2(WIDE) && SlotsRoot(h, WIDE, OneUpperSlot(value)) != ZeroRoot(h, WIDE)
    ensures completed && fresh(chain) && chain.h == h && chain.state.Valid() && Stored(chain.state.Now(), chain.store)
    ensures chain.state.logSlots == WIDE && Flat(Contents(chain.state.Now(), chain.store)) == ZeroSlots(Pow2(WIDE))
    ensures chain.state.exactDirty == {}
    ensures refreshed == SlotsRoot(h, WIDE, OneUpperSlot(value)) != PlainRoot(h, chain.state.Now(), chain.store)
  {
    hide Pow2, Flat, Contents, MerkleRoot, SlotsRoot, ZeroRoot, Content, NumSegments, CountLive, Sealed, PlainRoot,
         GrownRoots, State.Valid, Holds;
    TwoSegments();
    chain := WriteUpper(h, fill, budget, value, capacities, columnBytes);
    ghost var recorded := chain.roots.segmentRoots;
    HoldsShape(chain.state.Now(), chain.store, value);
    GrownAlready(h, WIDE, recorded, WIDE);
    SecondIsStale(h, chain.state.Now(), chain.store, recorded, value);
    EmptyAndShrink(chain, value);
    completed := GrowAgain(chain);
    EmptyDomain(h, chain.state.Now(), chain.store);
    chain.roots.ShrinkTo(WIDE);
    assert chain.roots.segmentRoots == recorded;
    refreshed := chain.roots.Root();
  }

  lemma {:induction false} FreshHolds(st: State, store: Store)
    requires st.Valid() && Stored(st, store) && st.logSlots == WIDE && st.evicted == {} && st.Exact()
    requires Flat(Contents(st, store)) == ZeroSlots(Pow2(WIDE))
    ensures Holds(st, store, EMPTY)
  {
    hide Pow2, Flat, Contents, CountLive;
    Pow2StrictlyMonotone(LOG_SEGMENT_SIZE, WIDE);
    assert OneUpperSlot(EMPTY) == ZeroSlots(Pow2(WIDE));
  }
}
