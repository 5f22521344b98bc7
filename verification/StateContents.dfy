/** The slots of the whole domain, resident or evicted, and when a list of segment roots commits to them. */
module StateContents {
  import opened Wrappers
  import opened Powers
  import opened ExactStateHash
  import opened SegmentCache
  import opened SegmentedState
  import opened SegmentedResize
  import opened StateRoots

  // ----------------------------------------------------------------------- contents

  /** What durable storage holds of the evicted segments. */
  type Store = map<nat, seq<SlotValue>>

  ghost predicate Stored(st: State, store: Store) {
    forall s :: s in st.evicted ==> s in store && |store[s]| == st.Size()
  }

  ghost function Content(st: State, store: Store, s: nat): (slots: seq<SlotValue>)
    requires st.Valid() && Stored(st, store) && s < |st.segments|
    ensures |slots| == st.Size()
  {
    if s in st.evicted then store[s] else st.Slots(s)
  }

  /** Every segment, wherever its columns are. */
  ghost function Contents(st: State, store: Store): (parts: seq<seq<SlotValue>>)
    requires st.Valid() && Stored(st, store)
    ensures |parts| == |st.segments| && Sized(parts, st.Size())
    ensures forall s :: 0 <= s < |parts| ==> parts[s] == Content(st, store, s)
  {
    seq(|st.segments|, s requires 0 <= s < |st.segments| => Content(st, store, s))
  }

  /** The plain Merkle root of the whole domain. */
  ghost function PlainRoot(h: Hasher, st: State, store: Store): StateHash
    requires st.Valid() && Stored(st, store)
  {
    DomainSize(st.logSlots, Contents(st, store));
    SlotsRoot(h, st.logSlots, Flat(Contents(st, store)))
  }

  /** Every segment outside `dirty` has its root on record. */
  ghost predicate Sealed(h: Hasher, st: State, store: Store, dirty: set<nat>, roots: seq<StateHash>)
    requires st.Valid() && Stored(st, store)
  {
    forall s :: 0 <= s < |st.segments| && s !in dirty ==>
      s < |roots| && roots[s] == SlotsRoot(h, LogSegment(st.logSlots), Content(st, store, s))
  }

  lemma {:induction false} SealedRoot(h: Hasher, st: State, store: Store, roots: seq<StateHash>)
    requires st.Valid() && Stored(st, store) && Sealed(h, st, store, {}, roots) && |roots| == |st.segments|
    ensures |roots| == Pow2(UpperDepth(st.logSlots))
    ensures MerkleRoot(h, UpperDepth(st.logSlots), roots) == PlainRoot(h, st, store)
  {
    hide SlotsRoot, MerkleRoot, Pow2, NumSegments, LogSegment;
    SegmentCount(st.logSlots);
    var parts := Contents(st, store);
    RootOfRoots(h, UpperDepth(st.logSlots), LogSegment(st.logSlots), parts);
    assert roots == Roots(h, LogSegment(st.logSlots), parts);
  }

  /** A segment outside `changed` keeps its content. */
  lemma {:induction false} SameContent(before: State, st: State, store: Store, changed: set<nat>, s: nat)
    requires before.Valid() && st.Valid() && Stored(before, store) && SameExcept(before, st, changed)
    requires s < |st.segments| && s !in changed
    requires Stored(st, store)
    ensures Content(st, store, s) == Content(before, store, s)
  {
    hide Pow2, NumSegments, LogSegment;
  }

  lemma {:induction false} StillSealed(h: Hasher, before: State, st: State, store: Store, dirty: set<nat>,
                                       dirty': set<nat>, roots: seq<StateHash>)
    requires before.Valid() && st.Valid() && Stored(before, store) && Stored(st, store)
    requires Sealed(h, before, store, dirty, roots) && dirty <= dirty' && SameExcept(before, st, dirty')
    ensures Sealed(h, st, store, dirty', roots)
  {
    hide SlotsRoot, Content;
    forall s | 0 <= s < |st.segments| && s !in dirty' ensures Content(st, store, s) == Content(before, store, s) {
      SameContent(before, st, store, dirty', s);
    }
  }

  /** The recorded roots may be behind the domain, or after a rollback ahead of it, until the next refresh.
      If either is below one full segment, that segment is marked. */
  ghost predicate InLine(st: State, dirty: set<nat>, logRoots: nat) {
    logRoots == st.logSlots || (logRoots >= LOG_SEGMENT_SIZE && st.logSlots >= LOG_SEGMENT_SIZE) || 0 in dirty
  }

  lemma {:induction false} SegmentIds(st: State)
    requires st.Valid()
    ensures |st.live| == |st.segments| == NumSegments(st.logSlots) <= 0x1_0000
  {
  }

  lemma {:induction false} StillStored(before: State, st: State, store: Store, changed: set<nat>)
    requires Stored(before, store) && SameExcept(before, st, changed) && st.evicted <= before.evicted
    ensures Stored(st, store)
  {
  }

  lemma {:induction false} EvictedContents(before: State, st: State, store: Store, store': Store, seg: nat)
    requires before.Valid() && st.Valid() && Stored(before, store) && seg < |st.segments| == |before.segments|
    requires st.logSlots == before.logSlots
    requires before.segments[seg].Some? ==>
               && st.segments[seg].None? && st.evicted == before.evicted + {seg}
               && store' == store[seg := before.segments[seg].value]
    requires before.segments[seg].None? ==> st == before && store' == store
    requires forall s :: 0 <= s < |st.segments| && s != seg ==> st.segments[s] == before.segments[s]
    ensures Stored(st, store') && Contents(st, store') == Contents(before, store)
  {
    hide Pow2, NumSegments, LogSegment;
    assert before.SegmentOk(seg);
  }

  lemma {:induction false} SealOne(h: Hasher, st: State, store: Store, dirty: set<nat>, roots: seq<StateHash>, seg: nat,
                                   root: StateHash)
    requires st.Valid() && Stored(st, store) && Sealed(h, st, store, dirty, roots) && seg < |st.segments| == |roots|
    requires seg !in st.evicted
    requires |st.Slots(seg)| == st.Size() && root == SlotsRoot(h, LogSegment(st.logSlots), st.Slots(seg))
    ensures Sealed(h, st, store, dirty - {seg}, roots[seg := root]) && Sealed(h, st, store, dirty, roots[seg := root])
  {
    hide SlotsRoot, Pow2, NumSegments, LogSegment;
  }

  /** Dropping upper roots leaves those of the narrower domain on record. */
  lemma {:induction false} ShrinkSealed(h: Hasher, st: State, store: Store, dirty: set<nat>, logRoots: nat,
                                        roots: seq<StateHash>, roots': seq<StateHash>)
    requires st.Valid() && Stored(st, store) && Sealed(h, st, store, dirty, roots) && InLine(st, dirty, logRoots)
    requires logRoots > st.logSlots
    requires |roots'| == |st.segments|
    requires (st.logSlots >= LOG_SEGMENT_SIZE ==> |roots'| <= |roots| && roots' == roots[..|roots'|])
    ensures Sealed(h, st, store, dirty, roots')
  {
    hide SlotsRoot, Pow2, LogSegment;
  }

  lemma {:induction false} FreshSegment(h: Hasher, st: State, s: nat)
    requires st.Valid() && st.evicted == {} && s < |st.segments|
    requires st.Slots(s) == ZeroSlots(Pow2(LogSegment(st.logSlots)))
    ensures SlotsRoot(h, LogSegment(st.logSlots), Content(st, map[], s)) == ZeroRoot(h, LogSegment(st.logSlots))
  {
    hide ZeroRoot, MerkleRoot;
    EmptySlotsRoot(h, LogSegment(st.logSlots), st.Slots(s));
  }

  lemma {:induction false} FreshSealed(h: Hasher, st: State, roots: seq<StateHash>)
    requires st.Valid() && st.evicted == {}
    requires forall s :: 0 <= s < |st.segments| ==> st.Slots(s) == ZeroSlots(Pow2(LogSegment(st.logSlots)))
    requires roots == ZeroSegments(h, LogSegment(st.logSlots), NumSegments(st.logSlots))
    ensures Sealed(h, st, map[], {}, roots) && PlainRoot(h, st, map[]) == ZeroRoot(h, st.logSlots)
  {
    hide SlotsRoot, MerkleRoot, Pow2, NumSegments, LogSegment, ZeroRoot, Content, PlainRoot;
    SegmentCount(st.logSlots);
    forall s | 0 <= s < |st.segments| ensures roots[s] == SlotsRoot(h, LogSegment(st.logSlots), Content(st, map[], s)) {
      FreshSegment(h, st, s);
    }
    SealedRoot(h, st, map[], roots);
    ZeroSegmentsRoot(h, UpperDepth(st.logSlots), LogSegment(st.logSlots), roots);
  }

  lemma {:induction false} NarrowedSealed(h: Hasher, before: State, st: State, store: Store, dirty: set<nat>,
                                          dirty': set<nat>,
                                          logRoots: nat, roots: seq<StateHash>)
    requires before.Valid() && st.Valid() && Stored(before, store) && |roots| == NumSegments(logRoots)
    requires Sealed(h, before, store, dirty, GrownRoots(h, logRoots, roots, before.logSlots))
    requires InLine(before, dirty, logRoots)
    requires st.logSlots <= before.logSlots && Prefixed(before, st, dirty, dirty')
    ensures Stored(st, store) && Sealed(h, st, store, dirty', GrownRoots(h, logRoots, roots, st.logSlots))
    ensures InLine(st, dirty', logRoots)
  {
    hide SlotsRoot, Pow2, CountLive, NumSegments, GrownRoots;
    if st.logSlots >= LOG_SEGMENT_SIZE || st.logSlots == before.logSlots {
      assert LogSegment(st.logSlots) == LogSegment(before.logSlots);
      forall s | 0 <= s < |st.segments| && s !in dirty'
        ensures s < |GrownRoots(h, logRoots, roots, st.logSlots)|
        ensures GrownRoots(h, logRoots, roots, st.logSlots)[s]
             == SlotsRoot(h, LogSegment(st.logSlots), Content(st, store, s)) {
        GrownCommon(h, logRoots, roots, st.logSlots, before.logSlots, s);
      }
    }
  }

  lemma {:induction false} SealedMore(h: Hasher, st: State, store: Store, dirty: set<nat>, dirty': set<nat>,
                                      roots: seq<StateHash>)
    requires st.Valid() && Stored(st, store) && Sealed(h, st, store, dirty, roots) && dirty <= dirty'
    ensures Sealed(h, st, store, dirty', roots)
  {
    hide SlotsRoot;
  }

  lemma {:induction false} ExpandedStored(st: State, store: Store)
    requires st.Valid() && Stored(st, store) && !ExpandAborts(st) && st.logSlots < LOG_SLOTS_MAX
    ensures Stored(Expanded(st), store)
  {
    hide Pow2;
    ExpandedValid(st);
  }

  /** Expanding the recorded roots records the expanded segments; a single segment, grown and marked, is
      recorded too if it was before. */
  lemma {:induction false} ExpandedSealed(h: Hasher, st: State, store: Store, dirty: set<nat>, roots: seq<StateHash>)
    requires st.Valid() && Stored(st, store) && !ExpandAborts(st) && st.logSlots < LOG_SLOTS_MAX
    requires |roots| == NumSegments(st.logSlots) && Sealed(h, st, store, dirty, roots)
    ensures Expanded(st).Valid() && Stored(Expanded(st), store)
    ensures Sealed(h, Expanded(st), store, dirty, ExpandedRoots(h, st.logSlots, roots))
  {
    ExpandedValid(st);
    ExpandedStored(st, store);
    if st.logSlots + 1 <= LOG_SEGMENT_SIZE {
      ExpandedSingle(h, st, store, dirty, roots);
    } else {
      ExpandedMany(h, st, store, dirty, roots);
    }
    hide Expanded, Sealed;
  }

  lemma {:induction false} ExpandedSingle(h: Hasher, st: State, store: Store, dirty: set<nat>, roots: seq<StateHash>)
    requires st.Valid() && Stored(st, store) && !ExpandAborts(st) && st.logSlots + 1 <= LOG_SEGMENT_SIZE
    requires |roots| == NumSegments(st.logSlots) && Sealed(h, st, store, dirty, roots)
    requires Expanded(st).Valid() && Stored(Expanded(st), store)
    ensures Sealed(h, Expanded(st), store, dirty, ExpandedRoots(h, st.logSlots, roots))
  {
    hide Join, MerkleRoot, ZeroRoot, Pow2, CountLive;
    Pow2Doubles(st.logSlots);
    var zeros := ZeroSlots(Pow2(st.logSlots));
    assert st.SegmentOk(0);
    EmptySlotsRoot(h, st.logSlots, zeros);
    SlotsRootJoins(h, st.logSlots, st.Slots(0), zeros);
    assert Expanded(st).Slots(0) == st.Slots(0) + zeros;
  }

  lemma {:induction false} ExpandedMany(h: Hasher, st: State, store: Store, dirty: set<nat>, roots: seq<StateHash>)
    requires st.Valid() && Stored(st, store) && st.logSlots + 1 > LOG_SEGMENT_SIZE
    requires |roots| == NumSegments(st.logSlots) && Sealed(h, st, store, dirty, roots)
    requires Expanded(st).Valid() && Stored(Expanded(st), store)
    ensures Sealed(h, Expanded(st), store, dirty, ExpandedRoots(h, st.logSlots, roots))
  {
    hide MerkleRoot, ZeroRoot, Pow2, CountLive;
    var st', all := Expanded(st), ExpandedRoots(h, st.logSlots, roots);
    EmptySlotsRoot(h, LogSegment(st.logSlots), ZeroSlots(st.Size()));
    forall s | 0 <= s < |st'.segments| && s !in dirty
      ensures s < |all| && all[s] == SlotsRoot(h, LogSegment(st'.logSlots), Content(st', store, s)) {
      if s < |st.segments| {
        assert Content(st', store, s) == Content(st, store, s);
      } else {
        assert st'.Slots(s) == ZeroSlots(st.Size());
      }
    }
  }

  /** The recorded roots do not reach into the half that doubling adds, or are empty there. */
  ghost predicate UpperHalfFree(h: Hasher, st: State, logRoots: nat, roots: seq<StateHash>) {
    logRoots > st.logSlots >= LOG_SEGMENT_SIZE ==>
      forall s :: |st.segments| <= s < 2 * |st.segments| ==> s < |roots| && roots[s] == ZeroRoot(h, LOG_SEGMENT_SIZE)
  }

  lemma {:induction false} InStepIsFree(h: Hasher, st: State, roots: seq<StateHash>)
    ensures UpperHalfFree(h, st, st.logSlots, roots)
  {
  }

  lemma {:induction false} RootsReach(logRoots: nat, logSlots: nat)
    requires logRoots > logSlots >= LOG_SEGMENT_SIZE
    ensures NumSegments(logRoots) >= 2 * NumSegments(logSlots)
  {
    Pow2Doubles(logSlots - LOG_SEGMENT_SIZE);
    Pow2Monotone(logSlots + 1 - LOG_SEGMENT_SIZE, logRoots - LOG_SEGMENT_SIZE);
  }

  lemma {:induction false} UpperHalfContent(h: Hasher, st: State, store: Store, s: nat)
    requires st.Valid() && Stored(st, store) && st.logSlots >= LOG_SEGMENT_SIZE && Expanded(st).Valid()
    requires Stored(Expanded(st), store)
    requires s < 2 * |st.segments|
    ensures s < |Expanded(st).segments|
    ensures LogSegment(Expanded(st).logSlots) == LOG_SEGMENT_SIZE == LogSegment(st.logSlots)
    ensures s < |st.segments| ==> Content(Expanded(st), store, s) == Content(st, store, s)
    ensures s >= |st.segments| ==>
              SlotsRoot(h, LOG_SEGMENT_SIZE, Content(Expanded(st), store, s)) == ZeroRoot(h, LOG_SEGMENT_SIZE)
  {
    hide Pow2, MerkleRoot, ZeroRoot, CountLive, NumSegments;
    if s >= |st.segments| {
      assert Expanded(st).Slots(s) == ZeroSlots(st.Size());
      EmptySlotsRoot(h, LOG_SEGMENT_SIZE, ZeroSlots(st.Size()));
    }
  }

  /** Behind a rollback, the recorded roots stay right exactly if the new half is recorded as empty. */
  lemma {:induction false} LaggingExpand(h: Hasher, st: State, store: Store, dirty: set<nat>, logRoots: nat,
                                         roots: seq<StateHash>, roots': seq<StateHash>)
    requires st.Valid() && Stored(st, store) && st.logSlots >= LOG_SEGMENT_SIZE && Expanded(st).Valid()
    requires Stored(Expanded(st), store)
    requires logRoots > st.logSlots && |roots| == NumSegments(logRoots) && Sealed(h, st, store, dirty, roots)
    requires |roots'| >= |roots| && roots'[..|roots|] == roots && forall s :: s in dirty ==> s < |st.segments|
    ensures Sealed(h, Expanded(st), store, dirty, roots') <==> UpperHalfFree(h, st, logRoots, roots)
  {
    hide Pow2, SlotsRoot, ZeroRoot, Expanded, Content, State.Valid, Stored;
    SegmentIds(st);
    SegmentIds(Expanded(st));
    RootsReach(logRoots, st.logSlots);
    var n := |st.segments|;
    forall s | 0 <= s < 2 * n
      ensures s < |Expanded(st).segments| && roots'[s] == roots[s]
      ensures LogSegment(Expanded(st).logSlots) == LogSegment(st.logSlots)
      ensures s < n ==> Content(Expanded(st), store, s) == Content(st, store, s)
      ensures s >= n ==>
                SlotsRoot(h, LogSegment(st.logSlots), Content(Expanded(st), store, s)) == ZeroRoot(h, LOG_SEGMENT_SIZE)
    {
      UpperHalfContent(h, st, store, s);
      assert roots'[..|roots|][s] == roots'[s];
    }
    ExpandedWidth(st);
  }

  lemma {:induction false} ExpandedWidth(st: State)
    requires st.Valid() && st.logSlots >= LOG_SEGMENT_SIZE
    ensures |Expanded(st).segments| == 2 * |st.segments|
  {
  }

  /** A recorded root that the domain uses is the same in the record grown to it, or its segment is marked. */
  lemma {:induction false} RecordedOrMarked(h: Hasher, st: State, dirty: set<nat>, logRoots: nat, roots: seq<StateHash>,
                                            seg: nat)
    requires |roots| == NumSegments(logRoots) && InLine(st, dirty, logRoots) && seg < |roots|
    ensures seg in dirty || (seg < |GrownRoots(h, logRoots, roots, st.logSlots)|
                             && GrownRoots(h, logRoots, roots, st.logSlots)[seg] == roots[seg])
  {
    hide GrownRoots, ExpandedRoots;
    if logRoots >= LOG_SEGMENT_SIZE || logRoots == st.logSlots {
      if logRoots <= st.logSlots {
        GrownCommon(h, logRoots, roots, logRoots, st.logSlots, seg);
      }
      GrownAlready(h, logRoots, roots, logRoots);
      if logRoots > st.logSlots { GrownAlready(h, logRoots, roots, st.logSlots); }
    }
  }

  lemma {:induction false} GrownAlready(h: Hasher, logRoots: nat, roots: seq<StateHash>, log: nat)
    requires |roots| == NumSegments(logRoots) && logRoots >= log
    ensures GrownRoots(h, logRoots, roots, log) == roots
  {
  }

  /** A hierarchy of the domain's depth with nothing marked heads the plain tree. */
  lemma {:induction false} RecordRoot(h: Hasher, st: State, store: Store, logRoots: nat, roots: seq<StateHash>)
    requires st.Valid() && Stored(st, store) && logRoots == st.logSlots && |roots| == NumSegments(logRoots)
    requires Sealed(h, st, store, {}, GrownRoots(h, logRoots, roots, st.logSlots))
    ensures |roots| == Pow2(UpperDepth(st.logSlots))
    ensures MerkleRoot(h, UpperDepth(st.logSlots), roots) == PlainRoot(h, st, store)
  {
    hide SlotsRoot, MerkleRoot, Pow2, NumSegments, LogSegment, PlainRoot, Sealed;
    SegmentIds(st);
    GrownAlready(h, logRoots, roots, st.logSlots);
    SealedRoot(h, st, store, roots);
  }

  /** The marks after doubling: a single segment is marked, unless the chain knows its record to be current. */
  ghost predicate Remarked(logSlots: nat, dirty: set<nat>, dirty': set<nat>, current: bool) {
    dirty' == (if logSlots + 1 <= LOG_SEGMENT_SIZE then dirty + {0} else dirty) || (current && dirty == {} == dirty')
  }

  /** The record after doubling the domain: expanded along with it, or left behind. */
  ghost function RecordAfter(h: Hasher, logRoots: nat, roots: seq<StateHash>, along: bool, log: nat): seq<StateHash>
    requires |roots| == NumSegments(logRoots)
  {
    if along then
      ExpandedLength(h, logRoots, roots);
      GrownRoots(h, logRoots + 1, ExpandedRoots(h, logRoots, roots), log + 1)
    else GrownRoots(h, logRoots, roots, log + 1)
  }

  lemma {:induction false} RecordFollows(h: Hasher, logRoots: nat, roots: seq<StateHash>, along: bool, log: nat)
    requires |roots| == NumSegments(logRoots)
    ensures logRoots <= log ==>
              && |GrownRoots(h, logRoots, roots, log)| == NumSegments(log)
              && RecordAfter(h, logRoots, roots, along, log)
                == ExpandedRoots(h, log, GrownRoots(h, logRoots, roots, log))
    ensures logRoots > log ==>
              GrownRoots(h, logRoots, roots, log) == roots
              && RecordAfter(h, logRoots, roots, along, log)
                == if along then ExpandedRoots(h, logRoots, roots) else roots
  {
    hide NumSegments, ExpandedRoots;
    if logRoots <= log { GrownStep(h, logRoots, roots, log); }
  }

  /** Doubling keeps the recorded roots right, and in line with the domain, exactly if the new half was free. */
  lemma {:induction false} ExpandedInLine(h: Hasher, st: State, store: Store, dirty: set<nat>, dirty': set<nat>,
                                          logRoots: nat, roots: seq<StateHash>, along: bool)
    requires st.Valid() && Stored(st, store) && !ExpandAborts(st) && st.logSlots < LOG_SLOTS_MAX
    requires |roots| == NumSegments(logRoots) && InLine(st, dirty, logRoots)
    requires Sealed(h, st, store, dirty, GrownRoots(h, logRoots, roots, st.logSlots))
    requires forall s :: s in dirty ==> s < |st.segments|
    requires Remarked(st.logSlots, dirty, dirty', along && logRoots == st.logSlots)
    ensures Expanded(st).Valid() && Stored(Expanded(st), store) && Expanded(st).logSlots == st.logSlots + 1
    ensures Sealed(h, Expanded(st), store, dirty', RecordAfter(h, logRoots, roots, along, st.logSlots))
            && InLine(Expanded(st), dirty', if along then logRoots + 1 else logRoots)
            <==> UpperHalfFree(h, st, logRoots, roots)
  {
    ExpandedValid(st);
    ExpandedStored(st, store);
    ExpandedDepth(st);
    RecordFollows(h, logRoots, roots, along, st.logSlots);
    hide Pow2, SlotsRoot, ZeroRoot, CountLive, Join, GrownRoots, RecordAfter, Expanded, State.Valid, NumSegments,
         ExpandedRoots, Sealed;
    var record, record' := GrownRoots(h, logRoots, roots, st.logSlots),
        RecordAfter(h, logRoots, roots, along, st.logSlots);
    if logRoots <= st.logSlots {
      ExpandedSealed(h, st, store, dirty, record);
      SealedMore(h, Expanded(st), store, dirty, dirty', record');
    } else if st.logSlots >= LOG_SEGMENT_SIZE {
      ExpandedAppends(h, logRoots, roots);
      LaggingExpand(h, st, store, dirty, logRoots, roots, record');
    } else {
      OnlyMarked(h, st, store, dirty', record');
    }
  }

  lemma {:induction false} ExpandedDepth(st: State)
    requires |st.segments| >= 1 && !ExpandAborts(st)
    ensures Expanded(st).logSlots == st.logSlots + 1 && Expanded(st).evicted == st.evicted
  {
  }

  lemma {:induction false} ExpandedAppends(h: Hasher, logRoots: nat, roots: seq<StateHash>)
    requires |roots| == NumSegments(logRoots) && logRoots >= LOG_SEGMENT_SIZE
    ensures |ExpandedRoots(h, logRoots, roots)| >= |roots| && ExpandedRoots(h, logRoots, roots)[..|roots|] == roots
  {
  }

  lemma {:induction false} OnlyMarked(h: Hasher, st: State, store: Store, dirty: set<nat>, roots: seq<StateHash>)
    requires st.Valid() && !ExpandAborts(st) && st.logSlots < LOG_SEGMENT_SIZE && 0 in dirty && Expanded(st).Valid()
    requires Stored(Expanded(st), store)
    ensures Sealed(h, Expanded(st), store, dirty, roots) && Expanded(st).logSlots == st.logSlots + 1
  {
    hide Pow2, SlotsRoot, CountLive;
  }

  /** An empty domain of one segment behind an unrefreshed rollback from two: the root recorded for the
      second, not empty then, makes the doubled domain's record wrong. */
  lemma {:induction false} StaleAfterRollback(h: Hasher, stale: StateHash)
    requires stale != ZeroRoot(h, LOG_SEGMENT_SIZE)
    ensures var st, roots := State(LOG_SEGMENT_SIZE, [None], [0], {}), [ZeroRoot(h, LOG_SEGMENT_SIZE), stale];
            && st.Valid() && InLine(st, {}, LOG_SEGMENT_SIZE + 1) && Sealed(h, st, map[], {}, roots)
            && !UpperHalfFree(h, st, LOG_SEGMENT_SIZE + 1, roots)
  {
    hide Pow2, ZeroRoot, SlotsRoot;
    var st, roots := State(LOG_SEGMENT_SIZE, [None], [0], {}), [ZeroRoot(h, LOG_SEGMENT_SIZE), stale];
    assert st.SegmentOk(0);
    FreshSegment(h, st, 0);
    assert roots[1] == stale;
  }
}
