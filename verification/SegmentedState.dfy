/** The slot state around the cache: columns come and go, live counts follow them,
    and every change either updates the cached tree or drops it.
 */
module SegmentedState {
  import opened Wrappers
  import opened Powers
  import opened ExactStateHash
  import opened SegmentTree
  import opened SegmentTreeObject
  import opened SegmentCache
  import opened CacheRuns

  const LOG_SEGMENT_SIZE: nat := 16
  const LOG_SLOTS_MAX: nat := 32

  datatype StateError =
    | SlotOutOfRange
    | EvictedSegment(id: nat)
    | InvalidTarget
    | EvictedUpperSegment(id: nat)
    | NonEmptyUpperHalf(id: nat)

  function CountLive(slots: seq<SlotValue>): nat {
    if slots == [] then 0 else (if slots[0].IsEmpty() then 0 else 1) + CountLive(slots[1..])
  }

  function ZeroSlots(size: nat): (slots: seq<SlotValue>)
    ensures |slots| == size && forall i :: 0 <= i < size ==> slots[i] == EMPTY
  {
    seq(size, _ => EMPTY)
  }

  lemma {:induction false} CountLiveUpdate(slots: seq<SlotValue>, i: nat, value: SlotValue)
    requires i < |slots|
    ensures CountLive(slots[i := value])
         == CountLive(slots) - (if slots[i].IsEmpty() then 0 else 1) + (if value.IsEmpty() then 0 else 1)
  {
    if i == 0 {
      assert slots[0 := value][1..] == slots[1..];
    } else {
      assert slots[i := value][1..] == slots[1..][i - 1 := value];
      CountLiveUpdate(slots[1..], i - 1, value);
    }
  }

  lemma {:induction false} CountLiveZero(slots: seq<SlotValue>)
    ensures CountLive(slots) == 0 <==> slots == ZeroSlots(|slots|)
  {
    if slots != [] {
      CountLiveZero(slots[1..]);
      if CountLive(slots) == 0 {
        assert slots == [slots[0]] + slots[1..];
      }
      if slots == ZeroSlots(|slots|) {
        assert slots[1..] == ZeroSlots(|slots[1..]|);
      }
    }
  }

  lemma {:induction false} CountLiveConcat(a: seq<SlotValue>, b: seq<SlotValue>)
    ensures CountLive(a + b) == CountLive(a) + CountLive(b)
  {
    if a == [] {
      assert a + b == b;
    } else {
      assert (a + b)[1..] == a[1..] + b;
      CountLiveConcat(a[1..], b);
    }
  }

  // ------------------------------------------------------------------ geometry

  function LogSegment(logSlots: nat): nat {
    if logSlots <= LOG_SEGMENT_SIZE then logSlots else LOG_SEGMENT_SIZE
  }

  function NumSegments(logSlots: nat): (n: nat)
    ensures n >= 1
  {
    if logSlots <= LOG_SEGMENT_SIZE then 1 else Pow2(logSlots - LOG_SEGMENT_SIZE)
  }

  lemma {:induction false} SegmentsCoverSlots(logSlots: nat)
    ensures NumSegments(logSlots) * Pow2(LogSegment(logSlots)) == Pow2(logSlots)
  {
    if logSlots > LOG_SEGMENT_SIZE { Pow2Adds(logSlots - LOG_SEGMENT_SIZE, LOG_SEGMENT_SIZE); }
  }

  lemma {:induction false} SegmentIdsFit(logSlots: nat)
    requires logSlots <= LOG_SLOTS_MAX
    ensures NumSegments(logSlots) <= 0x1_0000
  {
    assert Pow2(4) == 16;
    Pow2Adds(4, 4);
    Pow2Adds(8, 8);
    if logSlots > LOG_SEGMENT_SIZE { Pow2Monotone(logSlots - LOG_SEGMENT_SIZE, 16); }
  }

  /** The widest domain has as many segments as a segment has slots. */
  lemma {:induction false} WidestDomain()
    ensures LOG_SLOTS_MAX == 32 && NumSegments(32) == Pow2(LogSegment(32)) == 0x1_0000
  {
    assert Pow2(4) == 16;
    Pow2Adds(4, 4);
    Pow2Adds(8, 8);
  }

  // ------------------------------------------------------------- state values

  datatype State = State(logSlots: nat, segments: seq<Option<seq<SlotValue>>>, live: seq<nat>, evicted: set<nat>) {
    /** A resident segment is not evicted and counts at least its live slots; an absent one is evicted
        or counts none. */
    ghost predicate SegmentOk(s: nat)
      requires s < |segments| == |live|
    {
      match segments[s]
      case Some(columns) => |columns| == Size() && CountLive(columns) <= live[s] && s !in evicted
      case None => s in evicted || live[s] == 0
    }

    ghost predicate Valid() {
      && logSlots <= LOG_SLOTS_MAX
      && |segments| == |live| == NumSegments(logSlots) <= 0x1_0000
      && (forall s :: 0 <= s < |segments| ==> SegmentOk(s))
      && (forall s :: s in evicted ==> s < |segments|)
    }

    function Size(): nat {
      Pow2(LogSegment(logSlots))
    }

    /** Current slots of a segment; an absent one, evicted or not, reads as all empty. */
    function Slots(s: nat): (slots: seq<SlotValue>)
      requires s < |segments|
      ensures Valid() ==> |slots| == Size()
    {
      assert Valid() ==> SegmentOk(s);
      match segments[s]
      case Some(columns) => columns
      case None => ZeroSlots(Size())
    }

    /** Live slots counted beyond those that read as live. */
    ghost function Excess(s: nat): int
      requires s < |segments| == |live|
    {
      live[s] - CountLive(Slots(s))
    }

    /** Every segment that is not evicted counts exactly its live slots. */
    ghost predicate Exact()
      requires |segments| == |live|
    {
      forall s :: 0 <= s < |segments| && s !in evicted ==> Excess(s) == 0
    }
  }

  /** The resident columns, by segment. */
  ghost function ResidentColumns(st: State): Columns {
    map s: SegmentId | s < |st.segments| && st.segments[s].Some? :: st.segments[s].value
  }

  ghost predicate TreesHaveDepth(c: Cache, log: nat) {
    forall e :: e in c.entries ==> e.tree.log == log
  }

  ghost predicate CacheMatches(h: Hasher, st: State, c: Cache) {
    && c.Valid()
    && c.Drift() == 0
    && TreesHaveDepth(c, LogSegment(st.logSlots))
    && Coherent(h, c, ResidentColumns(st))
  }

  /** Dropping the entry of one segment frees that segment to change. */
  lemma {:induction false} RemovedMatches(h: Hasher, st: State, c: Cache, id: SegmentId, st': State)
    requires CacheMatches(h, st, c) && LogSegment(st'.logSlots) == LogSegment(st.logSlots)
    requires forall s: SegmentId :: s != id && s in ResidentColumns(st) ==>
               s in ResidentColumns(st') && ResidentColumns(st')[s] == ResidentColumns(st)[s]
    ensures CacheMatches(h, st', Remove(c, id))
  {
    RemoveKeepsValid(c, id);
    RemoveAccounts(c, id);
    var removed := Remove(c, id);
    forall e | e in removed.entries ensures e.id != id {
      var i :| 0 <= i < |removed.entries| && removed.entries[i] == e;
    }
    hide Remove, Resident, Pow2, FreshNodes, ZeroRoots, ResidentColumns, Lookup;
  }

  /** A mirrored slot write keeps the match. */
  lemma {:induction false} WrittenMatches(h: Hasher, st: State, c: Cache, id: SegmentId, local: nat, value: SlotValue,
                                          st': State)
    requires CacheMatches(h, st, c) && id < |st.segments| && st.segments[id].Some? && local < |st.segments[id].value|
    requires st'.logSlots == st.logSlots
    requires st'.segments == st.segments[id := Some(st.segments[id].value[local := value])]
    ensures WritableAt(c, id, local, None)
    ensures CacheMatches(h, st', UpdateSlot(h, c, id, local, value, None))
  {
    var columns := ResidentColumns(st);
    EventEnabled(h, c, columns, Write(id, local, value, None));
    WriteKeepsCoherent(h, c, columns, id, local, value, None);
    UpdateKeepsValid(h, c, id, local, value, None);
    assert ResidentColumns(st') == columns[id := columns[id][local := value]];
    UpdateKeepsDepth(h, c, id, local, value, LogSegment(st.logSlots));
    hide UpdateSlot, Resident, Pow2, FreshNodes, ZeroRoots, Coherent, TreesHaveDepth, ResidentColumns;
  }

  lemma {:induction false} UpdateKeepsDepth(h: Hasher, c: Cache, id: SegmentId, local: nat, value: SlotValue, log: nat)
    requires WritableAt(c, id, local, None) && TreesHaveDepth(c, log)
    ensures TreesHaveDepth(UpdateSlot(h, c, id, local, value, None), log)
  {
    var k := Position(c.entries, id);
    if k < |c.entries| {
      assert c.entries[k] in c.entries;
      forall e | e in Cut(c.entries, k) ensures e in c.entries {
      }
    }
  }

  // -------------------------------------------------------------- slot writes

  /** One slot write: a segment appears with its first live slot and disappears
      with its last. */
  function Written(st: State, seg: nat, loc: nat, value: SlotValue): State
    requires seg < |st.segments| == |st.live| && loc < |st.Slots(seg)|
  {
    var columns := st.Slots(seg);
    if columns[loc] == value then st
    else
      var live := st.live[seg];
      var count :=
        if columns[loc].IsEmpty() && !value.IsEmpty() then live + 1
        else if !columns[loc].IsEmpty() && value.IsEmpty() then (if live == 0 then 0 else live - 1)
        else live;
      var kept := if count == 0 then None else Some(columns[loc := value]);
      State(st.logSlots, st.segments[seg := kept], st.live[seg := count], st.evicted - {seg})
  }

  /** A write changes what one slot reads as, in a segment that was evicted too, and changes no
      segment's excess. An evicted segment comes back when the write is not empty. */
  lemma {:induction false} WrittenSlots(st: State, seg: nat, loc: nat, value: SlotValue)
    requires st.Valid() && seg < |st.segments| && loc < st.Size()
    ensures var st' := Written(st, seg, loc, value);
            && st'.Valid() && st'.logSlots == st.logSlots && |st'.segments| == |st.segments|
            && st'.evicted == (if value.IsEmpty() then st.evicted else st.evicted - {seg})
            && st'.Slots(seg) == st.Slots(seg)[loc := value]
            && st'.Excess(seg) == st.Excess(seg)
            && forall s :: 0 <= s < |st.segments| && s != seg ==>
                 st'.segments[s] == st.segments[s] && st'.live[s] == st.live[s]
  {
    hide Pow2, NumSegments, LogSegment;
    var columns, st' := st.Slots(seg), Written(st, seg, loc, value);
    assert st.SegmentOk(seg);
    CountLiveZero(columns);
    CountLiveUpdate(columns, loc, value);
    CountLiveZero(columns[loc := value]);
    forall s | 0 <= s < |st.segments| ensures st'.SegmentOk(s) {
      assert st.SegmentOk(s);
    }
  }

  /** An evicted segment keeps its live count while it reads as empty, so a write that brings it back
      leaves the counts exact exactly when it held nothing live: callers reload a segment first. */
  lemma {:induction false} WriteCountsExactly(st: State, seg: nat, loc: nat, value: SlotValue)
    requires st.Valid() && st.Exact() && seg < |st.segments| && loc < st.Size()
    ensures Written(st, seg, loc, value).Exact() <==> seg !in st.evicted || value.IsEmpty() || st.live[seg] == 0
  {
    WrittenSlots(st, seg, loc, value);
    hide Written, CountLive, Pow2, NumSegments, LogSegment;
    var st' := Written(st, seg, loc, value);
    assert st.SegmentOk(seg);
    if seg in st.evicted {
      CountLiveZero(st.Slots(seg));
      assert st.Excess(seg) == st.live[seg];
    }
    forall s | 0 <= s < |st.segments| && s != seg ensures st'.Excess(s) == st.Excess(s) {
    }
  }

  /** One slot, evicted while live, then overwritten: the count says two. */
  lemma {:induction false} EvictedWriteMiscounts(value: SlotValue)
    requires !value.IsEmpty()
    ensures var st := State(0, [None], [1], {0});
            st.Valid() && st.Exact() && !Written(st, 0, 0, value).Exact() && Written(st, 0, 0, value).live == [2]
  {
    var st := State(0, [None], [1], {0});
    assert st.SegmentOk(0);
    WriteCountsExactly(st, 0, 0, value);
  }

  function SegmentOf(st: State, idx: nat): nat {
    Quotient(idx, st.Size())
  }

  function LocalOf(st: State, idx: nat): nat {
    Remainder(idx, st.Size())
  }

  lemma {:induction false} IndexInside(st: State, idx: nat)
    requires st.Valid()
    ensures idx < Pow2(st.logSlots) <==> SegmentOf(st, idx) < |st.segments|
  {
    SegmentsCoverSlots(st.logSlots);
    QuotientBound(idx, |st.segments|, st.Size());
  }

  /** The slot at a global index. */
  ghost function SlotAt(st: State, idx: nat): SlotValue
    requires st.Valid() && SegmentOf(st, idx) < |st.segments|
  {
    st.Slots(SegmentOf(st, idx))[LocalOf(st, idx)]
  }

  /** What a batch leaves at an index: its last write there, if any. */
  function LastWrite(before: SlotValue, deltas: seq<(nat, SlotValue)>, idx: nat): SlotValue
    decreases |deltas|
  {
    if deltas == [] then before
    else LastWrite(if deltas[0].0 == idx then deltas[0].1 else before, deltas[1..], idx)
  }

  lemma {:induction false} LastWriteSnoc(before: SlotValue, deltas: seq<(nat, SlotValue)>, last: (nat, SlotValue),
                                         idx: nat)
    ensures LastWrite(before, deltas + [last], idx) == if last.0 == idx then last.1 else LastWrite(before, deltas, idx)
    decreases |deltas|
  {
    if deltas == [] {
      assert deltas + [last] == [last];
    } else {
      assert (deltas + [last])[1..] == deltas[1..] + [last];
      LastWriteSnoc(if deltas[0].0 == idx then deltas[0].1 else before, deltas[1..], last, idx);
    }
  }

  lemma {:induction false} WrittenAt(st: State, idx: nat, value: SlotValue, other: nat)
    requires st.Valid() && SegmentOf(st, idx) < |st.segments| && SegmentOf(st, other) < |st.segments|
    ensures var st' := Written(st, SegmentOf(st, idx), LocalOf(st, idx), value);
            && st'.Valid() && st'.logSlots == st.logSlots && |st'.segments| == |st.segments|
            && SlotAt(st', other) == if other == idx then value else SlotAt(st, other)
  {
    WrittenSlots(st, SegmentOf(st, idx), LocalOf(st, idx), value);
    hide Written, Pow2, Quotient, Remainder, LogSegment, NumSegments;
  }

  /** The batch writes something into this segment. */
  ghost predicate Revives(st: State, deltas: seq<(nat, SlotValue)>, seg: nat) {
    exists i :: 0 <= i < |deltas| && SegmentOf(st, deltas[i].0) == seg && !deltas[i].1.IsEmpty()
  }

  /** What a batch does: each slot ends with its last write, no segment's excess changes, and exactly
      the evicted segments it writes something into come back. */
  ghost predicate Applied(before: State, deltas: seq<(nat, SlotValue)>, st: State)
    requires before.Valid() && st.Valid()
  {
    && st.logSlots == before.logSlots && |st.segments| == |before.segments|
    && (forall idx: nat :: SegmentOf(before, idx) < |before.segments| ==>
          SlotAt(st, idx) == LastWrite(SlotAt(before, idx), deltas, idx))
    && (forall s :: 0 <= s < |before.segments| ==> st.Excess(s) == before.Excess(s))
    && (forall s :: 0 <= s < |before.segments| ==>
          (s in st.evicted <==> s in before.evicted && !Revives(before, deltas, s)))
  }

  /** No segment is newly marked that the batch does not name. */
  ghost predicate MarksOnly(st: State, deltas: seq<(nat, SlotValue)>, dirty: set<nat>, dirty': set<nat>) {
    forall s :: s in dirty' && s !in dirty ==> exists i :: 0 <= i < |deltas| && SegmentOf(st, deltas[i].0) == s
  }

  lemma {:induction false} MarksOneMore(st: State, deltas: seq<(nat, SlotValue)>, i: nat, dirty: set<nat>,
                                        dirty': set<nat>, dirty'': set<nat>)
    requires i < |deltas| && MarksOnly(st, deltas[..i], dirty, dirty')
    requires dirty'' <= dirty' + {SegmentOf(st, deltas[i].0)}
    ensures MarksOnly(st, deltas[..i + 1], dirty, dirty'')
  {
    var more := deltas[..i + 1];
    forall s | s in dirty'' && s !in dirty ensures exists k :: 0 <= k < |more| && SegmentOf(st, more[k].0) == s {
      if s in dirty' {
        var k :| 0 <= k < i && SegmentOf(st, deltas[..i][k].0) == s;
        assert SegmentOf(st, more[k].0) == s;
      } else {
        assert SegmentOf(st, more[i].0) == s;
      }
    }
  }

  lemma {:induction false} AppliedNothing(st: State)
    requires st.Valid()
    ensures Applied(st, [], st)
  {
    hide Quotient, Remainder, CountLive;
  }

  lemma {:induction false} RevivesSnoc(st: State, deltas: seq<(nat, SlotValue)>, last: (nat, SlotValue), s: nat)
    ensures Revives(st, deltas + [last], s)
            <==> Revives(st, deltas, s) || (SegmentOf(st, last.0) == s && !last.1.IsEmpty())
  {
    hide SegmentOf;
    var all := deltas + [last];
    if Revives(st, deltas, s) {
      var i :| 0 <= i < |deltas| && SegmentOf(st, deltas[i].0) == s && !deltas[i].1.IsEmpty();
      assert all[i] == deltas[i];
    }
    assert all[|deltas|] == last;
  }

  lemma {:induction false} AppliedOneMore(before: State, deltas: seq<(nat, SlotValue)>, st: State, idx: nat,
                                          value: SlotValue)
    requires before.Valid() && st.Valid() && Applied(before, deltas, st) && SegmentOf(st, idx) < |st.segments|
    requires Written(st, SegmentOf(st, idx), LocalOf(st, idx), value).Valid()
    ensures Applied(before, deltas + [(idx, value)], Written(st, SegmentOf(st, idx), LocalOf(st, idx), value))
  {
    WrittenSlots(st, SegmentOf(st, idx), LocalOf(st, idx), value);
    hide Written, Quotient, Remainder, CountLive, Pow2, NumSegments, LogSegment, Revives;
    var all, st' := deltas + [(idx, value)], Written(st, SegmentOf(st, idx), LocalOf(st, idx), value);
    forall other: nat | SegmentOf(before, other) < |before.segments|
      ensures SlotAt(st', other) == LastWrite(SlotAt(before, other), all, other) {
      WrittenAt(st, idx, value, other);
      LastWriteSnoc(SlotAt(before, other), deltas, (idx, value), other);
    }
    forall s | 0 <= s < |before.segments|
      ensures st'.Excess(s) == before.Excess(s)
      ensures (s in st'.evicted <==> s in before.evicted && !Revives(before, all, s)) {
      RevivesSnoc(before, deltas, (idx, value), s);
    }
  }

  /** A batch leaves exact counts exact exactly when every evicted segment it brings back held nothing live. */
  lemma {:induction false} BatchCountsExactly(before: State, deltas: seq<(nat, SlotValue)>, st: State)
    requires before.Valid() && before.Exact() && st.Valid() && Applied(before, deltas, st)
    ensures st.Exact() <==> forall s :: s in before.evicted && Revives(before, deltas, s) ==> before.live[s] == 0
  {
    hide Quotient, Remainder, CountLive, Pow2, NumSegments, LogSegment, Revives, SlotAt, LastWrite;
    forall s | s in before.evicted ensures before.Excess(s) == before.live[s] {
      assert before.SegmentOk(s);
      CountLiveZero(before.Slots(s));
    }
  }

  /** Outside `changed`, every segment is as it was. */
  ghost predicate SameExcept(before: State, st: State, changed: set<nat>) {
    && st.logSlots == before.logSlots && |st.segments| == |st.live| == |before.segments| == |before.live|
    && forall s :: 0 <= s < |before.segments| && s !in changed ==>
         && st.segments[s] == before.segments[s] && st.live[s] == before.live[s]
         && (s in st.evicted <==> s in before.evicted)
  }

  lemma {:induction false} SameAfterWrite(before: State, st: State, seg: nat, loc: nat, value: SlotValue,
                                          changed: set<nat>)
    requires st.Valid() && seg < |st.segments| && loc < st.Size() && SameExcept(before, st, changed)
    ensures SameExcept(before, Written(st, seg, loc, value),
                       if st.Slots(seg)[loc] == value then changed else changed + {seg})
    ensures st.Slots(seg)[loc] != value ==> seg !in Written(st, seg, loc, value).evicted
    ensures Written(st, seg, loc, value).evicted <= st.evicted
  {
    hide Pow2, CountLive, LogSegment, NumSegments;
  }
}
