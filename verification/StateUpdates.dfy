/** A batch of slot updates seen three ways: grouped by segment, laid over a cached tree, or streamed over
    columns. All give the segment root that applying the batch gives.
 */
module StateUpdates {
  import opened Wrappers
  import opened Powers
  import opened ExactStateHash
  import opened SegmentTree
  import opened SegmentedState
  import opened SegmentedResize
  import opened StateRoots
  import opened StateContents
  import opened StreamingRoot

  type Updates = seq<(nat, SlotValue)>
  type Local = map<nat, SlotValue>

  // ------------------------------------------------------------- grouped by segment

  /** The updates of each segment, later ones replacing earlier ones. */
  function Grouped(size: nat, updates: Updates): map<nat, Local>
    requires size >= 1
  {
    if updates == [] then map[]
    else
      var groups, last := Grouped(size, updates[..|updates| - 1]), updates[|updates| - 1];
      var seg, loc := Quotient(last.0, size), Remainder(last.0, size);
      groups[seg := (if seg in groups then groups[seg] else map[])[loc := last.1]]
  }

  /** What a grouped batch leaves at one place. */
  function Found(groups: map<nat, Local>, seg: nat, loc: nat, before: SlotValue): SlotValue {
    if seg in groups && loc in groups[seg] then groups[seg][loc] else before
  }

  lemma {:induction false} SplitIndex(size: nat, idx: nat, other: nat)
    requires size >= 1
    ensures idx == other
            <==> Quotient(idx, size) == Quotient(other, size) && Remainder(idx, size) == Remainder(other, size)
  {
    hide Quotient, Remainder;
  }

  /** Grouping keeps the last write to every slot. */
  lemma {:induction false} GroupedFinds(size: nat, updates: Updates, idx: nat, before: SlotValue)
    requires size >= 1
    ensures Found(Grouped(size, updates), Quotient(idx, size), Remainder(idx, size), before)
         == LastWrite(before, updates, idx)
    decreases |updates|
  {
    hide Quotient, Remainder, LastWrite;
    if updates == [] {
      NoWrites(before, idx);
    } else {
      var front, last := updates[..|updates| - 1], updates[|updates| - 1];
      GroupedFinds(size, front, idx, before);
      LastWriteSnoc(before, front, last, idx);
      assert front + [last] == updates;
      SplitIndex(size, last.0, idx);
    }
  }

  lemma {:induction false} NoWrites(before: SlotValue, idx: nat)
    ensures LastWrite(before, [], idx) == before
  {
  }

  /** A segment is in the groups exactly when some update falls into it; every local index is in range. */
  lemma {:induction false} GroupedKeys(size: nat, updates: Updates, seg: nat)
    requires size >= 1
    ensures seg in Grouped(size, updates) <==> exists i :: 0 <= i < |updates| && Quotient(updates[i].0, size) == seg
    ensures seg in Grouped(size, updates) ==> forall loc :: loc in Grouped(size, updates)[seg] ==> loc < size
    decreases |updates|
  {
    hide Quotient, Remainder;
    if updates != [] {
      var front, last := updates[..|updates| - 1], updates[|updates| - 1];
      GroupedKeys(size, front, seg);
      assert updates[|updates| - 1] == last;
      if i :| 0 <= i < |front| && Quotient(front[i].0, size) == seg {
        assert updates[i] == front[i];
      }
      if i :| 0 <= i < |updates| && Quotient(updates[i].0, size) == seg {
        if i < |front| { assert front[i] == updates[i]; }
      }
    }
  }

  // ------------------------------------------------------------ laid over a cached tree

  /** The entries of an ordered map below a bound, in order. */
  function Entries(local: Local, bound: nat): (entries: Updates)
  {
    if bound == 0 then [] else Entries(local,
                                       bound - 1) + if bound - 1 in local then [(bound - 1, local[bound - 1])] else []
  }

  lemma {:induction false} EntriesShape(local: Local, bound: nat)
    ensures AscendingKeys(Entries(local, bound)) && KeysBelow(Entries(local, bound), bound)
    ensures forall j :: 0 <= j < |Entries(local, bound)| ==>
              Entries(local, bound)[j].0 in local && Entries(local, bound)[j].1 == local[Entries(local, bound)[j].0]
  {
    if bound > 0 { EntriesShape(local, bound - 1); }
  }

  lemma {:induction false} EntriesTouch(local: Local, bound: nat, key: nat)
    requires key < bound
    ensures Touches(Entries(local, bound), key) <==> key in local
  {
    EntriesShape(local, bound);
    if key in local {
      EntriesHold(local, bound, key);
    }
  }

  lemma {:induction false} EntriesHold(local: Local, bound: nat, key: nat)
    requires key < bound && key in local
    ensures Touches(Entries(local, bound), key)
  {
    var front := Entries(local, bound - 1);
    if key == bound - 1 {
      assert Entries(local, bound)[|front|].0 == key;
    } else {
      EntriesHold(local, bound - 1, key);
      var j :| 0 <= j < |front| && front[j].0 == key;
      assert Entries(local, bound)[j] == front[j];
    }
  }

  /** Writing the entries one after another lays the whole map over the slots. */
  lemma {:induction false} WritesAreOverlay(slots: seq<SlotValue>, local: Local)
    ensures KeysBelow(Entries(local, |slots|), |slots|)
    ensures ApplyWrites(slots, Entries(local, |slots|)) == SlotsWith(Some(slots), local, |slots|)
  {
    var size, entries := |slots|, Entries(local, |slots|);
    EntriesShape(local, size);
    hide Entries, ApplyWrites, SlotsWith, Touches;
    forall i | 0 <= i < size ensures ApplyWrites(slots, entries)[i] == SlotsWith(Some(slots), local, size)[i] {
      EntriesTouch(local, size, i);
      ApplyWritesAt(slots, entries, i, if i in local then local[i] else EMPTY);
    }
  }

  /** The overlay of a cached tree gives the root of the updated slots. */
  lemma {:induction false} OverlayIsUpdated(h: Hasher, log: nat, slots: seq<SlotValue>, local: Local)
    requires |slots| == Pow2(log)
    ensures KeysBelow(Entries(local, Pow2(log)), Pow2(log))
    ensures RootWithUpdates(h, log, ZeroRoots(h, log), FreshNodes(h, slots), Entries(local, Pow2(log)))
         == SlotsRoot(h, log, SlotsWith(Some(slots), local, Pow2(log)))
  {
    hide SlotsRoot, ApplyWrites, Entries, SlotsWith, FreshNodes, RootWithUpdates;
    EntriesShape(local, Pow2(log));
    WritesAreOverlay(slots, local);
    OverlayIsSlotsRoot(h, log, slots, Entries(local, Pow2(log)));
  }

  // ---------------------------------------------------------------- the updated domain

  /** A segment's content with its group of updates laid over it. */
  ghost function UpdatedPart(slots: seq<SlotValue>, groups: map<nat, Local>, s: nat): (part: seq<SlotValue>)
    ensures |part| == |slots|
  {
    if s in groups then SlotsWith(Some(slots), groups[s], |slots|) else slots
  }

  ghost function UpdatedParts(parts: seq<seq<SlotValue>>, groups: map<nat, Local>): (updated: seq<seq<SlotValue>>)
    ensures |updated| == |parts| && forall s :: 0 <= s < |parts| ==> updated[s] == UpdatedPart(parts[s], groups, s)
  {
    seq(|parts|, s requires 0 <= s < |parts| => UpdatedPart(parts[s], groups, s))
  }

  /** Every segment the batch touches is in memory. */
  ghost predicate Reloaded(st: State, updates: Updates) {
    forall i :: 0 <= i < |updates| ==> SegmentOf(st, updates[i].0) !in st.evicted
  }

  lemma {:induction false} UpdatedAt(parts: seq<seq<SlotValue>>, size: nat, updates: Updates, s: nat, loc: nat)
    requires size >= 1 && s < |parts| && |parts[s]| == size && loc < size
    ensures UpdatedParts(parts, Grouped(size, updates))[s][loc]
         == LastWrite(parts[s][loc], updates, Times(s, size) + loc)
  {
    hide Quotient, Remainder, LastWrite, Grouped;
    IndexOf(size, s, loc);
    GroupedFinds(size, updates, Times(s, size) + loc, parts[s][loc]);
  }

  lemma {:induction false} IndexOf(size: nat, s: nat, loc: nat)
    requires loc < size
    ensures Quotient(Times(s, size) + loc, size) == s && Remainder(Times(s, size) + loc, size) == loc
  {
    SameQuotient(s * size + loc, size, s);
  }

  /** Applying a batch that touches no evicted segment updates the content of the domain. */
  lemma {:induction false} AppliedContent(before: State, st: State, store: Store, updates: Updates, s: nat)
    requires before.Valid() && st.Valid() && Stored(before, store) && Stored(st, store) && s < |before.segments|
    requires Applied(before, updates, st) && Reloaded(before, updates)
    ensures Content(st, store, s) == UpdatedParts(Contents(before, store), Grouped(before.Size(), updates))[s]
  {
    hide Pow2, NumSegments, LogSegment, Quotient, Remainder, LastWrite, Grouped, CountLive, Revives, UpdatedParts;
    var size, parts := before.Size(), Contents(before, store);
    forall loc | 0 <= loc < size
      ensures Content(st, store, s)[loc] == UpdatedParts(parts, Grouped(size, updates))[s][loc] {
      UpdatedAt(parts, size, updates, s, loc);
      SlotOfSegment(before, s, loc);
      if s in before.evicted {
        NotRevived(before, updates, s);
        NotWritten(before, parts[s][loc], updates, s, loc);
      } else {
        assert SegmentOf(before, Times(s, size) + loc) == s;
        assert SlotAt(st, Times(s, size) + loc)
            == LastWrite(SlotAt(before, Times(s, size) + loc), updates, Times(s, size) + loc);
      }
    }
  }

  lemma {:induction false} NotRevived(st: State, updates: Updates, s: nat)
    requires Reloaded(st, updates) && s in st.evicted
    ensures !Revives(st, updates, s)
  {
    hide SegmentOf;
  }

  lemma {:induction false} NotWritten(st: State, before: SlotValue, updates: Updates, s: nat, loc: nat)
    requires Reloaded(st, updates) && s in st.evicted && loc < st.Size()
    ensures LastWrite(before, updates, Times(s, st.Size()) + loc) == before
    decreases |updates|
  {
    hide Quotient, Remainder, Pow2;
    if updates != [] {
      IndexOf(st.Size(), s, loc);
      assert SegmentOf(st, updates[0].0) !in st.evicted;
      assert Reloaded(st, updates[1..]) by {
        forall i | 0 <= i < |updates[1..]| ensures SegmentOf(st, updates[1..][i].0) !in st.evicted {
          assert updates[1..][i] == updates[i + 1];
        }
      }
      NotWritten(st, before, updates[1..], s, loc);
    }
  }

  lemma {:induction false} AppliedContents(before: State, st: State, store: Store, updates: Updates)
    requires before.Valid() && st.Valid() && Stored(before, store) && Stored(st, store)
    requires Applied(before, updates, st) && Reloaded(before, updates)
    ensures Contents(st, store) == UpdatedParts(Contents(before, store), Grouped(before.Size(), updates))
  {
    hide Applied, Reloaded, Content, Pow2, LogSegment, NumSegments;
    var updated := UpdatedParts(Contents(before, store), Grouped(before.Size(), updates));
    SameWidth(before, st, updates);
    forall s | 0 <= s < |updated| ensures Contents(st, store)[s] == updated[s] {
      AppliedContent(before, st, store, updates, s);
    }
  }

  lemma {:induction false} SameWidth(before: State, st: State, updates: Updates)
    requires before.Valid() && st.Valid() && Applied(before, updates, st)
    ensures |st.segments| == |before.segments| && st.logSlots == before.logSlots
  {
  }

  // ------------------------------------------------------------------ the wider domain

  /** The content of a domain that has doubled. */
  ghost function WiderParts(logSlots: nat, parts: seq<seq<SlotValue>>): (wider: seq<seq<SlotValue>>)
    requires |parts| == NumSegments(logSlots) && Sized(parts, Pow2(LogSegment(logSlots)))
    ensures |wider| == NumSegments(logSlots + 1) && Sized(wider, Pow2(LogSegment(logSlots + 1)))
  {
    Pow2Doubles(logSlots);
    if logSlots + 1 <= LOG_SEGMENT_SIZE then [parts[0] + ZeroSlots(Pow2(logSlots))]
    else
      SegmentCount(logSlots);
      SegmentCount(logSlots + 1);
      Pow2Doubles(UpperDepth(logSlots));
      parts + seq(|parts|, _ => ZeroSlots(Pow2(LogSegment(logSlots))))
  }

  lemma {:induction false} WiderContents(st: State, store: Store)
    requires st.Valid() && Stored(st, store) && !ExpandAborts(st) && st.logSlots < LOG_SLOTS_MAX
    ensures Expanded(st).Valid() && Stored(Expanded(st), store)
    ensures Contents(Expanded(st), store) == WiderParts(st.logSlots, Contents(st, store))
  {
    ExpandedValid(st);
    ExpandedStored(st, store);
    hide Pow2, CountLive, Expanded, WiderParts, State.Valid;
    if st.logSlots + 1 <= LOG_SEGMENT_SIZE {
      WiderSingle(st, store);
    } else {
      WiderMany(st, store);
    }
  }

  lemma {:induction false} WiderSingle(st: State, store: Store)
    requires st.Valid() && Stored(st, store) && !ExpandAborts(st) && st.logSlots + 1 <= LOG_SEGMENT_SIZE
    requires Expanded(st).Valid() && Stored(Expanded(st), store)
    ensures Contents(Expanded(st), store) == WiderParts(st.logSlots, Contents(st, store))
  {
    Pow2Doubles(st.logSlots);
    hide Pow2, CountLive;
    assert st.SegmentOk(0);
    assert Expanded(st).Slots(0) == st.Slots(0) + ZeroSlots(Pow2(st.logSlots));
  }

  lemma {:induction false} WiderMany(st: State, store: Store)
    requires st.Valid() && Stored(st, store) && !ExpandAborts(st) && st.logSlots + 1 > LOG_SEGMENT_SIZE
    requires Expanded(st).Valid() && Stored(Expanded(st), store)
    ensures Contents(Expanded(st), store) == WiderParts(st.logSlots, Contents(st, store))
  {
    hide Pow2, CountLive, NumSegments;
    var st' := Expanded(st);
    forall s | 0 <= s < |st'.segments|
      ensures Content(st', store, s)
           == if s < |st.segments| then Content(st, store, s) else ZeroSlots(Pow2(LogSegment(st.logSlots))) {
    }
  }

  /** The recorded roots of a domain, expanded, are those of the wider domain. */
  lemma {:induction false} WiderRoots(h: Hasher, logSlots: nat, parts: seq<seq<SlotValue>>)
    requires |parts| == NumSegments(logSlots) && Sized(parts, Pow2(LogSegment(logSlots)))
    ensures ExpandedRoots(h, logSlots, Roots(h, LogSegment(logSlots), parts))
         == Roots(h, LogSegment(logSlots + 1), WiderParts(logSlots, parts))
  {
    hide MerkleRoot, ZeroRoot, Join, Pow2;
    if logSlots + 1 <= LOG_SEGMENT_SIZE {
      var zeros := ZeroSlots(Pow2(logSlots));
      EmptySlotsRoot(h, logSlots, zeros);
      SlotsRootJoins(h, logSlots, parts[0], zeros);
    } else {
      EmptySlotsRoot(h, LogSegment(logSlots), ZeroSlots(Pow2(LogSegment(logSlots))));
    }
  }

  /** The content a batch is laid over, at the same depth or one more. */
  ghost function BaseParts(st: State, store: Store, log: nat): (parts: seq<seq<SlotValue>>)
    requires st.Valid() && Stored(st, store) && st.logSlots <= log <= st.logSlots + 1
    ensures |parts| == NumSegments(log) && Sized(parts, Pow2(LogSegment(log)))
  {
    if log == st.logSlots then Contents(st, store) else WiderParts(st.logSlots, Contents(st, store))
  }

  /** Columns read as far as they reach, and as empty beyond, are the base content of their segment. */
  lemma {:induction false} PaddedBase(st: State, store: Store, log: nat, s: nat, local: Local)
    requires st.Valid() && Stored(st, store) && st.logSlots <= log <= st.logSlots + 1 && s < NumSegments(log)
    requires s < |st.segments| ==> s !in st.evicted
    ensures var columns := if s < |st.segments| then st.segments[s] else None;
            SlotsWith(columns, local, Pow2(LogSegment(log)))
              == SlotsWith(Some(BaseParts(st, store, log)[s]), local, Pow2(LogSegment(log)))
  {
    hide Pow2, CountLive, SlotsWith;
    Pow2Doubles(st.logSlots);
    var columns, base := if s < |st.segments| then st.segments[s] else None, BaseParts(st, store, log)[s];
    if s < |st.segments| { assert st.SegmentOk(s); }
    forall i | 0 <= i < Pow2(LogSegment(log)) ensures SlotWith(columns, local, i) == SlotWith(Some(base), local, i) {
    }
  }

  ghost function Restricted(groups: map<nat, Local>, done: set<nat>): map<nat, Local> {
    map s | s in groups && s in done :: groups[s]
  }

  /** Recording one more updated segment. */
  lemma {:induction false} RecordOne(h: Hasher, low: nat, parts: seq<seq<SlotValue>>, groups: map<nat, Local>,
                                     done: set<nat>, s: nat, root: StateHash)
    requires Sized(parts, Pow2(low)) && s < |parts| && s in groups
    requires root == SlotsRoot(h, low, SlotsWith(Some(parts[s]), groups[s], Pow2(low)))
    ensures Sized(UpdatedParts(parts, Restricted(groups, done)), Pow2(low))
    ensures Sized(UpdatedParts(parts, Restricted(groups, done + {s})), Pow2(low))
    ensures Roots(h, low, UpdatedParts(parts, Restricted(groups, done)))[s := root]
         == Roots(h, low, UpdatedParts(parts, Restricted(groups, done + {s})))
  {
    hide SlotsRoot, SlotsWith, Pow2;
  }

  lemma {:induction false} RecordNone(h: Hasher, low: nat, parts: seq<seq<SlotValue>>, groups: map<nat, Local>)
    requires Sized(parts, Pow2(low))
    ensures UpdatedParts(parts, Restricted(groups, {})) == parts
    ensures Restricted(groups, groups.Keys) == groups
  {
    hide SlotsWith;
  }

  lemma {:induction false} UpdatedSized(parts: seq<seq<SlotValue>>, groups: map<nat, Local>, size: nat)
    requires Sized(parts, size)
    ensures Sized(UpdatedParts(parts, groups), size)
  {
  }
}
