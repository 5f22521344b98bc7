/** The slot state as the program holds it, with the cache beside it. Every method
    keeps the two in step, so a cached root is always the root of the columns.
 */
module SegmentedStateObject {
  import opened Wrappers
  import opened Powers
  import opened ExactStateHash
  import opened SegmentTree
  import opened SegmentTreeObject
  import opened SegmentCache
  import opened CacheRuns
  import opened SegmentCacheObject
  import opened SegmentedState
  import opened SegmentedResize

  lemma {:induction false} OnlySegmentZero(h: Hasher, st: State, c: Cache, kept: seq<Entry>)
    requires CacheMatches(h, st, c) && |st.segments| == 1
    requires forall e :: e in kept ==> e in c.entries
    ensures kept == [] || Position(kept, 0) == 0
  {
    hide Resident, FreshNodes, ZeroRoots;
    if kept != [] { assert kept[0] in c.entries; }
  }

  /** In a single-segment domain, dropping segment 0 empties the cache. */
  lemma {:induction false} SingleSegmentEmpties(h: Hasher, st: State, c: Cache)
    requires CacheMatches(h, st, c) && |st.segments| == 1
    ensures Remove(c, 0).entries == [] && Remove(c, 0).Valid() && Remove(c, 0).Drift() == 0
  {
    RemoveKeepsValid(c, 0);
    RemoveAccounts(c, 0);
    OnlySegmentZero(h, st, c, Remove(c, 0).entries);
  }

  lemma {:induction false} WiderMatches(h: Hasher, st: State, c: Cache)
    requires CacheMatches(h, st, c) && |st.segments| >= 1 && st.logSlots >= LOG_SEGMENT_SIZE && !ExpandAborts(st)
    ensures CacheMatches(h, Expanded(st), c)
  {
    hide Pow2, Resident, FreshNodes, ZeroRoots;
    var columns, columns' := ResidentColumns(st), ResidentColumns(Expanded(st));
    assert forall s: SegmentId :: s in columns ==> s in columns' && columns'[s] == columns[s];
  }

  lemma {:induction false} NarrowerMatches(h: Hasher, st: State, c: Cache)
    requires CacheMatches(h, st, c) && st.Valid() && st.logSlots > LOG_SEGMENT_SIZE
    requires st.SegmentOk(0) && ShrunkOnce(st).Ok?
    ensures CacheMatches(h, ShrunkOnce(st).value, TruncateSegments(c, |st.segments| / 2))
  {
    var n, st' := |st.segments| / 2, ShrunkOnce(st).value;
    var c' := TruncateSegments(c, n);
    TruncateKeepsValid(c, n);
    var columns, columns' := ResidentColumns(st), ResidentColumns(st');
    assert forall s: SegmentId :: s in columns && s < n ==> s in columns' && columns'[s] == columns[s];
    forall e | e in c'.entries ensures e.id < n && e in c.entries {
      var i :| 0 <= i < |c'.entries| && c'.entries[i] == e;
    }
    hide Pow2, Resident, FreshNodes, ZeroRoots, TruncateSegments, Retain, ShrunkOnce;
  }

  lemma {:induction false} EmptyMatches(h: Hasher, st: State, c: Cache)
    requires c.entries == [] && c.Valid() && c.Drift() == 0
    ensures CacheMatches(h, st, c)
  {
  }

  lemma {:induction false} InsertedMatches(h: Hasher, st: State, c: Cache, id: SegmentId, tree: Tree)
    requires CacheMatches(h, st, c) && tree.Valid() && tree.log == LogSegment(st.logSlots)
    requires id in ResidentColumns(st) && tree.Commits(h, ResidentColumns(st)[id])
    ensures Insert(c, id, tree).Some? && CacheMatches(h, st, Insert(c, id, tree).value)
  {
    var n := InsertOutcome(c, id, tree);
    InsertKeepsValid(c, id, tree);
    hide Pow2, Resident, FreshNodes, ZeroRoots, Insert, ResidentColumns;
  }

  /** Columns that appear where there were none leave the match. */
  lemma {:induction false} MoreMatches(h: Hasher, st: State, c: Cache, st': State)
    requires CacheMatches(h, st, c) && st'.logSlots == st.logSlots && |st'.segments| == |st.segments|
    requires forall s :: 0 <= s < |st.segments| && st.segments[s].Some? ==> st'.segments[s] == st.segments[s]
    ensures CacheMatches(h, st', c)
  {
    hide Pow2, Resident, FreshNodes, ZeroRoots;
    var columns, columns' := ResidentColumns(st), ResidentColumns(st');
    assert forall s: SegmentId :: s in columns ==> s in columns' && columns'[s] == columns[s];
  }

  /** A segment that became empty is removed from the cache. */
  lemma {:induction false} EmptiedMatches(h: Hasher, st: State, c: Cache, seg: SegmentId, st': State)
    requires CacheMatches(h, st, c) && st'.logSlots == st.logSlots && seg < |st.segments|
    requires st'.segments == st.segments[seg := None]
    ensures CacheMatches(h, st', SegmentCache.Remove(c, seg))
  {
    hide Pow2, Resident, FreshNodes, ZeroRoots, CacheMatches, SegmentCache.Remove;
    RemovedMatches(h, st, c, seg, st');
  }

  /** A segment that was absent is materialised before it is written. */
  lemma {:induction false} RewrittenMatches(h: Hasher, st: State, c: Cache, seg: SegmentId, loc: nat, value: SlotValue,
                                            columns: seq<SlotValue>, st': State)
    requires CacheMatches(h, st, c) && st'.logSlots == st.logSlots && seg < |st.segments| && loc < |columns|
    requires st.segments[seg].None? || st.segments[seg] == Some(columns)
    requires st'.segments == st.segments[seg := Some(columns[loc := value])]
    ensures WritableAt(c, seg, loc, None) && CacheMatches(h, st', UpdateSlot(h, c, seg, loc, value, None))
  {
    hide Pow2, Resident, FreshNodes, ZeroRoots, CacheMatches, UpdateSlot;
    var materialised := st.(segments := st.segments[seg := Some(columns)]);
    MoreMatches(h, st, c, materialised);
    WrittenMatches(h, materialised, c, seg, loc, value, st');
  }

  lemma {:induction false} MatchingIsValid(h: Hasher, st: State, c: Cache)
    requires CacheMatches(h, st, c)
    ensures c.Valid() && c.Drift() == 0
  {
  }

  ghost predicate Below(ids: set<nat>, n: nat) {
    forall s :: s in ids ==> s < n
  }

  lemma {:induction false} SameDepth(a: nat, b: nat)
    requires Pow2(a) == Pow2(b)
    ensures a == b
  {
    hide Pow2;
    if a < b { Pow2StrictlyMonotone(a, b); }
    if b < a { Pow2StrictlyMonotone(b, a); }
  }

  class SegmentedFriState {
    const h: Hasher
    const cache: ExactSegmentCache
    var logSlots: nat
    var segments: seq<Option<seq<SlotValue>>>
    var live: seq<nat>
    var evicted: set<nat>
    /** Segments whose raw commitment is stale, and whose exact root the chain has yet to refresh. */
    var dirty: set<nat>
    var exactDirty: set<nat>

    function Now(): State
      reads this
    {
      State(logSlots, segments, live, evicted)
    }

    ghost predicate Valid()
      reads this, cache
    {
      && cache.h == h && Now().Valid() && CacheMatches(h, Now(), cache.Value()) && Below(dirty, |segments|)
      && Below(exactDirty, |segments|)
    }

    /** A raw commitment is asked of an evicted segment, which aborts. */
    predicate FlushAborts()
      reads this
    {
      dirty * evicted != {}
    }

    constructor (h: Hasher, logSlots: nat, budget: nat)
      requires 1 <= logSlots <= LOG_SLOTS_MAX
      ensures Valid() && Now().Exact() && fresh(cache) && this.h == h && this.logSlots == logSlots && evicted == {}
      ensures exactDirty == {} && dirty == {}
      ensures forall s :: 0 <= s < |segments| ==> Now().Slots(s) == ZeroSlots(Pow2(LogSegment(logSlots)))
    {
      SegmentIdsFit(logSlots);
      this.h := h;
      cache := new ExactSegmentCache(h, budget);
      this.logSlots := logSlots;
      segments := seq(NumSegments(logSlots), _ => None);
      live := seq(NumSegments(logSlots), _ => 0);
      evicted := {};
      dirty := {};
      exactDirty := {};
      new;
      EmptyMatches(h, Now(), cache.Value());
      CountLiveZero(ZeroSlots(Now().Size()));
    }

    /** Keep a tree built from the columns of a live segment. */
    method RememberExactSegmentTree(seg: SegmentId, tree: Tree)
      requires Valid() && seg < |segments| && segments[seg].Some? && tree.Valid()
      requires tree.Commits(h, segments[seg].value)
      modifies cache
      ensures Valid()
    {
      hide Pow2, Resident, FreshNodes, ZeroRoots;
      assert Now().SegmentOk(seg);
      if live[seg] != 0 && seg !in evicted {
        SameDepth(tree.log, LogSegment(logSlots));
        InsertedMatches(h, Now(), cache.Value(), seg, tree);
        var completed := cache.Insert(seg, tree);
      }
    }

    /** The root of one segment: from its cached tree, or built and remembered. */
    method ExactSegmentRoot(seg: SegmentId, capacities: Capacities, columnBytes: nat)
      returns (root: Result<StateHash, StateError>)
      requires Valid() && seg < |segments|
      requires capacities.nodes >= 2 * Now().Size() && capacities.zeros >= LogSegment(logSlots) + 1
      modifies cache
      ensures Valid()
      ensures |Now().Slots(seg)| == Now().Size()
      ensures root == if seg in evicted then Err(EvictedSegment(seg))
                      else Ok(SlotsRoot(h, LogSegment(logSlots), Now().Slots(seg)))
    {
      hide Pow2, Resident;
      assert Now().SegmentOk(seg);
      if seg in evicted {
        return Err(EvictedSegment(seg));
      }
      var log := LogSegment(logSlots);
      var cached := cache.Get(seg);
      if cached.Some? {
        assert cache.entries[Position(cache.entries, seg)] in cache.Value().entries;
        RootHeadsTree(h, log, HashLeaves(h, segments[seg].value));
        return Ok(cached.value.nodes[1]);
      }
      match segments[seg] {
        case None =>
          EmptySlotsRoot(h, log, ZeroSlots(Now().Size()));
          return Ok(ZeroRoots(h, log)[log]);
        case Some(columns) =>
          var tree := Tree(log, FreshNodes(h, columns), ZeroRoots(h, log), capacities.nodes, capacities.zeros,
                           columnBytes);
          RootHeadsTree(h, log, HashLeaves(h, columns));
          RememberExactSegmentTree(seg, tree);
          return Ok(tree.nodes[1]);
      }
    }

    method WriteSlot(seg: SegmentId, loc: nat, value: SlotValue)
      requires Valid() && seg < |segments| && loc < Now().Size()
      modifies this`segments, this`live, this`evicted, this`dirty, this`exactDirty, cache
      ensures Valid() && Now() == Written(old(Now()), seg, loc, value)
      ensures exactDirty == (if old(Now()).Slots(seg)[loc] == value then old(exactDirty) else old(exactDirty) + {seg})
      ensures dirty == (if old(Now()).Slots(seg)[loc] == value then old(dirty) else old(dirty) + {seg})
    {
      hide Pow2, Resident, CacheMatches, SegmentCache.Remove, SegmentCache.UpdateSlot, CountLive;
      ghost var before := Now();
      MatchingIsValid(h, before, cache.Value());
      assert before.SegmentOk(seg);
      WrittenSlots(before, seg, loc, value);
      var columns := match segments[seg] case Some(columns) => columns case None => ZeroSlots(Now().Size());
      var previous := columns[loc];
      if previous == value {
        return;
      }
      if segments[seg].None? {
        segments := segments[seg := Some(columns)];
        evicted := evicted - {seg};
      }
      segments := segments[seg := Some(columns[loc := value])];
      if previous.IsEmpty() && !value.IsEmpty() {
        live := live[seg := live[seg] + 1];
      } else if !previous.IsEmpty() && value.IsEmpty() {
        live := live[seg := if live[seg] == 0 then 0 else live[seg] - 1];
      }
      if live[seg] == 0 {
        segments := segments[seg := None];
        evicted := evicted - {seg};
        assert Now() == Written(before, seg, loc, value);
        EmptiedMatches(h, before, cache.Value(), seg, Now());
        cache.Remove(seg);
      } else {
        assert Now() == Written(before, seg, loc, value);
        RewrittenMatches(h, before, cache.Value(), seg, loc, value, columns, Now());
        cache.UpdateSlot(seg, loc, value, None);
      }
      dirty := dirty + {seg};
      exactDirty := exactDirty + {seg};
    }

    /** Apply a batch in order; later writes to an index win. An index out of range rejects the batch
        before anything changes. Evicted segments read as empty and come back with their first
        non-empty write; no segment's excess changes. */
    method ApplyDelta(deltas: seq<(nat, SlotValue)>) returns (result: Result<(), StateError>)
      requires Valid()
      modifies this`segments, this`live, this`evicted, this`dirty, this`exactDirty, cache
      ensures Valid()
      ensures result.Ok? <==> forall i :: 0 <= i < |deltas| ==> deltas[i].0 < Pow2(logSlots)
      ensures result.Err? ==> result.error == SlotOutOfRange
      ensures result.Err? ==> Now() == old(Now()) && exactDirty == old(exactDirty)
      ensures result.Ok? ==> Applied(old(Now()), deltas, Now())
      ensures old(exactDirty) <= exactDirty && evicted <= old(evicted) && SameExcept(old(Now()), Now(), exactDirty)
      ensures forall s :: s in exactDirty && s !in old(exactDirty) ==> s !in evicted
      ensures MarksOnly(old(Now()), deltas, old(exactDirty), exactDirty)
      ensures old(dirty) <= dirty && dirty - old(dirty) <= exactDirty && exactDirty - old(exactDirty) <= dirty
    {
      hide Pow2, Resident, CacheMatches, Quotient, Remainder, Written, Applied;
      for i := 0 to |deltas|
        invariant forall k :: 0 <= k < i ==> deltas[k].0 < Pow2(logSlots)
      {
        if deltas[i].0 >= Pow2(logSlots) {
          return Err(SlotOutOfRange);
        }
      }
      ghost var before := Now();
      AppliedNothing(before);
      assert MarksOnly(before, deltas[..0], old(exactDirty), exactDirty);
      for i := 0 to |deltas|
        invariant Valid() && Now().logSlots == before.logSlots && |segments| == |before.segments|
        invariant Applied(before, deltas[..i], Now())
        invariant old(exactDirty) <= exactDirty && evicted <= before.evicted && SameExcept(before, Now(), exactDirty)
        invariant forall s :: s in exactDirty && s !in old(exactDirty) ==> s !in evicted
        invariant MarksOnly(before, deltas[..i], old(exactDirty), exactDirty)
        invariant old(dirty) <= dirty && dirty - old(dirty) <= exactDirty && exactDirty - old(exactDirty) <= dirty
      {
        ghost var marked := exactDirty;
        var idx, value := deltas[i].0, deltas[i].1;
        var st := Now();
        IndexInside(st, idx);
        WrittenSlots(st, SegmentOf(st, idx), LocalOf(st, idx), value);
        WriteSlot(SegmentOf(st, idx), LocalOf(st, idx), value);
        AppliedOneMore(before, deltas[..i], st, idx, value);
        MarksOneMore(before, deltas, i, old(exactDirty), marked, exactDirty);
        SameAfterWrite(before, st, SegmentOf(st, idx), LocalOf(st, idx), value, exactDirty);
        assert deltas[..i + 1] == deltas[..i] + [(idx, value)];
      }
      assert deltas[..|deltas|] == deltas;
      return Ok(());
    }

    /** Drop a segment's columns; they stay in durable storage. */
    method EvictSegment(seg: SegmentId)
      requires Valid() && seg < |segments|
      modifies this`segments, this`evicted, cache
      ensures Valid()
      ensures old(segments)[seg].Some? ==> segments[seg].None? && evicted == old(evicted) + {seg}
      ensures old(segments)[seg].None? ==> Now() == old(Now())
      ensures forall s :: 0 <= s < |segments| && s != seg ==>
                segments[s] == old(segments)[s] && (s in evicted <==> s in old(evicted))
      ensures old(Now()).Exact() ==> Now().Exact()
    {
      hide Pow2, Resident;
      ghost var before := Now();
      if segments[seg].Some? {
        segments := segments[seg := None];
        evicted := evicted + {seg};
      }
      forall s | 0 <= s < |segments| ensures Now().SegmentOk(s) {
        assert before.SegmentOk(s);
      }
      RemovedMatches(h, before, cache.Value(), seg, Now());
      cache.Remove(seg);
    }

    /** Install columns loaded from durable storage. */
    method RestoreEvictedSegment(seg: SegmentId, columns: seq<SlotValue>)
      requires Valid() && seg < |segments| && |columns| == Now().Size()
      modifies this`segments, this`live, this`evicted, this`dirty, cache
      ensures Valid() && seg !in evicted && Now().Slots(seg) == columns && logSlots == old(logSlots)
      ensures |segments| == old(|segments|)
      ensures segments[seg] == (if CountLive(columns) == 0 then None else Some(columns))
      ensures live[seg] == CountLive(columns)
      ensures Now().Excess(seg) == 0 && (old(Now()).Exact() ==> Now().Exact()) && dirty == old(dirty) + {seg}
      ensures forall s :: 0 <= s < |segments| && s != seg ==>
                Now().Slots(s) == old(Now()).Slots(s) && (s in evicted <==> s in old(evicted))
    {
      hide Pow2, Resident, CacheMatches, CountLive, NumSegments, LogSegment, SegmentCache.Remove;
      ghost var before := Now();
      MatchingIsValid(h, before, cache.Value());
      var count := CountLive(columns);
      CountLiveZero(columns);
      live := live[seg := count];
      segments := segments[seg := if count == 0 then None else Some(columns)];
      evicted := evicted - {seg};
      dirty := dirty + {seg};
      forall s | 0 <= s < |segments| ensures Now().SegmentOk(s) {
        assert before.SegmentOk(s);
      }
      RemovedMatches(h, before, cache.Value(), seg, Now());
      cache.Remove(seg);
    }

    /** Double the domain; `completed` is false where the source aborts. */
    method Expand() returns (completed: bool)
      requires Valid() && logSlots < LOG_SLOTS_MAX
      modifies this`logSlots, this`segments, this`live, this`dirty, this`exactDirty, cache
      ensures Valid() && (completed <==> !ExpandAborts(old(Now())))
      ensures completed ==> Now() == Expanded(old(Now())) && (old(Now()).Exact() ==> Now().Exact())
      ensures !completed ==> Now() == old(Now()) && exactDirty == old(exactDirty)
      ensures completed ==> logSlots == old(logSlots) + 1
      ensures dirty == if completed && logSlots <= LOG_SEGMENT_SIZE then {} else old(dirty)
      ensures completed ==>
                exactDirty == if logSlots <= LOG_SEGMENT_SIZE then old(exactDirty) + {0} else old(exactDirty)
    {
      hide Pow2, Resident, CacheMatches, CountLive, SegmentCache.Remove;
      if ExpandAborts(Now()) {
        return false;
      }
      ghost var before := Now();
      ExpandedValid(before);
      MatchingIsValid(h, before, cache.Value());
      if logSlots + 1 <= LOG_SEGMENT_SIZE {
        SingleSegmentEmpties(h, before, cache.Value());
        cache.Remove(0);
        if segments[0].Some? {
          segments := segments[0 := Some(segments[0].value + ZeroSlots(Pow2(logSlots)))];
        }
        logSlots := logSlots + 1;
        dirty, exactDirty := {}, exactDirty + {0};
        assert Now() == Expanded(before);
        EmptyMatches(h, Now(), cache.Value());
      } else {
        WiderMatches(h, before, cache.Value());
        var n := |segments|;
        logSlots := logSlots + 1;
        segments := segments + seq(n, _ => None);
        live := live + seq(n, _ => 0);
      }
      return true;
    }

    /** One halving; `completed` is false where the flush before it aborts. */
    method ShrinkOnce() returns (completed: bool, result: Result<(), StateError>)
      requires Valid() && logSlots >= 1 && Now().SegmentOk(0)
      modifies this`logSlots, this`segments, this`live, this`evicted, this`dirty, this`exactDirty, cache
      ensures Valid() && (completed <==> old(dirty) * old(evicted) == {})
      ensures (!completed ==> Now() == old(Now()) && exactDirty == old(exactDirty))
      ensures completed ==> !FlushAborts() && (old(Now()).Exact() ==> Now().Exact())
      ensures dirty == if completed then {} else old(dirty)
      ensures completed ==>
                match ShrunkOnce(old(Now()))
                case Err(error) => result == Err(error) && Now() == old(Now()) && exactDirty == old(exactDirty)
                case Ok(next) =>
                  && result == Ok(()) && Now() == next
                  && exactDirty == Dirtied(old(Now()), old(exactDirty))
    {
      hide Pow2, Resident, CacheMatches, CountLive, LogSegment, SegmentCache.Remove, SegmentCache.TruncateSegments;
      if FlushAborts() {
        return false, Ok(());
      }
      dirty := {};
      ghost var before := Now();
      MatchingIsValid(h, before, cache.Value());
      if ShrunkOnce(before).Ok? { ShrunkValid(before); }
      match ShrunkOnce(Now()) {
        case Err(error) => return true, Err(error);
        case Ok(next) =>
          if logSlots <= LOG_SEGMENT_SIZE {
            SingleSegmentEmpties(h, before, cache.Value());
            cache.Remove(0);
            exactDirty := exactDirty + {0};
            EmptyMatches(h, next, cache.Value());
          } else {
            NarrowerMatches(h, before, cache.Value());
            cache.TruncateSegments(|segments| / 2);
            exactDirty := set s | s in exactDirty && s < |segments| / 2;
          }
          logSlots, segments, live, evicted := next.logSlots, next.segments, next.live, next.evicted;
          return true, Ok(());
      }
    }

    /** Roll back to an earlier depth: halve while the upper half is clear. No slot, eviction or count
        that stays in range changes, and a refusal comes at the first halving that would lose something.
        `completed` is false where the flush before the first halving aborts. */
    method ShrinkToLogSlots(target: nat) returns (completed: bool, result: Result<(), StateError>)
      requires Valid()
      modifies this`logSlots, this`segments, this`live, this`evicted, this`dirty, this`exactDirty, cache
      ensures Valid() && Narrows(old(Now()), Now()) && (old(Now()).Exact() ==> Now().Exact())
      ensures completed <==> (1 <= target < old(logSlots) ==> old(dirty) * old(evicted) == {})
      ensures target < 1 || target > old(logSlots) ==> result == Err(InvalidTarget)
      ensures !completed || target < 1 || target > old(logSlots) ==> Now() == old(Now())
      ensures dirty == if completed && 1 <= target < old(logSlots) then {} else old(dirty)
      ensures logSlots <= old(logSlots) && Prefixed(old(Now()), Now(), old(exactDirty), exactDirty)
      ensures completed && 1 <= target <= old(logSlots) ==>
                && (result.Ok? <==> ClearFrom(old(Now()), Pow2(target)))
                && (result.Ok? ==> logSlots == target)
                && ClearFrom(old(Now()), Pow2(logSlots))
                && (result.Err? ==> target < logSlots && !ClearFrom(old(Now()), Pow2(logSlots - 1)))
                && (result.Err? ==> Now().SegmentOk(0) && ShrunkOnce(Now()) == Err(result.error))
    {
      hide Pow2, Resident, CacheMatches, ShrunkOnce, ClearFrom, Narrows, Prefixed;
      ghost var before := Now();
      PrefixedItself(before, exactDirty);
      NarrowsItself(before);
      ClearToTheEnd(before);
      if target < 1 || target > logSlots {
        return true, Err(InvalidTarget);
      }
      while logSlots > target
        invariant Valid() && Narrows(before, Now()) && target <= logSlots <= before.logSlots
        invariant ClearFrom(before, Pow2(logSlots))
        invariant before.Exact() ==> Now().Exact()
        invariant logSlots < before.logSlots ==> !FlushAborts() && !old(FlushAborts())
        invariant logSlots == before.logSlots ==> Now() == before && dirty == old(dirty)
        invariant logSlots < before.logSlots ==> dirty == {}
        invariant Prefixed(before, Now(), old(exactDirty), exactDirty)
      {
        ghost var st := Now();
        assert st.SegmentOk(0);
        Pow2Monotone(target, logSlots - 1);
        Pow2Monotone(logSlots - 1, logSlots);
        ShrinksWhenClear(st);
        NarrowsClear(before, st, Pow2(logSlots - 1));
        ClearWider(before, Pow2(target), Pow2(logSlots - 1));
        if ShrunkOnce(st).Ok? {
          ShrunkValid(st);
          NarrowsFurther(before, st);
        }
        ghost var marked := exactDirty;
        var flushed, step := ShrinkOnce();
        if flushed && step.Ok? { PrefixedOnce(before, st, old(exactDirty), marked); }
        if !flushed || step.Err? {
          return flushed, step;
        }
      }
      return true, Ok(());
    }
  }
}
