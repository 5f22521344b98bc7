/** The byte-budgeted cache keeps its entries in the order of their last insertion or slot write, over every
    run; a lookup changes nothing.
 */
module CacheRecency {
  import opened Wrappers
  import opened ExactStateHash
  import opened SegmentTree
  import opened SegmentTreeObject
  import opened SegmentCache
  import opened CacheRuns

  /** When each segment was last inserted or written, counting operations. */
  type Times = map<SegmentId, nat>

  ghost function Named(times: Times, now: nat, op: Op): Times {
    if op.InsertTree? || op.WriteSlot? then times[op.id := now] else times
  }

  ghost function LastNamed(times: Times, now: nat, ops: seq<Op>): Times
    decreases |ops|
  {
    if ops == [] then times else LastNamed(Named(times, now, ops[0]), now + 1, ops[1..])
  }

  ghost predicate InOrder(entries: seq<Entry>, times: Times, now: nat) {
    && (forall i :: 0 <= i < |entries| ==> entries[i].id in times && times[entries[i].id] < now)
    && (forall i, j :: 0 <= i < j < |entries| ==> times[entries[i].id] < times[entries[j].id])
  }

  lemma {:induction false} CutInOrder(entries: seq<Entry>, k: nat, times: Times, now: nat)
    requires InOrder(entries, times, now) && k < |entries|
    ensures InOrder(Cut(entries, k), times, now)
    ensures forall i :: 0 <= i < |Cut(entries, k)| ==> Cut(entries, k)[i].id != entries[k].id
  {
    var cut := Cut(entries, k);
    forall i | 0 <= i < |cut| ensures cut[i] == entries[if i < k then i else i + 1] {
    }
  }

  lemma {:induction false} RetainInOrder(entries: seq<Entry>, count: nat, times: Times, now: nat)
    requires InOrder(entries, times, now)
    ensures InOrder(Retain(entries, count), times, now)
  {
    if entries != [] {
      var rest := entries[1..];
      SuffixInOrder(entries, 1, times, now);
      RetainInOrder(rest, count, times, now);
      RetainedExactly(rest, count);
      var kept := Retain(rest, count);
      forall j | 0 <= j < |kept| ensures times[entries[0].id] < times[kept[j].id] {
        FirstIsOldest(entries, kept[j], times, now);
      }
      PrependInOrder(entries[0], kept, times, now);
    }
  }

  lemma {:induction false} FirstIsOldest(entries: seq<Entry>, e: Entry, times: Times, now: nat)
    requires InOrder(entries, times, now) && entries != [] && e in entries[1..]
    ensures e.id in times && times[entries[0].id] < times[e.id]
  {
    var k :| 0 <= k < |entries[1..]| && entries[1..][k] == e;
    assert entries[k + 1] == e;
  }

  lemma {:induction false} PrependInOrder(e: Entry, kept: seq<Entry>, times: Times, now: nat)
    requires InOrder(kept, times, now) && e.id in times && times[e.id] < now
    requires forall j :: 0 <= j < |kept| ==> times[e.id] < times[kept[j].id]
    ensures InOrder([e] + kept, times, now)
  {
  }

  lemma {:induction false} SuffixInOrder(entries: seq<Entry>, n: nat, times: Times, now: nat)
    requires InOrder(entries, times, now) && n <= |entries|
    ensures InOrder(entries[n..], times, now)
  {
  }

  /** A segment named now goes behind all others. */
  lemma {:induction false} NamedLast(entries: seq<Entry>, e: Entry, times: Times, now: nat)
    requires InOrder(entries, times, now) && forall i :: 0 <= i < |entries| ==> entries[i].id != e.id
    ensures InOrder(entries, times[e.id := now], now + 1) && InOrder(entries + [e], times[e.id := now], now + 1)
  {
  }

  lemma {:induction false} RemoveInOrder(c: Cache, id: SegmentId, times: Times, now: nat)
    requires c.Valid() && InOrder(c.entries, times, now)
    ensures InOrder(Remove(c, id).entries, times, now)
    ensures forall i :: 0 <= i < |Remove(c, id).entries| ==> Remove(c, id).entries[i].id != id
  {
    hide Resident;
    var k := Position(c.entries, id);
    if k < |c.entries| { CutInOrder(c.entries, k, times, now); }
  }

  lemma {:induction false} InsertInOrder(c: Cache, id: SegmentId, tree: Tree, times: Times, now: nat)
    requires c.Valid() && InOrder(c.entries, times, now) && Insert(c, id, tree).Some?
    ensures InOrder(Insert(c, id, tree).value.entries, times[id := now], now + 1)
  {
    hide Resident, Insert, Remove, InOrder;
    RemoveInOrder(c, id, times, now);
    var n := InsertOutcome(c, id, tree);
    var others := Remove(c, id).entries;
    if tree.ResidentBytes() > c.budget {
      NamedLast(others, Entry(id, tree), times, now);
    } else {
      SuffixInOrder(others, n, times, now);
      NamedLast(others[n..], Entry(id, tree), times, now);
    }
  }

  lemma {:induction false} WriteInOrder(h: Hasher, c: Cache, id: SegmentId, local: nat, value: SlotValue,
                                        clone: Option<Capacities>, times: Times, now: nat)
    requires c.Valid() && InOrder(c.entries, times, now) && WritableAt(c, id, local, clone)
    ensures InOrder(UpdateSlot(h, c, id, local, value, clone).entries, times[id := now], now + 1)
  {
    hide Resident, InOrder, SetSlotNodes;
    var k := Position(c.entries, id);
    if k < |c.entries| {
      var tree := Recapacitate(c.entries[k].tree, clone).SetSlot(h, local, value);
      CutInOrder(c.entries, k, times, now);
      NamedLast(Cut(c.entries, k), Entry(id, tree), times, now);
    } else if c.entries != [] {
      NamedLast(c.entries, Entry(id, c.entries[0].tree), times, now);
    } else {
      NothingInOrder(times[id := now], now + 1);
    }
  }

  lemma {:induction false} NothingInOrder(times: Times, now: nat)
    ensures InOrder([], times, now)
  {
  }

  lemma {:induction false} StepInOrder(h: Hasher, c: Cache, op: Op, times: Times, now: nat)
    requires c.Valid() && InOrder(c.entries, times, now) && Enabled(c, op) && Step(h, c, op).Some?
    ensures InOrder(Step(h, c, op).value.entries, Named(times, now, op), now + 1)
  {
    match op
    case InsertTree(id, tree) => InsertInOrder(c, id, tree, times, now);
    case RemoveTree(id) => RemoveInOrder(c, id, times, now);
    case WriteSlot(id, local, value, clone) => WriteInOrder(h, c, id, local, value, clone, times, now);
    case ClearAll =>
    case Truncate(count) => RetainInOrder(c.entries, count, times, now);
  }

  /** After every run the entries stand in the order of their last insertion or slot write. */
  lemma {:induction false} RunIsRecent(h: Hasher, c: Cache, ops: seq<Op>, times: Times, now: nat)
    requires c.Valid() && InOrder(c.entries, times, now) && RunEnabled(h, c, ops) && Run(h, c, ops).Some?
    ensures InOrder(Run(h, c, ops).value.entries, LastNamed(times, now, ops), now + |ops|)
    decreases |ops|
  {
    hide Resident, InOrder, Step, Named;
    if ops != [] {
      StepAccounting(h, c, ops[0]);
      StepInOrder(h, c, ops[0], times, now);
      RunIsRecent(h, Step(h, c, ops[0]).value, ops[1..], Named(times, now, ops[0]), now + 1);
    }
  }

  /** Truncation keeps exactly the ids below the count, in the order they had, and counts their bytes. */
  lemma {:induction false} TruncatedExactly(c: Cache, count: nat)
    requires UniqueIds(c.entries)
    ensures var kept := TruncateSegments(c, count).entries;
            && (forall e :: e in kept <==> e in c.entries && e.id < count)
            && (forall i, j :: 0 <= i < j < |kept| ==>
                  Position(c.entries, kept[i].id) < Position(c.entries, kept[j].id) < |c.entries|)
            && TruncateSegments(c, count).bytes == Resident(kept) && TruncateSegments(c, count).budget == c.budget
  {
    hide Resident;
    var entries, kept := c.entries, Retain(c.entries, count);
    RetainedExactly(entries, count);
    forall i, j | 0 <= i < j < |kept|
      ensures Position(entries, kept[i].id) < Position(entries, kept[j].id) < |entries| {
      var p, q := RetainedBefore(entries, count, i, j);
      LookupUnique(entries, p);
      LookupUnique(entries, q);
    }
  }

  lemma {:induction false} RetainedExactly(entries: seq<Entry>, count: nat)
    ensures forall e :: e in Retain(entries, count) <==> e in entries && e.id < count
  {
    if entries != [] {
      RetainedExactly(entries[1..], count);
      assert entries == [entries[0]] + entries[1..];
    }
  }

  lemma {:induction false} RetainedBefore(entries: seq<Entry>, count: nat, i: nat, j: nat) returns (p: nat, q: nat)
    requires i < j < |Retain(entries, count)|
    ensures p < q < |entries| && entries[p] == Retain(entries, count)[i] && entries[q] == Retain(entries, count)[j]
    decreases |entries|
  {
    hide Retain;
    RetainFirst(entries, count);
    var rest := entries[1..];
    if entries[0].id >= count {
      p, q := RetainedBefore(rest, count, i, j);
      p, q := p + 1, q + 1;
    } else if i > 0 {
      p, q := RetainedBefore(rest, count, i - 1, j - 1);
      p, q := p + 1, q + 1;
    } else {
      q := RetainedAt(rest, count, j - 1);
      p, q := 0, q + 1;
    }
  }

  lemma {:induction false} RetainFirst(entries: seq<Entry>, count: nat)
    requires Retain(entries, count) != []
    ensures entries != []
    ensures Retain(entries, count) ==
            (if entries[0].id < count then [entries[0]] else []) + Retain(entries[1..], count)
  {
  }

  lemma {:induction false} RetainedAt(entries: seq<Entry>, count: nat, j: nat) returns (q: nat)
    requires j < |Retain(entries, count)|
    ensures q < |entries| && entries[q] == Retain(entries, count)[j]
  {
    RetainedExactly(entries, count);
    assert Retain(entries, count)[j] in entries;
    q :| 0 <= q < |entries| && entries[q] == Retain(entries, count)[j];
  }
}
