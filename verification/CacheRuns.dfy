/** Whole runs of the cache: byte accounting, and agreement with the columns. */
module CacheRuns {
  import opened Wrappers
  import opened Powers
  import opened ExactStateHash
  import opened SegmentTree
  import opened SegmentTreeObject
  import opened SegmentCache

  datatype Op =
    | InsertTree(id: SegmentId, tree: Tree)
    | RemoveTree(id: SegmentId)
    | WriteSlot(id: SegmentId, local: nat, value: SlotValue, clone: Option<Capacities>)
    | ClearAll
    | Truncate(count: nat)

  ghost predicate Enabled(c: Cache, op: Op) {
    match op
    case InsertTree(_, tree) => tree.Valid()
    case WriteSlot(id, local, _, clone) => WritableAt(c, id, local, clone)
    case _ => true
  }

  /** Copies made by this operation keep the capacity of the original. */
  ghost predicate Preserving(c: Cache, op: Op) {
    op.WriteSlot? && Lookup(c, op.id).Some? ==> PreservingClone(Lookup(c, op.id).value, op.clone)
  }

  function Step(h: Hasher, c: Cache, op: Op): Option<Cache>
    requires Resident(c.entries) <= c.bytes && Enabled(c, op)
  {
    match op
    case InsertTree(id, tree) => Insert(c, id, tree)
    case RemoveTree(id) => Some(Remove(c, id))
    case WriteSlot(id, local, value, clone) => Some(UpdateSlot(h, c, id, local, value, clone))
    case ClearAll => Some(Clear(c))
    case Truncate(count) => Some(TruncateSegments(c, count))
  }

  // ------------------------------------------------------------- single steps

  /** Trees of these entries are valid and no two entries share an id. */
  ghost predicate GoodEntries(entries: seq<Entry>) {
    UniqueIds(entries) && forall i :: 0 <= i < |entries| ==> entries[i].tree.Valid()
  }

  lemma {:induction false} AppendGood(entries: seq<Entry>, e: Entry)
    requires GoodEntries(entries) && e.tree.Valid()
    requires forall i :: 0 <= i < |entries| ==> entries[i].id != e.id
    ensures GoodEntries(entries + [e])
    ensures Resident(entries + [e]) == Resident(entries) + e.tree.ResidentBytes()
  {
    ResidentConcat(entries, [e]);
  }

  lemma {:induction false} RemovedIsGone(c: Cache, id: SegmentId)
    requires c.Valid()
    ensures forall i :: 0 <= i < |Remove(c, id).entries| ==> Remove(c, id).entries[i].id != id
    ensures forall e :: e in Remove(c, id).entries ==> e in c.entries
  {
    hide Resident;
    RemoveKeepsValid(c, id);
  }

  lemma {:induction false} InsertKeepsValid(c: Cache, id: SegmentId, tree: Tree)
    requires c.Valid() && tree.Valid() && Insert(c, id, tree).Some?
    ensures Insert(c, id, tree).value.Valid()
    ensures Insert(c, id, tree).value.Drift() == c.Drift() && Insert(c, id, tree).value.budget == c.budget
    ensures forall e :: e in Insert(c, id, tree).value.entries ==> e in c.entries || e == Entry(id, tree)
  {
    hide Evict, Remove, Resident;
    RemoveKeepsValid(c, id);
    RemoveAccounts(c, id);
    var others := Remove(c, id).entries;
    var n := InsertOutcome(c, id, tree);
    if tree.ResidentBytes() <= c.budget {
      RemovedIsGone(c, id);
      var kept := others[n..];
      assert forall i :: 0 <= i < |kept| ==> kept[i] == others[n + i];
      AppendGood(kept, Entry(id, tree));
    }
  }

  lemma {:induction false} UpdateKeepsValid(h: Hasher, c: Cache, id: SegmentId, local: nat, value: SlotValue,
                                            clone: Option<Capacities>)
    requires c.Valid() && WritableAt(c, id, local, clone)
    ensures UpdateSlot(h, c, id, local, value, clone).Valid()
    ensures UpdateSlot(h, c, id, local, value, clone).Drift() >= c.Drift()
    ensures Lookup(c, id).Some? && PreservingClone(Lookup(c, id).value, clone) ==>
              UpdateSlot(h, c, id, local, value, clone).Drift() == c.Drift()
  {
    hide Resident, SetSlotNodes, Pow2;
    var k := Position(c.entries, id);
    if k < |c.entries| {
      var tree := Recapacitate(c.entries[k].tree, clone).SetSlot(h, local, value);
      var cut := Cut(c.entries, k);
      CutKeepsValid(c.entries, k);
      ResidentCut(c.entries, k);
      forall i | 0 <= i < |cut| ensures cut[i].tree.Valid() {
        assert cut[i] in c.entries;
      }
      AppendGood(cut, Entry(id, tree));
    }
  }

  lemma {:induction false} RetainKeeps(entries: seq<Entry>, count: nat)
    ensures Resident(Retain(entries, count)) <= Resident(entries)
    ensures UniqueIds(entries) ==> UniqueIds(Retain(entries, count))
  {
    if entries != [] {
      RetainKeeps(entries[1..], count);
      var kept := Retain(entries[1..], count);
      forall j | UniqueIds(entries) && 0 <= j < |kept| ensures kept[j].id != entries[0].id {
        assert kept[j] in entries[1..];
      }
    }
  }

  lemma {:induction false} TruncateKeepsValid(c: Cache, count: nat)
    requires c.Valid()
    ensures TruncateSegments(c, count).Valid() && TruncateSegments(c, count).Drift() == 0
    ensures forall id: SegmentId :: id >= count ==> Lookup(TruncateSegments(c, count), id).None?
  {
    RetainKeeps(c.entries, count);
  }

  /** One step: validity, when it aborts, and what happens to the drift. */
  lemma {:induction false} StepAccounting(h: Hasher, c: Cache, op: Op)
    requires c.Valid() && Enabled(c, op)
    ensures Step(h, c, op).None? <==>
              op.InsertTree? && op.tree.ResidentBytes() <= c.budget && c.Drift() + op.tree.ResidentBytes() > c.budget
    ensures Step(h, c, op).Some? ==> Step(h, c, op).value.Valid() && Step(h, c, op).value.budget == c.budget
    ensures c.Drift() == 0 && Preserving(c, op) ==> Step(h, c, op).Some? && Step(h, c, op).value.Drift() == 0
  {
    match op
    case InsertTree(id, tree) =>
      var n := InsertOutcome(c, id, tree);
      if Insert(c, id, tree).Some? { InsertKeepsValid(c, id, tree); }
    case RemoveTree(id) =>
      RemoveKeepsValid(c, id);
      RemoveAccounts(c, id);
    case WriteSlot(id, local, value, clone) =>
      UpdateKeepsValid(h, c, id, local, value, clone);
    case ClearAll =>
    case Truncate(count) =>
      TruncateKeepsValid(c, count);
  }

  // --------------------------------------------------------------------- runs

  /** A run, as far as it gets: each operation is enabled where it happens. */
  ghost predicate RunEnabled(h: Hasher, c: Cache, ops: seq<Op>)
    decreases |ops|
  {
    ops == [] ||
    (&& Resident(c.entries) <= c.bytes
     && Enabled(c, ops[0])
     && (Step(h, c, ops[0]).Some? ==> RunEnabled(h, Step(h, c, ops[0]).value, ops[1..])))
  }

  ghost predicate RunPreserving(h: Hasher, c: Cache, ops: seq<Op>)
    requires RunEnabled(h, c, ops)
    decreases |ops|
  {
    ops == [] ||
    (&& Preserving(c, ops[0])
     && (Step(h, c, ops[0]).Some? ==> RunPreserving(h, Step(h, c, ops[0]).value, ops[1..])))
  }

  ghost function Run(h: Hasher, c: Cache, ops: seq<Op>): Option<Cache>
    requires RunEnabled(h, c, ops)
    decreases |ops|
  {
    if ops == [] then Some(c)
    else
      match Step(h, c, ops[0])
      case None => None
      case Some(next) => Run(h, next, ops[1..])
  }

  /** Every run stays within its budget and never counts less than is resident.
      If copies keep their capacity it never aborts and counts exactly. */
  lemma {:induction false} RunAccounting(h: Hasher, c: Cache, ops: seq<Op>)
    requires c.Valid() && RunEnabled(h, c, ops)
    ensures Run(h, c, ops).Some? ==>
              Resident(Run(h, c, ops).value.entries) <= Run(h, c, ops).value.bytes <= c.budget
    ensures Run(h, c, ops).Some? ==> UniqueIds(Run(h, c, ops).value.entries)
    ensures c.Drift() == 0 && RunPreserving(h, c, ops) ==>
              && Run(h, c, ops).Some?
              && Run(h, c, ops).value.bytes == Resident(Run(h, c, ops).value.entries)
    decreases |ops|
  {
    if ops != [] {
      StepAccounting(h, c, ops[0]);
      if Step(h, c, ops[0]).Some? {
        RunAccounting(h, Step(h, c, ops[0]).value, ops[1..]);
      }
    }
  }

  /** The capacity hypothesis is needed: one copy that reserves less than its
      original lets a later insertion abort on an empty cache. */
  lemma {:induction false} ShrinkingCopyAborts(h: Hasher, z: StateHash, value: SlotValue)
    ensures var tree := Tree(0, [z, z], [z], 4, 1, 0);
            var ops := [InsertTree(0, tree), WriteSlot(0, 0, value, Some(Capacities(2, 1))), RemoveTree(0),
                        InsertTree(1, tree)];
            && tree.Valid()
            && RunEnabled(h, Cache([], 0, 160), ops)
            && Run(h, Cache([], 0, 160), ops) == None
  {
    var tree := Tree(0, [z, z], [z], 4, 1, 0);
    var write, remove, again := WriteSlot(0, 0, value, Some(Capacities(2, 1))), RemoveTree(0), InsertTree(1, tree);
    var c0, c1 := Cache([], 0, 160), Cache([Entry(0, tree)], 160, 160);
    assert Resident(c1.entries) == 160;
    assert Remove(c0, 0) == c0;
    assert Step(h, c0, InsertTree(0, tree)) == Some(c1) by {
      assert c0.entries + [Entry(0, tree)] == c1.entries;
    }
    var shrunk := Recapacitate(tree, write.clone).SetSlot(h, 0, value);
    var c2, c3 := Cache([Entry(0, shrunk)], 160, 160), Cache([], 64, 160);
    assert shrunk.ResidentBytes() == 96;
    assert Resident(c2.entries) == 96;
    assert Step(h, c1, write) == Some(c2) by {
      assert Cut(c1.entries, 0) + [Entry(0, shrunk)] == c2.entries;
    }
    assert Step(h, c2, remove) == Some(c3) by {
      assert Cut(c2.entries, 0) == c3.entries;
    }
    assert Remove(c3, 1) == c3;
    assert Step(h, c3, again) == None;
    RunStep(h, c3, again, []);
    RunStep(h, c2, remove, [again]);
    RunStep(h, c1, write, [remove, again]);
    RunStep(h, c0, InsertTree(0, tree), [write, remove, again]);
    assert [InsertTree(0, tree)] + [write, remove, again] == [InsertTree(0, tree), write, remove, again];
  }

  lemma {:induction false} RunStep(h: Hasher, c: Cache, op: Op, rest: seq<Op>)
    requires Resident(c.entries) <= c.bytes && Enabled(c, op)
    requires Step(h, c, op).Some? ==> RunEnabled(h, Step(h, c, op).value, rest)
    ensures RunEnabled(h, c, [op] + rest)
    ensures Run(h, c, [op] + rest) == match Step(h, c, op) case None => None case Some(next) => Run(h, next, rest)
  {
    assert ([op] + rest)[1..] == rest;
  }

  // ------------------------------------------------- agreement with the columns

  type Columns = map<SegmentId, seq<SlotValue>>

  /** Every cached tree is a rebuild of its segment's current columns. */
  ghost predicate Coherent(h: Hasher, c: Cache, columns: Columns) {
    forall e :: e in c.entries ==> e.id in columns && e.tree.Commits(h, columns[e.id])
  }

  /** What happens to the columns, each with the cache call that mirrors it. */
  datatype Event =
    | Rebuild(id: SegmentId, log: nat, capacities: Capacities, columnBytes: nat)
    | Write(id: SegmentId, local: nat, value: SlotValue, clone: Option<Capacities>)
    | Replace(id: SegmentId, slots: seq<SlotValue>)
    | Drop(id: SegmentId)
    | DropAll
    | Shrink(count: nat)

  ghost predicate Possible(c: Cache, columns: Columns, event: Event) {
    match event
    case Rebuild(id, log, capacities, _) =>
      && id in columns && |columns[id]| == Pow2(log)
      && capacities.nodes >= 2 * Pow2(log) && capacities.zeros >= log + 1
    case Write(id, local, _, clone) =>
      && id in columns && local < |columns[id]|
      && (Lookup(c, id).Some? ==> PlausibleClone(Lookup(c, id).value, clone))
    case _ => true
  }

  function ColumnsAfter(columns: Columns, event: Event): Columns {
    match event
    case Write(id, local, value, _) =>
      if id in columns && local < |columns[id]| then columns[id := columns[id][local := value]] else columns
    case Replace(id, slots) => columns[id := slots]
    case _ => columns
  }

  function CallFor(h: Hasher, columns: Columns, event: Event): Op
    requires event.Rebuild? ==> event.id in columns
  {
    match event
    case Rebuild(id, log, capacities, columnBytes) =>
      InsertTree(id, Tree(log, FreshNodes(h, columns[id]), ZeroRoots(h, log), capacities.nodes, capacities.zeros,
                          columnBytes))
    case Write(id, local, value, clone) => WriteSlot(id, local, value, clone)
    case Replace(id, _) => RemoveTree(id)
    case Drop(id) => RemoveTree(id)
    case DropAll => ClearAll
    case Shrink(count) => Truncate(count)
  }

  lemma {:induction false} EventEnabled(h: Hasher, c: Cache, columns: Columns, event: Event)
    requires c.Valid() && Coherent(h, c, columns) && Possible(c, columns, event)
    ensures Enabled(c, CallFor(h, columns, event))
  {
    if event.Write? && Lookup(c, event.id).Some? {
      assert c.entries[Position(c.entries, event.id)] in c.entries;
    }
  }

  lemma {:induction false} WriteKeepsCoherent(h: Hasher, c: Cache, columns: Columns, id: SegmentId, local: nat,
                                              value: SlotValue, clone: Option<Capacities>)
    requires c.Valid() && Coherent(h, c, columns) && WritableAt(c, id, local, clone)
    requires id in columns && local < |columns[id]|
    ensures Coherent(h, UpdateSlot(h, c, id, local, value, clone), columns[id := columns[id][local := value]])
  {
    hide SetSlotNodes, FreshNodes, Pow2, ZeroRoots;
    var k := Position(c.entries, id);
    if k < |c.entries| {
      CutKeepsValid(c.entries, k);
      var tree := Recapacitate(c.entries[k].tree, clone);
      assert c.entries[k] in c.entries;
      SetSlotCommits(h, tree, columns[id], local, value);
      var cut := Cut(c.entries, k);
      forall e | e in cut ensures e.id != id {
        var i :| 0 <= i < |cut| && cut[i] == e;
      }
    } else {
      forall e | e in c.entries ensures e.id != id {
        var i :| 0 <= i < |c.entries| && c.entries[i] == e;
      }
    }
  }

  lemma {:induction false} EventKeepsCoherent(h: Hasher, c: Cache, columns: Columns, event: Event)
    requires c.Valid() && Coherent(h, c, columns) && Possible(c, columns, event)
    requires Enabled(c, CallFor(h, columns, event)) && Step(h, c, CallFor(h, columns, event)).Some?
    ensures Coherent(h, Step(h, c, CallFor(h, columns, event)).value, ColumnsAfter(columns, event))
  {
    hide SetSlotNodes, FreshNodes, Pow2, ZeroRoots, Resident, Evict;
    match event
    case Rebuild(id, log, capacities, columnBytes) =>
      InsertKeepsValid(c, id, CallFor(h, columns, event).tree);
    case Write(id, local, value, clone) =>
      WriteKeepsCoherent(h, c, columns, id, local, value, clone);
    case Replace(id, slots) =>
      RemoveKeepsValid(c, id);
      var removed := Remove(c, id);
      forall e | e in removed.entries ensures e.id != id {
        var i :| 0 <= i < |removed.entries| && removed.entries[i] == e;
      }
    case Drop(id) =>
      RemoveKeepsValid(c, id);
    case DropAll =>
    case Shrink(count) =>
      forall e | e in Retain(c.entries, count) ensures e in c.entries {
        var i :| 0 <= i < |Retain(c.entries, count)| && Retain(c.entries, count)[i] == e;
      }
  }

  /** A history of columns and cache together, as far as it gets. */
  ghost predicate History(h: Hasher, c: Cache, columns: Columns, events: seq<Event>, c': Cache, columns': Columns)
    decreases |events|
  {
    if events == [] then c' == c && columns' == columns
    else
      && Possible(c, columns, events[0])
      && Resident(c.entries) <= c.bytes
      && Enabled(c, CallFor(h, columns, events[0]))
      && Step(h, c, CallFor(h, columns, events[0])).Some?
      && History(h, Step(h, c, CallFor(h, columns, events[0])).value, ColumnsAfter(columns, events[0]), events[1..], c',
                 columns')
  }

  lemma {:induction false} HistoryStaysCoherent(h: Hasher, c: Cache, columns: Columns, events: seq<Event>, c': Cache,
                                                columns': Columns)
    requires c.Valid() && Coherent(h, c, columns) && History(h, c, columns, events, c', columns')
    ensures c'.Valid() && Coherent(h, c', columns')
    decreases |events|
  {
    hide SetSlotNodes, FreshNodes, Pow2, ZeroRoots, Resident, Evict;
    if events != [] {
      var call := CallFor(h, columns, events[0]);
      StepAccounting(h, c, call);
      EventKeepsCoherent(h, c, columns, events[0]);
      HistoryStaysCoherent(h, Step(h, c, call).value, ColumnsAfter(columns, events[0]), events[1..], c', columns');
    }
  }

  /** Every aligned range inside the segment reads as the plain root of its slots, and no other range reads. */
  ghost predicate ReadsAre(h: Hasher, log: nat, nodes: seq<StateHash>, slots: seq<SlotValue>)
    requires |nodes| == 2 * Pow2(log)
  {
    forall level: nat, index: nat ::
      && (SubtreeRoot(log, nodes, level, index).Some? <==> (index + 1) * Pow2(level) <= |slots|)
      && (SubtreeRoot(log, nodes, level, index).Some? ==>
            SubtreeRoot(log, nodes, level, index).value == SlotsRoot(h, level, Slice(slots, level, index)))
  }

  lemma {:induction false} FreshReads(h: Hasher, log: nat, slots: seq<SlotValue>)
    requires |slots| == Pow2(log)
    ensures ReadsAre(h, log, FreshNodes(h, slots), slots)
  {
    hide SubtreeRoot, FreshNodes, Slice, SlotsRoot, Pow2;
    forall level: nat, index: nat
      ensures var answer := SubtreeRoot(log, FreshNodes(h, slots), level, index);
              && (answer.Some? <==> (index + 1) * Pow2(level) <= |slots|)
              && (answer.Some? ==> answer.value == SlotsRoot(h, level, Slice(slots, level, index))) {
      SubtreeRootIsSliceRoot(h, log, slots, level, index);
      if (index + 1) * Pow2(level) <= |slots| { FreshRoot(h, level, Slice(slots, level, index)); }
    }
  }

  lemma {:induction false} FreshRoot(h: Hasher, log: nat, slots: seq<SlotValue>)
    requires |slots| == Pow2(log)
    ensures FreshNodes(h, slots)[1] == SlotsRoot(h, log, slots)
  {
    RootHeadsTree(h, log, HashLeaves(h, slots));
  }

  /** Whatever the cache returns for a segment carries the root of its columns, and every interior read
      of it is the root of that range of the columns. */
  ghost predicate AnswersCurrent(h: Hasher, c: Cache, columns: Columns) {
    forall id: SegmentId :: Lookup(c, id).Some? ==>
      var tree := Lookup(c, id).value;
      && id in columns && |columns[id]| == Pow2(tree.log) && |tree.nodes| == 2 * Pow2(tree.log)
      && tree.nodes[1] == SlotsRoot(h, tree.log, columns[id])
      && ReadsAre(h, tree.log, tree.nodes, columns[id])
  }

  lemma {:induction false} CoherentAnswers(h: Hasher, c: Cache, columns: Columns)
    requires c.Valid() && Coherent(h, c, columns)
    ensures AnswersCurrent(h, c, columns)
  {
    hide ReadsAre, FreshNodes, SlotsRoot, Pow2;
    forall id: SegmentId | Lookup(c, id).Some?
      ensures var tree := Lookup(c, id).value;
              && id in columns && |columns[id]| == Pow2(tree.log) && |tree.nodes| == 2 * Pow2(tree.log)
              && tree.nodes[1] == SlotsRoot(h, tree.log, columns[id])
              && ReadsAre(h, tree.log, tree.nodes, columns[id])
    {
      var e := c.entries[Position(c.entries, id)];
      assert e in c.entries;
      FreshRoot(h, e.tree.log, columns[id]);
      FreshReads(h, e.tree.log, columns[id]);
    }
  }

  /** Over every history from an empty cache, every answer is current. */
  lemma {:induction false} EveryHistoryIsCurrent(h: Hasher, budget: nat, columns: Columns, events: seq<Event>,
                                                 c': Cache, columns': Columns)
    requires History(h, Cache([], 0, budget), columns, events, c', columns')
    ensures UniqueIds(c'.entries) && AnswersCurrent(h, c', columns')
  {
    hide AnswersCurrent, History;
    HistoryStaysCoherent(h, Cache([], 0, budget), columns, events, c', columns');
    CoherentAnswers(h, c', columns');
  }
}
