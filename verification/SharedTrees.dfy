/** Clones of a cache share their trees until one of them writes a slot.

    A `World` holds every tree once, and caches hold references to them. A slot
    write edits the tree in place when its cache is the only owner and otherwise
    moves that cache to a copy, which may reserve less than its original.
 */
module SharedTrees {
  import opened Wrappers
  import opened Powers
  import opened ExactStateHash
  import opened SegmentTree
  import opened SegmentTreeObject
  import opened SegmentCache
  import opened CacheRuns

  type Ref = nat

  datatype RefEntry = RefEntry(id: SegmentId, ref: Ref)

  datatype RefCache = RefCache(entries: seq<RefEntry>, bytes: nat, budget: nat)

  datatype World = World(heap: map<Ref, Tree>, caches: seq<RefCache>)

  ghost predicate RefsIn(heap: map<Ref, Tree>, entries: seq<RefEntry>) {
    forall k :: 0 <= k < |entries| ==> entries[k].ref in heap
  }

  ghost function Deref(heap: map<Ref, Tree>, entries: seq<RefEntry>): (r: seq<Entry>)
    requires RefsIn(heap, entries)
    ensures |r| == |entries|
    ensures forall k :: 0 <= k < |r| ==> r[k] == Entry(entries[k].id, heap[entries[k].ref])
  {
    seq(|entries|, k requires 0 <= k < |entries| => Entry(entries[k].id, heap[entries[k].ref]))
  }

  /** What one cache observes. */
  ghost function View(w: World, i: nat): Cache
    requires i < |w.caches| && RefsIn(w.heap, w.caches[i].entries)
  {
    Cache(Deref(w.heap, w.caches[i].entries), w.caches[i].bytes, w.caches[i].budget)
  }

  ghost predicate Valid(w: World) {
    forall i :: 0 <= i < |w.caches| ==>
      RefsIn(w.heap, w.caches[i].entries) && View(w, i).Valid()
  }

  /** Entry `k` of cache `i` is the only reference to its tree. */
  ghost predicate SoleOwner(w: World, i: nat, k: nat)
    requires i < |w.caches| && k < |w.caches[i].entries|
  {
    forall i', k' :: 0 <= i' < |w.caches| && 0 <= k' < |w.caches[i'].entries| ==>
      w.caches[i'].entries[k'].ref != w.caches[i].entries[k].ref || (i' == i && k' == k)
  }

  /** Some reference not in use. */
  ghost function Fresh(heap: map<Ref, Tree>): (r: Ref)
    ensures r !in heap
  {
    SomeUnused(heap.Keys);
    var r: Ref :| r !in heap.Keys;
    r
  }

  lemma {:induction false} SomeUnused(keys: set<Ref>)
    ensures exists r: Ref :: r !in keys
  {
    var m := Largest(keys);
    assert m + 1 !in keys;
  }

  lemma {:induction false} Largest(keys: set<Ref>) returns (m: Ref)
    ensures forall k :: k in keys ==> k <= m
    decreases keys
  {
    m := 0;
    if keys != {} {
      var k :| k in keys;
      var rest := keys - {k};
      m := Largest(rest);
      if k > m { m := k; }
      assert keys == rest + {k};
    }
  }

  // -------------------------------------------------------------------- steps

  /** A slot write copies exactly when the tree has another owner. */
  ghost predicate Shareable(w: World, i: nat, op: Op)
    requires Valid(w) && i < |w.caches|
  {
    && Enabled(View(w, i), op)
    && (op.WriteSlot? && Lookup(View(w, i), op.id).Some? ==>
          (op.clone.None? <==> SoleOwner(w, i, Position(View(w, i).entries, op.id))))
  }

  ghost function WriteShared(h: Hasher, w: World, i: nat, id: SegmentId, local: nat, value: SlotValue,
                             clone: Option<Capacities>): World
    requires Valid(w) && i < |w.caches| && Shareable(w, i, WriteSlot(id, local, value, clone))
  {
    var c, entries := View(w, i), w.caches[i].entries;
    var k := Position(c.entries, id);
    if k == |entries| then w
    else
      var ref := entries[k].ref;
      var tree := Recapacitate(w.heap[ref], clone).SetSlot(h, local, value);
      var target := if clone.None? then ref else Fresh(w.heap);
      var moved := entries[..k] + entries[k + 1..] + [RefEntry(id, target)];
      World(w.heap[target := tree], w.caches[i := w.caches[i].(entries := moved)])
  }

  function Unlink(entries: seq<RefEntry>, k: nat): seq<RefEntry>
    requires k <= |entries|
  {
    if k == |entries| then entries else entries[..k] + entries[k + 1..]
  }

  ghost function RemoveShared(w: World, i: nat, id: SegmentId): World
    requires Valid(w) && i < |w.caches|
  {
    var c := View(w, i);
    w.(caches := w.caches[i := RefCache(Unlink(w.caches[i].entries, Position(c.entries, id)), Remove(c, id).bytes,
                                        c.budget)])
  }

  ghost function InsertShared(w: World, i: nat, id: SegmentId, tree: Tree): Option<World>
    requires Valid(w) && i < |w.caches| && tree.Valid()
  {
    var c := View(w, i);
    if tree.ResidentBytes() > c.budget then Some(RemoveShared(w, i, id))
    else if Insert(c, id, tree).None? then None
    else
      InsertShape(c, id, tree);
      var next := Insert(c, id, tree).value;
      var others := Unlink(w.caches[i].entries, Position(c.entries, id));
      Some(Link(w, i, others[|others| + 1 - |next.entries|..], next.bytes, id, tree))
  }

  /** The world in which cache `i` keeps these entries and a tree nobody else holds. */
  ghost function Link(w: World, i: nat, kept: seq<RefEntry>, bytes: nat, id: SegmentId, tree: Tree): World
    requires i < |w.caches|
  {
    var ref := Fresh(w.heap);
    World(w.heap[ref := tree], w.caches[i := RefCache(kept + [RefEntry(id, ref)], bytes, w.caches[i].budget)])
  }

  lemma {:induction false} InsertShape(c: Cache, id: SegmentId, tree: Tree)
    requires c.Valid() && tree.ResidentBytes() <= c.budget && Insert(c, id, tree).Some?
    ensures Insert(c, id, tree).value.budget == c.budget
    ensures 1 <= |Insert(c, id, tree).value.entries| <= |Remove(c, id).entries| + 1
    ensures var others, next := Remove(c, id).entries, Insert(c, id, tree).value;
            next.entries == others[|others| + 1 - |next.entries|..] + [Entry(id, tree)]
  {
    hide Resident, Evict, Remove;
    var n := InsertOutcome(c, id, tree);
  }

  function RetainRefs(entries: seq<RefEntry>, count: nat): (kept: seq<RefEntry>)
    ensures forall e :: e in kept ==> e in entries
  {
    if entries == [] then []
    else if entries[0].id < count then [entries[0]] + RetainRefs(entries[1..], count)
    else RetainRefs(entries[1..], count)
  }

  /** `None` is the abort of an insertion. */
  ghost function Act(h: Hasher, w: World, i: nat, op: Op): Option<World>
    requires Valid(w) && i < |w.caches| && Shareable(w, i, op)
  {
    match op
    case InsertTree(id, tree) => InsertShared(w, i, id, tree)
    case RemoveTree(id) => Some(RemoveShared(w, i, id))
    case WriteSlot(id, local, value, clone) => Some(WriteShared(h, w, i, id, local, value, clone))
    case ClearAll => Some(w.(caches := w.caches[i := RefCache([], 0, w.caches[i].budget)]))
    case Truncate(count) =>
      var kept := RetainRefs(w.caches[i].entries, count);
      Some(w.(caches := w.caches[i := RefCache(kept, TruncateSegments(View(w, i), count).bytes, w.caches[i].budget)]))
  }

  ghost function CloneCache(w: World, i: nat): World
    requires i < |w.caches|
  {
    w.(caches := w.caches + [w.caches[i]])
  }

  // ------------------------------------------------- one step on one cache

  /** The step of one cache is the step of a cache with trees of its own. */
  ghost predicate Refines(h: Hasher, w: World, i: nat, op: Op, w': World)
    requires Valid(w) && i < |w.caches| && Shareable(w, i, op)
  {
    && |w'.caches| == |w.caches|
    && RefsIn(w'.heap, w'.caches[i].entries)
    && Step(h, View(w, i), op) == Some(View(w', i))
  }

  /** No other cache can tell that the step happened. */
  ghost predicate Isolated(w: World, i: nat, w': World) {
    && |w'.caches| == |w.caches|
    && forall j :: 0 <= j < |w.caches| && j != i ==>
         w'.caches[j] == w.caches[j] && SameTrees(w.heap, w'.heap, w.caches[j].entries)
  }

  ghost predicate SameTrees(heap: map<Ref, Tree>, heap': map<Ref, Tree>, entries: seq<RefEntry>) {
    forall k :: 0 <= k < |entries| ==>
      entries[k].ref in heap && entries[k].ref in heap' && heap'[entries[k].ref] == heap[entries[k].ref]
  }

  lemma {:induction false} UnlinkDeref(heap: map<Ref, Tree>, entries: seq<RefEntry>, k: nat)
    requires RefsIn(heap, entries) && k <= |entries|
    ensures RefsIn(heap, Unlink(entries, k))
    ensures Deref(heap, Unlink(entries, k))
         == if k == |entries| then Deref(heap, entries) else Cut(Deref(heap, entries), k)
  {
  }

  /** Storing a tree at a reference nobody in `kept` uses, and linking it last. */
  lemma {:induction false} LinkDeref(heap: map<Ref, Tree>, kept: seq<RefEntry>, id: SegmentId, ref: Ref, tree: Tree)
    requires RefsIn(heap, kept)
    requires forall k :: 0 <= k < |kept| ==> kept[k].ref != ref
    ensures RefsIn(heap[ref := tree], kept + [RefEntry(id, ref)])
    ensures Deref(heap[ref := tree], kept + [RefEntry(id, ref)]) == Deref(heap, kept) + [Entry(id, tree)]
  {
  }

  /** Storing a tree at a reference that no other cache uses disturbs no other cache. */
  lemma {:induction false} StoreIsolated(w: World, i: nat, ref: Ref, tree: Tree, cache: RefCache)
    requires Valid(w) && i < |w.caches|
    requires forall j, k :: 0 <= j < |w.caches| && j != i && 0 <= k < |w.caches[j].entries| ==>
               w.caches[j].entries[k].ref != ref
    ensures Isolated(w, i, World(w.heap[ref := tree], w.caches[i := cache]))
  {
    hide Deref, Resident;
  }

  lemma {:induction false} FreshIsUnused(w: World)
    requires Valid(w)
    ensures forall j, k :: 0 <= j < |w.caches| && 0 <= k < |w.caches[j].entries| ==>
              w.caches[j].entries[k].ref != Fresh(w.heap)
  {
    hide Deref, Resident;
  }

  lemma {:induction false} RemoveRefines(h: Hasher, w: World, i: nat, id: SegmentId)
    requires Valid(w) && i < |w.caches|
    ensures Refines(h, w, i, RemoveTree(id), RemoveShared(w, i, id)) && Isolated(w, i, RemoveShared(w, i, id))
  {
    hide Resident;
    UnlinkDeref(w.heap, w.caches[i].entries, Position(View(w, i).entries, id));
  }

  lemma {:induction false} LinkView(w: World, i: nat, others: seq<RefEntry>, m: nat, bytes: nat, id: SegmentId,
                                    tree: Tree)
    requires i < |w.caches| && RefsIn(w.heap, others) && m <= |others|
    ensures var w' := Link(w, i, others[m..], bytes, id, tree);
            && RefsIn(w'.heap, w'.caches[i].entries)
            && View(w', i) == Cache(Deref(w.heap, others)[m..] + [Entry(id, tree)], bytes, w.caches[i].budget)
  {
    assert Deref(w.heap, others[m..]) == Deref(w.heap, others)[m..];
    LinkDeref(w.heap, others[m..], id, Fresh(w.heap), tree);
  }

  lemma {:induction false} LinkIsolated(w: World, i: nat, kept: seq<RefEntry>, bytes: nat, id: SegmentId, tree: Tree)
    requires Valid(w) && i < |w.caches|
    ensures Isolated(w, i, Link(w, i, kept, bytes, id, tree))
  {
    FreshIsUnused(w);
    hide Resident, Valid, Fresh, Deref, Isolated;
    StoreIsolated(w, i, Fresh(w.heap), tree, Link(w, i, kept, bytes, id, tree).caches[i]);
  }

  lemma {:induction false} UnlinkIsRemove(w: World, i: nat, id: SegmentId)
    requires Valid(w) && i < |w.caches|
    ensures var others := Unlink(w.caches[i].entries, Position(View(w, i).entries, id));
            RefsIn(w.heap, others) && Deref(w.heap, others) == Remove(View(w, i), id).entries
  {
    hide Resident;
    UnlinkDeref(w.heap, w.caches[i].entries, Position(View(w, i).entries, id));
  }

  lemma {:induction false} InsertRefines(w: World, i: nat, id: SegmentId, tree: Tree, next: Cache) returns (w': World)
    requires Valid(w) && i < |w.caches| && tree.Valid() && tree.ResidentBytes() <= w.caches[i].budget
    requires Insert(View(w, i), id, tree) == Some(next)
    ensures InsertShared(w, i, id, tree) == Some(w') && Isolated(w, i, w')
    ensures RefsIn(w'.heap, w'.caches[i].entries) && View(w', i) == next
  {
    var c := View(w, i);
    InsertShape(c, id, tree);
    UnlinkIsRemove(w, i, id);
    hide Resident, Insert, Remove, Valid, Fresh, Position, Unlink, Deref, Link, Isolated;
    var others := Unlink(w.caches[i].entries, Position(c.entries, id));
    var m := |others| + 1 - |next.entries|;
    w' := Link(w, i, others[m..], next.bytes, id, tree);
    LinkView(w, i, others, m, next.bytes, id, tree);
    LinkIsolated(w, i, others[m..], next.bytes, id, tree);
  }

  /** The reference a slot write stores to is used by no entry that stays. */
  lemma {:induction false} WriteTargetIsFree(w: World, i: nat, k: nat)
    requires Valid(w) && i < |w.caches| && k < |w.caches[i].entries|
    ensures var target := if SoleOwner(w, i, k) then w.caches[i].entries[k].ref else Fresh(w.heap);
            var kept := Unlink(w.caches[i].entries, k);
            && (forall m :: 0 <= m < |kept| ==> kept[m].ref != target)
            && (forall j, m :: 0 <= j < |w.caches| && j != i && 0 <= m < |w.caches[j].entries| ==>
                  w.caches[j].entries[m].ref != target)
  {
    FreshIsUnused(w);
    hide Resident, Valid, Fresh;
    var entries := w.caches[i].entries;
    var kept := Unlink(entries, k);
    assert forall m :: 0 <= m < |kept| ==> kept[m] == entries[if m < k then m else m + 1];
  }

  lemma {:induction false} WriteRefines(h: Hasher, w: World, i: nat, id: SegmentId, local: nat, value: SlotValue,
                                        clone: Option<Capacities>)
    requires Valid(w) && i < |w.caches| && Shareable(w, i, WriteSlot(id, local, value, clone))
    ensures Refines(h, w, i, WriteSlot(id, local, value, clone), WriteShared(h, w, i, id, local, value, clone))
  {
    var c, entries := View(w, i), w.caches[i].entries;
    var k := Position(c.entries, id);
    if k < |entries| {
      var target := if SoleOwner(w, i, k) then entries[k].ref else Fresh(w.heap);
      var tree := Recapacitate(w.heap[entries[k].ref], clone).SetSlot(h, local, value);
      UnlinkDeref(w.heap, entries, k);
      WriteTargetIsFree(w, i, k);
      hide Resident, Valid, Fresh, SetSlotNodes, Pow2, SoleOwner;
      LinkDeref(w.heap, Unlink(entries, k), id, target, tree);
    }
  }

  lemma {:induction false} WriteIsolated(h: Hasher, w: World, i: nat, id: SegmentId, local: nat, value: SlotValue,
                                         clone: Option<Capacities>)
    requires Valid(w) && i < |w.caches| && Shareable(w, i, WriteSlot(id, local, value, clone))
    ensures Isolated(w, i, WriteShared(h, w, i, id, local, value, clone))
  {
    var entries := w.caches[i].entries;
    var k := Position(View(w, i).entries, id);
    if k < |entries| {
      var target := if SoleOwner(w, i, k) then entries[k].ref else Fresh(w.heap);
      var tree := Recapacitate(w.heap[entries[k].ref], clone).SetSlot(h, local, value);
      WriteTargetIsFree(w, i, k);
      hide Resident, Valid, Fresh, SetSlotNodes, Pow2, SoleOwner, Deref;
      StoreIsolated(w, i, target, tree, w.caches[i].(entries := Unlink(entries, k) + [RefEntry(id, target)]));
    }
  }

  lemma {:induction false} RetainDeref(heap: map<Ref, Tree>, entries: seq<RefEntry>, count: nat)
    requires RefsIn(heap, entries)
    ensures RefsIn(heap, RetainRefs(entries, count))
    ensures Deref(heap, RetainRefs(entries, count)) == Retain(Deref(heap, entries), count)
  {
    if entries != [] {
      RetainDeref(heap, entries[1..], count);
      assert Deref(heap, entries)[1..] == Deref(heap, entries[1..]);
    }
  }

  /** Every operation of one cache acts as on trees of its own, aborts exactly when it would there, and
      is invisible to the others. */
  lemma {:induction false} ActRefines(h: Hasher, w: World, i: nat, op: Op)
    requires Valid(w) && i < |w.caches| && Shareable(w, i, op)
    ensures Act(h, w, i, op).None? <==> Step(h, View(w, i), op).None?
    ensures Act(h, w, i, op).Some? ==>
              Refines(h, w, i, op, Act(h, w, i, op).value) && Isolated(w, i, Act(h, w, i, op).value)
  {
    hide Resident, Insert;
    match op
    case InsertTree(id, tree) =>
      var n := InsertOutcome(View(w, i), id, tree);
      if tree.ResidentBytes() > w.caches[i].budget {
        RemoveRefines(h, w, i, id);
      } else if Insert(View(w, i), id, tree).Some? {
        var w' := InsertRefines(w, i, id, tree, Insert(View(w, i), id, tree).value);
      }
    case RemoveTree(id) => RemoveRefines(h, w, i, id);
    case WriteSlot(id, local, value, clone) =>
      WriteRefines(h, w, i, id, local, value, clone);
      WriteIsolated(h, w, i, id, local, value, clone);
    case ClearAll =>
      assert Deref(w.heap, []) == [];
    case Truncate(count) =>
      RetainDeref(w.heap, w.caches[i].entries, count);
  }

  /** A sole owner is edited in place; a shared tree is left as it was and the
      writing cache moves to a new reference. */
  lemma {:induction false} WriteOwnership(h: Hasher, w: World, i: nat, id: SegmentId, local: nat, value: SlotValue,
                                          clone: Option<Capacities>)
    requires Valid(w) && i < |w.caches| && Shareable(w, i, WriteSlot(id, local, value, clone))
    requires Lookup(View(w, i), id).Some?
    ensures var k, w' := Position(View(w, i).entries, id), WriteShared(h, w, i, id, local, value, clone);
            var ref, target := w.caches[i].entries[k].ref, w'.caches[i].entries[|w'.caches[i].entries| - 1].ref;
            && (SoleOwner(w, i, k) ==> target == ref && w'.heap.Keys == w.heap.Keys)
            && (!SoleOwner(w, i, k) ==> target !in w.heap && ref in w'.heap && w'.heap[ref] == w.heap[ref])
  {
    hide SetSlotNodes, Pow2, Resident;
  }

  // --------------------------------------------------------------------- runs

  datatype Move = OnCache(i: nat, op: Op) | Clone(i: nat)

  ghost function Views(w: World): seq<Cache>
    requires Valid(w)
  {
    seq(|w.caches|, i requires 0 <= i < |w.caches| => View(w, i))
  }

  ghost predicate Allowed(w: World, move: Move)
    requires Valid(w)
  {
    && move.i < |w.caches|
    && (move.OnCache? ==> Shareable(w, move.i, move.op))
  }

  ghost function Next(h: Hasher, w: World, move: Move): Option<World>
    requires Valid(w) && Allowed(w, move)
  {
    match move
    case OnCache(i, op) => Act(h, w, i, op)
    case Clone(i) => Some(CloneCache(w, i))
  }

  /** The same move can happen when every cache owns deep copies of its trees. */
  ghost predicate DeepAllowed(caches: seq<Cache>, move: Move) {
    && move.i < |caches|
    && (move.OnCache? ==> Resident(caches[move.i].entries) <= caches[move.i].bytes && Enabled(caches[move.i], move.op))
  }

  ghost function DeepNext(h: Hasher, caches: seq<Cache>, move: Move): Option<seq<Cache>>
    requires DeepAllowed(caches, move)
  {
    match move
    case OnCache(i, op) =>
      if Step(h, caches[i], op).None? then None else Some(caches[i := Step(h, caches[i], op).value])
    case Clone(i) => Some(caches + [caches[i]])
  }

  lemma {:induction false} IsolatedViews(w: World, i: nat, w': World, j: nat)
    requires Valid(w) && Isolated(w, i, w') && j < |w.caches| && j != i
    ensures RefsIn(w'.heap, w'.caches[j].entries) && View(w', j) == View(w, j)
  {
    hide Resident;
    assert Deref(w'.heap, w.caches[j].entries) == Deref(w.heap, w.caches[j].entries);
  }

  lemma {:induction false} ActIsDeepStep(h: Hasher, w: World, i: nat, op: Op)
    requires Valid(w) && i < |w.caches| && Shareable(w, i, op)
    ensures Act(h, w, i, op).None? <==> Step(h, View(w, i), op).None?
    ensures Act(h, w, i, op).Some? ==>
              var w' := Act(h, w, i, op).value;
              && Valid(w') && |w'.caches| == |w.caches|
              && Step(h, View(w, i), op) == Some(View(w', i))
              && forall j :: 0 <= j < |w.caches| && j != i ==> View(w', j) == View(w, j)
  {
    ActRefines(h, w, i, op);
    StepAccounting(h, View(w, i), op);
    hide Resident, Act, Deref, Step;
    if Act(h, w, i, op).Some? {
      var w' := Act(h, w, i, op).value;
      forall j | 0 <= j < |w.caches| && j != i
        ensures RefsIn(w'.heap, w'.caches[j].entries) && View(w', j) == View(w, j)
      {
        IsolatedViews(w, i, w', j);
      }
    }
  }

  /** One move on shared trees is the same move on deep copies, aborts included. */
  lemma {:induction false} NextIsDeep(h: Hasher, w: World, move: Move)
    requires Valid(w) && Allowed(w, move)
    ensures DeepAllowed(Views(w), move)
    ensures Next(h, w, move).None? <==> DeepNext(h, Views(w), move).None?
    ensures Next(h, w, move).Some? ==>
              Valid(Next(h, w, move).value) && DeepNext(h, Views(w), move) == Some(Views(Next(h, w, move).value))
  {
    match move
    case OnCache(i, op) =>
      ActIsDeepStep(h, w, i, op);
      hide Resident, Act, Deref, Step;
      if Act(h, w, i, op).Some? {
        var w' := Act(h, w, i, op).value;
        assert Views(w') == Views(w)[i := View(w', i)];
      }
    case Clone(i) =>
      hide Resident, Deref;
      assert Views(CloneCache(w, i)) == Views(w) + [View(w, i)];
  }

  /** A run to its end, or to the abort that stops it. */
  ghost predicate WorldRun(h: Hasher, w: World, moves: seq<Move>, end: Option<World>)
    requires Valid(w)
    decreases |moves|
  {
    if moves == [] then end == Some(w)
    else
      && Allowed(w, moves[0])
      && match Next(h, w, moves[0])
         case None => end == None
         case Some(next) => Valid(next) && WorldRun(h, next, moves[1..], end)
  }

  ghost predicate DeepRun(h: Hasher, caches: seq<Cache>, moves: seq<Move>, end: Option<seq<Cache>>)
    decreases |moves|
  {
    if moves == [] then end == Some(caches)
    else
      && DeepAllowed(caches, moves[0])
      && match DeepNext(h, caches, moves[0])
         case None => end == None
         case Some(next) => DeepRun(h, next, moves[1..], end)
  }

  /** Over every interleaving of operations and clones, and whatever copies reserve, every cache observes
      exactly what it would if nothing were shared, up to and including an abort. */
  lemma {:induction false} SharingIsInvisible(h: Hasher, w: World, moves: seq<Move>, end: Option<World>)
    requires Valid(w) && WorldRun(h, w, moves, end)
    ensures end.Some? ==> Valid(end.value) && DeepRun(h, Views(w), moves, Some(Views(end.value)))
    ensures end.None? ==> DeepRun(h, Views(w), moves, None)
    decreases |moves|
  {
    hide Valid, Views, Allowed, DeepAllowed, Next, DeepNext;
    if moves != [] {
      NextIsDeep(h, w, moves[0]);
      if Next(h, w, moves[0]).Some? {
        SharingIsInvisible(h, Next(h, w, moves[0]).value, moves[1..], end);
      }
    }
  }
}
