/** The byte-budgeted, recency-ordered cache of hot segment trees.

    Entries are ordered by their last insertion or slot write, oldest first; a
    lookup does not refresh an entry. A slot write copies the tree first when it
    is shared with a clone of the cache, and the copy may reserve less memory than
    the original, which the byte counter is not told about. `Drift` measures what
    the counter has lost track of.
 */
module SegmentCache {
  import opened Wrappers
  import opened Powers
  import opened ExactStateHash
  import opened SegmentTreeObject

  type SegmentId = id: nat | id < 0x1_0000

  datatype Entry = Entry(id: SegmentId, tree: Tree)

  /** What a copied tree reserves for its two hash buffers. */
  datatype Capacities = Capacities(nodes: nat, zeros: nat)

  datatype Cache = Cache(entries: seq<Entry>, bytes: nat, budget: nat) {
    ghost predicate Valid() {
      && UniqueIds(entries)
      && (forall i :: 0 <= i < |entries| ==> entries[i].tree.Valid())
      && Resident(entries) <= bytes <= budget
    }

    ghost function Drift(): int {
      bytes - Resident(entries)
    }
  }

  ghost predicate UniqueIds(entries: seq<Entry>) {
    forall i, j :: 0 <= i < j < |entries| ==> entries[i].id != entries[j].id
  }

  function Resident(entries: seq<Entry>): nat {
    if entries == [] then 0 else entries[0].tree.ResidentBytes() + Resident(entries[1..])
  }

  /** Index of the entry for `id`, or the number of entries. */
  function Position(entries: seq<Entry>, id: SegmentId, from: nat := 0): (k: nat)
    requires from <= |entries|
    ensures from <= k <= |entries|
    ensures k < |entries| ==> entries[k].id == id
    ensures forall i :: from <= i < k ==> entries[i].id != id
    decreases |entries| - from
  {
    if from == |entries| || entries[from].id == id then from else Position(entries, id, from + 1)
  }

  function Cut(entries: seq<Entry>, k: nat): seq<Entry>
    requires k < |entries|
  {
    entries[..k] + entries[k + 1..]
  }

  lemma {:induction false} ResidentConcat(a: seq<Entry>, b: seq<Entry>)
    ensures Resident(a + b) == Resident(a) + Resident(b)
  {
    if a == [] {
      assert a + b == b;
    } else {
      ResidentConcat(a[1..], b);
      assert (a + b)[1..] == a[1..] + b;
    }
  }

  lemma {:induction false} ResidentCut(entries: seq<Entry>, k: nat)
    requires k < |entries|
    ensures Resident(entries) == Resident(Cut(entries, k)) + entries[k].tree.ResidentBytes()
  {
    ResidentConcat(entries[..k], entries[k..]);
    ResidentConcat(entries[..k], entries[k + 1..]);
    assert entries == entries[..k] + entries[k..];
  }

  // --------------------------------------------------------------- operations

  function Lookup(c: Cache, id: SegmentId): Option<Tree> {
    var k := Position(c.entries, id);
    if k < |c.entries| then Some(c.entries[k].tree) else None
  }

  function Remove(c: Cache, id: SegmentId): Cache
    requires Resident(c.entries) <= c.bytes
  {
    var k := Position(c.entries, id);
    if k == |c.entries| then c
    else
      ResidentCut(c.entries, k);
      Cache(Cut(c.entries, k), c.bytes - c.entries[k].tree.ResidentBytes(), c.budget)
  }

  /** The eviction loop; `None` is the removal from an empty list that aborts it. */
  function Evict(entries: seq<Entry>, bytes: nat, need: nat, budget: nat): Option<(seq<Entry>, nat)>
    requires Resident(entries) <= bytes
    decreases |entries|
  {
    if bytes + need <= budget then Some((entries, bytes))
    else if entries == [] then None
    else Evict(entries[1..], bytes - entries[0].tree.ResidentBytes(), need, budget)
  }

  function Insert(c: Cache, id: SegmentId, tree: Tree): Option<Cache>
    requires Resident(c.entries) <= c.bytes
  {
    RemoveAccounts(c, id);
    var removed := Remove(c, id);
    var need := tree.ResidentBytes();
    if need > c.budget then Some(removed)
    else
      match Evict(removed.entries, removed.bytes, need, c.budget)
      case None => None
      case Some((kept, bytes)) => Some(Cache(kept + [Entry(id, tree)], bytes + need, c.budget))
  }

  function Recapacitate(tree: Tree, clone: Option<Capacities>): Tree {
    match clone
    case None => tree
    case Some(capacities) => tree.(nodesCapacity := capacities.nodes, zerosCapacity := capacities.zeros)
  }

  /** A copy reserves at least its length and at most what the original did. */
  ghost predicate PlausibleClone(tree: Tree, clone: Option<Capacities>) {
    clone.Some? ==>
      && |tree.nodes| <= clone.value.nodes <= tree.nodesCapacity
      && |tree.zeros| <= clone.value.zeros <= tree.zerosCapacity
  }

  ghost predicate PreservingClone(tree: Tree, clone: Option<Capacities>) {
    clone.Some? ==> clone.value == Capacities(tree.nodesCapacity, tree.zerosCapacity)
  }

  ghost predicate WritableAt(c: Cache, id: SegmentId, local: nat, clone: Option<Capacities>) {
    Lookup(c, id).Some? ==>
      var tree := Lookup(c, id).value;
      tree.Valid() && local < Pow2(tree.log) && PlausibleClone(tree, clone)
  }

  /** `clone` is what `Arc::make_mut` did: nothing for a sole owner, a copy otherwise. */
  function UpdateSlot(h: Hasher, c: Cache, id: SegmentId, local: nat, value: SlotValue,
                      clone: Option<Capacities>): Cache
    requires WritableAt(c, id, local, clone)
  {
    var k := Position(c.entries, id);
    if k == |c.entries| then c
    else
      var tree := Recapacitate(c.entries[k].tree, clone).SetSlot(h, local, value);
      c.(entries := Cut(c.entries, k) + [Entry(id, tree)])
  }

  function Clear(c: Cache): Cache {
    c.(entries := [], bytes := 0)
  }

  function Retain(entries: seq<Entry>, count: nat): (kept: seq<Entry>)
    ensures forall i :: 0 <= i < |kept| ==> kept[i].id < count && kept[i] in entries
  {
    if entries == [] then []
    else if entries[0].id < count then [entries[0]] + Retain(entries[1..], count)
    else Retain(entries[1..], count)
  }

  function TruncateSegments(c: Cache, count: nat): Cache {
    c.(entries := Retain(c.entries, count), bytes := Resident(Retain(c.entries, count)))
  }

  // ----------------------------------------------------- what each one keeps

  lemma {:induction false} CutKeepsValid(entries: seq<Entry>, k: nat)
    requires k < |entries| && UniqueIds(entries)
    ensures UniqueIds(Cut(entries, k))
    ensures forall i :: 0 <= i < |Cut(entries, k)| ==> Cut(entries, k)[i].id != entries[k].id
    ensures forall e :: e in Cut(entries, k) ==> e in entries
  {
    var cut := Cut(entries, k);
    forall i | 0 <= i < |cut| ensures cut[i] == entries[if i < k then i else i + 1] {
    }
  }

  lemma {:induction false} RemoveAccounts(c: Cache, id: SegmentId)
    requires Resident(c.entries) <= c.bytes
    ensures Resident(Remove(c, id).entries) <= Remove(c, id).bytes <= c.bytes
    ensures Remove(c, id).Drift() == c.Drift()
  {
    var k := Position(c.entries, id);
    if k < |c.entries| { ResidentCut(c.entries, k); }
  }

  lemma {:induction false} RemoveKeepsValid(c: Cache, id: SegmentId)
    requires c.Valid()
    ensures Remove(c, id).Valid() && Lookup(Remove(c, id), id).None? && Remove(c, id).budget == c.budget
    ensures forall e :: e in Remove(c, id).entries ==> e in c.entries
    ensures forall other: SegmentId :: other != id ==> Lookup(Remove(c, id), other) == Lookup(c, other)
  {
    var k := Position(c.entries, id);
    RemoveAccounts(c, id);
    if k < |c.entries| {
      CutKeepsValid(c.entries, k);
      forall other: SegmentId | other != id ensures Lookup(Remove(c, id), other) == Lookup(c, other) {
        LookupCut(c.entries, k, other);
      }
    }
  }

  /** With unique ids, an entry found anywhere is the one a lookup returns. */
  lemma {:induction false} LookupUnique(entries: seq<Entry>, i: nat)
    requires UniqueIds(entries) && i < |entries|
    ensures Position(entries, entries[i].id) == i
  {
    var k := Position(entries, entries[i].id);
    assert k <= i;
  }

  lemma {:induction false} LookupCut(entries: seq<Entry>, k: nat, other: SegmentId)
    requires UniqueIds(entries) && k < |entries| && other != entries[k].id
    ensures var p, q := Position(entries, other), Position(Cut(entries, k), other);
            && (p < |entries| <==> q < |Cut(entries, k)|)
            && (p < |entries| ==> entries[p] == Cut(entries, k)[q])
  {
    var cut := Cut(entries, k);
    CutKeepsValid(entries, k);
    var p := Position(entries, other);
    if p < |entries| {
      var q := if p < k then p else p - 1;
      assert cut[q] == entries[p];
      LookupUnique(cut, q);
    } else {
      forall q | 0 <= q < |cut| ensures cut[q].id != other {
        assert cut[q] == entries[if q < k then q else q + 1];
      }
    }
  }

  /** The entries from `n` on are kept, they fit, and one more would not. */
  ghost predicate KeepsFrom(entries: seq<Entry>, bytes: nat, need: nat, budget: nat, n: nat)
    requires Resident(entries) <= bytes && n <= |entries|
  {
    var drift := bytes - Resident(entries);
    && Evict(entries, bytes, need, budget) == Some((entries[n..], drift + Resident(entries[n..])))
    && drift + Resident(entries[n..]) + need <= budget
    && (n > 0 ==> drift + Resident(entries[n - 1..]) + need > budget)
  }

  /** Eviction drops exactly as many of the oldest entries as it must. */
  lemma {:induction false} EvictLongestSuffix(entries: seq<Entry>, bytes: nat, need: nat, budget: nat) returns (n: nat)
    requires Resident(entries) <= bytes
    ensures n <= |entries|
    ensures Evict(entries, bytes, need, budget).None? <==> bytes - Resident(entries) + need > budget
    ensures Evict(entries, bytes, need, budget).Some? ==> KeepsFrom(entries, bytes, need, budget, n)
    decreases |entries|
  {
    n := 0;
    if bytes + need <= budget {
      assert entries[0..] == entries;
    } else if entries != [] {
      var rest, left := entries[1..], bytes - entries[0].tree.ResidentBytes();
      n := EvictLongestSuffix(rest, left, need, budget);
      if Evict(rest, left, need, budget).Some? {
        KeepsOneFurther(entries, bytes, need, budget, n);
      }
      n := n + 1;
    }
  }

  lemma {:induction false} KeepsOneFurther(entries: seq<Entry>, bytes: nat, need: nat, budget: nat, n: nat)
    requires Resident(entries) <= bytes && entries != [] && n < |entries| && bytes + need > budget
    requires KeepsFrom(entries[1..], bytes - entries[0].tree.ResidentBytes(), need, budget, n)
    ensures KeepsFrom(entries, bytes, need, budget, n + 1)
  {
    var rest, left := entries[1..], bytes - entries[0].tree.ResidentBytes();
    assert Resident(entries) == entries[0].tree.ResidentBytes() + Resident(rest);
    assert Evict(entries, bytes, need, budget) == Evict(rest, left, need, budget);
    hide Resident, Evict;
    assert rest[n..] == entries[n + 1..];
    if n == 0 {
      assert entries[0..] == entries;
    } else {
      assert rest[n - 1..] == entries[n..];
    }
  }

  /** An insertion aborts exactly when the bytes the counter has lost track of
      leave no room for the tree, and otherwise keeps the longest recent suffix
      that fits beside it. */
  lemma {:induction false} InsertOutcome(c: Cache, id: SegmentId, tree: Tree) returns (n: nat)
    requires Resident(c.entries) <= c.bytes
    ensures n <= |Remove(c, id).entries|
    ensures Insert(c, id, tree).None?
            <==> tree.ResidentBytes() <= c.budget && c.Drift() + tree.ResidentBytes() > c.budget
    ensures tree.ResidentBytes() > c.budget ==> Insert(c, id, tree) == Some(Remove(c, id))
    ensures tree.ResidentBytes() <= c.budget && Insert(c, id, tree).Some? ==> SuffixKept(c, id, tree, n)
  {
    RemoveAccounts(c, id);
    var removed, need := Remove(c, id), tree.ResidentBytes();
    n := 0;
    if need <= c.budget {
      n := EvictLongestSuffix(removed.entries, removed.bytes, need, c.budget);
      var kept := removed.entries[n..];
      ResidentConcat(kept, [Entry(id, tree)]);
    }
  }

  /** Beside the new tree stay exactly the entries from `n` on: they fit, and one
      entry more would not. */
  ghost predicate SuffixKept(c: Cache, id: SegmentId, tree: Tree, n: nat)
    requires Resident(c.entries) <= c.bytes && n <= |Remove(c, id).entries|
  {
    var others, need := Remove(c, id).entries, tree.ResidentBytes();
    && Insert(c, id, tree).Some?
    && Insert(c, id, tree).value.entries == others[n..] + [Entry(id, tree)]
    && c.Drift() + Resident(others[n..]) + need <= c.budget
    && (n > 0 ==> c.Drift() + Resident(others[n - 1..]) + need > c.budget)
    && Insert(c, id, tree).value.Drift() == c.Drift()
  }
}
