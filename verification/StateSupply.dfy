/** The circulating supply: the sum of the amounts of all slots, kept up to date from the slots a batch
    touches.
 */
module StateSupply {
  import opened Wrappers
  import opened Powers
  import opened ExactStateHash
  import opened SegmentedState
  import opened StateRoots
  import opened StateUpdates
  import opened StreamingRoot

  const AMOUNT_SPAN: nat := 0x1_0000_0000_0000_0000

  /** The amount is the low 64 bits of the value lane. */
  function Amount(slot: SlotValue): nat {
    slot.value % AMOUNT_SPAN
  }

  function Supply(slots: seq<SlotValue>): nat {
    if slots == [] then 0 else Supply(slots[..|slots| - 1]) + Amount(slots[|slots| - 1])
  }

  /** Every value lane carries a creation id above 64 bits of amount. */
  ghost predicate Carries(slots: seq<SlotValue>, amounts: seq<nat>, creations: seq<nat>) {
    && |slots| == |amounts| == |creations|
    && forall i :: 0 <= i < |slots| ==>
         amounts[i] < 0x1_0000_0000_0000_0000
         && slots[i].value == creations[i] * 0x1_0000_0000_0000_0000 + amounts[i]
  }

  ghost function Sum(amounts: seq<nat>): nat {
    if amounts == [] then 0 else amounts[0] + Sum(amounts[1..])
  }

  lemma {:induction false} SumSnoc(front: seq<nat>, last: nat)
    ensures Sum(front + [last]) == Sum(front) + last
  {
    if front != [] {
      SumSnoc(front[1..], last);
      assert (front + [last])[1..] == front[1..] + [last];
    }
  }

  lemma {:induction false} AmountOfParts(slot: SlotValue, amount: nat, creation: nat)
    requires amount < 0x1_0000_0000_0000_0000 && slot.value == creation * 0x1_0000_0000_0000_0000 + amount
    ensures Amount(slot) == amount
  {
  }

  /** The supply is the sum of the packed amounts, whatever the creation ids. */
  lemma {:induction false} SupplyIsSum(slots: seq<SlotValue>, amounts: seq<nat>, creations: seq<nat>)
    requires Carries(slots, amounts, creations)
    ensures Supply(slots) == Sum(amounts)
  {
    hide Amount;
    if slots != [] {
      var n := |slots| - 1;
      SupplyIsSum(slots[..n], amounts[..n], creations[..n]);
      AmountOfParts(slots[n], amounts[n], creations[n]);
      SumSnoc(amounts[..n], amounts[n]);
      assert amounts == amounts[..n] + [amounts[n]];
    }
  }

  /** Replacing a slot packed from one amount by one packed from another moves the supply by the difference. */
  lemma {:induction false} SupplyMoves(slots: seq<SlotValue>, i: nat, slot: SlotValue, a: nat, c: nat, b: nat, d: nat)
    requires i < |slots| && a < 0x1_0000_0000_0000_0000 && b < 0x1_0000_0000_0000_0000
    requires slots[i].value == c * 0x1_0000_0000_0000_0000 + a && slot.value == d * 0x1_0000_0000_0000_0000 + b
    ensures Supply(slots[i := slot]) == Supply(slots) - a + b
  {
    hide Amount;
    AmountOfParts(slots[i], a, c);
    AmountOfParts(slot, b, d);
    SupplyUpdate(slots, i, slot);
  }

  lemma {:induction false} SupplyUpdate(slots: seq<SlotValue>, i: nat, value: SlotValue)
    requires i < |slots|
    ensures Supply(slots) >= Amount(slots[i])
    ensures Supply(slots[i := value]) == Supply(slots) - Amount(slots[i]) + Amount(value)
  {
    hide Amount;
    var n := |slots| - 1;
    if i == n {
      assert slots[i := value][..n] == slots[..n];
    } else {
      SupplyUpdate(slots[..n], i, value);
      assert slots[i := value][..n] == slots[..n][i := value];
    }
  }

  lemma {:induction false} SupplyConcat(a: seq<SlotValue>, b: seq<SlotValue>)
    ensures Supply(a + b) == Supply(a) + Supply(b)
    decreases |b|
  {
    hide Amount;
    if b == [] {
      assert a + b == a;
    } else {
      assert (a + b)[..|a + b| - 1] == a + b[..|b| - 1];
      SupplyConcat(a, b[..|b| - 1]);
    }
  }

  lemma {:induction false} SupplyOfZeros(n: nat)
    ensures Supply(ZeroSlots(n)) == 0
  {
    if n > 0 {
      SupplyOfZeros(n - 1);
      assert ZeroSlots(n)[..n - 1] == ZeroSlots(n - 1);
    }
  }

  // ------------------------------------------------------------ a batch, one slot at a time

  /** The last write to every slot. */
  function Canonical(updates: Updates): Local {
    if updates == [] then map[]
    else Canonical(updates[..|updates| - 1])[updates[|updates| - 1].0 := updates[|updates| - 1].1]
  }

  lemma {:induction false} CanonicalFinds(updates: Updates, idx: nat, before: SlotValue)
    ensures (if idx in Canonical(updates) then Canonical(updates)[idx] else before) == LastWrite(before, updates, idx)
    decreases |updates|
  {
    hide LastWrite;
    if updates == [] {
      NoWrites(before, idx);
    } else {
      var front, last := updates[..|updates| - 1], updates[|updates| - 1];
      CanonicalFinds(front, idx, before);
      LastWriteSnoc(before, front, last, idx);
      assert front + [last] == updates;
    }
  }

  lemma {:induction false} CanonicalKeys(updates: Updates, idx: nat)
    ensures idx in Canonical(updates) <==> exists i :: 0 <= i < |updates| && updates[i].0 == idx
    decreases |updates|
  {
    if updates != [] {
      var front, last := updates[..|updates| - 1], updates[|updates| - 1];
      CanonicalKeys(front, idx);
      assert updates[|updates| - 1] == last;
      if i :| 0 <= i < |front| && front[i].0 == idx {
        assert updates[i] == front[i];
      }
      if i :| 0 <= i < |updates| && updates[i].0 == idx {
        if i < |front| { assert front[i] == updates[i]; }
      }
    }
  }

  /** The slots with the writes of `done` laid over them. */
  ghost function Overlaid(slots: seq<SlotValue>, writes: Local, done: set<nat>): (r: seq<SlotValue>)
    ensures |r| == |slots|
  {
    SlotsWith(Some(slots), map k | k in writes && k in done :: writes[k], |slots|)
  }

  lemma {:induction false} OverlaidOneMore(slots: seq<SlotValue>, writes: Local, done: set<nat>, k: nat)
    requires k in writes && k < |slots| && k !in done
    ensures Overlaid(slots, writes, done)[k] == slots[k]
    ensures Overlaid(slots, writes, done + {k}) == Overlaid(slots, writes, done)[k := writes[k]]
  {
    hide SlotsWith;
  }

  lemma {:induction false} OverlaidNone(slots: seq<SlotValue>, writes: Local)
    ensures Overlaid(slots, writes, {}) == slots
    ensures Overlaid(slots, writes, writes.Keys) == SlotsWith(Some(slots), writes, |slots|)
  {
    hide SlotsWith;
    assert (map k | k in writes && k in writes.Keys :: writes[k]) == writes;
  }

  /** Exchanging one slot moves the supply by the difference of the amounts. */
  lemma {:induction false} SupplyOneMore(slots: seq<SlotValue>, writes: Local, done: set<nat>, k: nat)
    requires k in writes && k < |slots| && k !in done
    ensures Supply(Overlaid(slots, writes, done)) >= Amount(slots[k])
    ensures Supply(Overlaid(slots, writes, done + {k}))
         == Supply(Overlaid(slots, writes, done)) - Amount(slots[k]) + Amount(writes[k])
  {
    hide Overlaid, Supply, Amount;
    OverlaidOneMore(slots, writes, done, k);
    SupplyUpdate(Overlaid(slots, writes, done), k, writes[k]);
  }

  // ------------------------------------------------------------------- segments laid flat

  lemma {:induction false} FlatAt(parts: seq<seq<SlotValue>>, size: nat, s: nat, loc: nat)
    requires Sized(parts, size) && s < |parts| && loc < size
    ensures Times(s, size) + loc < |Flat(parts)| && Flat(parts)[Times(s, size) + loc] == parts[s][loc]
    decreases |parts|
  {
    hide Times;
    var n := |parts| - 1;
    FlatLength(parts[..n], size);
    if s < n {
      FlatAt(parts[..n], size, s, loc);
    }
  }

  /** Updating segment by segment is updating the flat domain. */
  lemma {:induction false} FlatUpdated(parts: seq<seq<SlotValue>>, size: nat, updates: Updates)
    requires size >= 1 && Sized(parts, size)
    ensures Sized(UpdatedParts(parts, Grouped(size, updates)), size)
    ensures Flat(UpdatedParts(parts, Grouped(size, updates)))
         == SlotsWith(Some(Flat(parts)), Canonical(updates), |Flat(parts)|)
  {
    hide Flat, UpdatedParts, Grouped, Canonical, SlotsWith, Sized, Times, Quotient, Remainder;
    var updated := UpdatedParts(parts, Grouped(size, updates));
    var slots := Flat(parts);
    UpdatedSized(parts, Grouped(size, updates), size);
    FlatLength(parts, size);
    FlatLength(updated, size);
    var overlaid := SlotsWith(Some(slots), Canonical(updates), |slots|);
    forall i | 0 <= i < |slots| ensures Flat(updated)[i] == overlaid[i] {
      FlatUpdatedAt(parts, size, updates, i);
    }
  }

  lemma {:induction false} FlatUpdatedAt(parts: seq<seq<SlotValue>>, size: nat, updates: Updates, i: nat)
    requires size >= 1 && Sized(parts, size) && Sized(UpdatedParts(parts, Grouped(size, updates)), size)
    requires i < |Flat(parts)|
    requires |Flat(parts)| == Times(|parts|, size)
    ensures i < |Flat(UpdatedParts(parts, Grouped(size, updates)))|
    ensures Flat(UpdatedParts(parts, Grouped(size, updates)))[i] == SlotWith(Some(Flat(parts)), Canonical(updates), i)
  {
    hide Flat, UpdatedParts, Grouped, Canonical, LastWrite, Quotient, Remainder;
    var s, loc := Quotient(i, size), Remainder(i, size);
    QuotientBound(i, |parts|, size);
    FlatAt(parts, size, s, loc);
    FlatAt(UpdatedParts(parts, Grouped(size, updates)), size, s, loc);
    SizedAt(parts, size, s);
    UpdatedAt(parts, size, updates, s, loc);
    CanonicalFinds(updates, i, Flat(parts)[i]);
  }

  lemma {:induction false} SizedAt(parts: seq<seq<SlotValue>>, size: nat, s: nat)
    requires Sized(parts, size) && s < |parts|
    ensures |parts[s]| == size
  {
  }

  // ----------------------------------------------------------------- the wider domain

  lemma {:induction false} FlatZeros(parts: seq<seq<SlotValue>>, size: nat)
    requires forall i :: 0 <= i < |parts| ==> parts[i] == ZeroSlots(size)
    ensures forall k :: 0 <= k < |Flat(parts)| ==> Flat(parts)[k] == EMPTY
  {
    if parts != [] {
      FlatZeros(parts[..|parts| - 1], size);
      var front := Flat(parts[..|parts| - 1]);
      forall k | 0 <= k < |Flat(parts)| ensures Flat(parts)[k] == EMPTY {
        if k >= |front| { assert Flat(parts)[k] == ZeroSlots(size)[k - |front|]; }
      }
    }
  }

  /** Doubling the domain appends empty slots. */
  lemma {:induction false} WiderFlat(logSlots: nat, parts: seq<seq<SlotValue>>)
    requires |parts| == NumSegments(logSlots) && Sized(parts, Pow2(LogSegment(logSlots)))
    ensures |Flat(parts)| == Pow2(logSlots) && |Flat(WiderParts(logSlots, parts))| == 2 * Pow2(logSlots)
    ensures Flat(WiderParts(logSlots, parts)) == Flat(parts) + ZeroSlots(Pow2(logSlots))
  {
    DomainSize(logSlots, parts);
    DomainSize(logSlots + 1, WiderParts(logSlots, parts));
    Pow2Doubles(logSlots);
    hide Pow2, Flat;
    if logSlots + 1 <= LOG_SEGMENT_SIZE {
      FlatOne(parts[0]);
      FlatOne(parts[0] + ZeroSlots(Pow2(logSlots)));
      assert parts == [parts[0]];
    } else {
      var zeros := seq(|parts|, _ => ZeroSlots(Pow2(LogSegment(logSlots))));
      FlatConcat(parts, zeros);
      FlatZeros(zeros, Pow2(LogSegment(logSlots)));
      assert WiderParts(logSlots, parts) == parts + zeros;
      assert Flat(zeros) == ZeroSlots(Pow2(logSlots));
    }
  }
}
