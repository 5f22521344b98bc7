/** The compact two-level commitment of the chain state: one exact root for each segment and the binary
    tree above them, and why its root is the plain Merkle root of every slot.
 */
module StateRoots {
  import opened Powers
  import opened ExactStateHash
  import opened SegmentTree
  import opened SegmentedState

  // ------------------------------------------------------------ roots of segments

  /** All slots, segment after segment. */
  function Flat(parts: seq<seq<SlotValue>>): seq<SlotValue> {
    if parts == [] then [] else Flat(parts[..|parts| - 1]) + parts[|parts| - 1]
  }

  ghost predicate Sized(parts: seq<seq<SlotValue>>, size: nat) {
    forall i :: 0 <= i < |parts| ==> |parts[i]| == size
  }

  lemma {:induction false} FlatLength(parts: seq<seq<SlotValue>>, size: nat)
    requires Sized(parts, size)
    ensures |Flat(parts)| == Times(|parts|, size)
  {
    hide Times;
    if parts == [] {
      NoParts(size);
    } else {
      FlatLength(parts[..|parts| - 1], size);
      TimesOneMore(|parts| - 1, size);
    }
  }

  lemma {:induction false} NoParts(size: nat)
    ensures Times(0, size) == 0
  {
  }

  lemma {:induction false} FlatConcat(a: seq<seq<SlotValue>>, b: seq<seq<SlotValue>>)
    ensures Flat(a + b) == Flat(a) + Flat(b)
    decreases |b|
  {
    if b == [] {
      assert a + b == a;
    } else {
      assert (a + b)[..|a + b| - 1] == a + b[..|b| - 1];
      FlatConcat(a, b[..|b| - 1]);
    }
  }

  lemma {:induction false} FlatOne(part: seq<SlotValue>)
    ensures Flat([part]) == part
  {
    assert [part][..0] == [];
  }

  lemma {:induction false} SlotsRootJoins(h: Hasher, depth: nat, left: seq<SlotValue>, right: seq<SlotValue>)
    requires |left| == |right| == Pow2(depth)
    ensures |left + right| == Pow2(depth + 1)
    ensures SlotsRoot(h, depth + 1, left + right) == Join(h, SlotsRoot(h, depth, left), SlotsRoot(h, depth, right))
  {
    hide Join;
    Pow2Doubles(depth);
    var all := HashLeaves(h, left + right);
    assert all[..Pow2(depth)] == HashLeaves(h, left) && all[Pow2(depth)..] == HashLeaves(h, right);
  }

  /** The exact root of every segment. */
  ghost function Roots(h: Hasher, low: nat, parts: seq<seq<SlotValue>>): (roots: seq<StateHash>)
    requires Sized(parts, Pow2(low))
    ensures |roots| == |parts| && forall i :: 0 <= i < |parts| ==> roots[i] == SlotsRoot(h, low, parts[i])
  {
    seq(|parts|, i requires 0 <= i < |parts| => SlotsRoot(h, low, parts[i]))
  }

  lemma {:induction false} RootsSplit(h: Hasher, low: nat, parts: seq<seq<SlotValue>>, half: nat)
    requires Sized(parts, Pow2(low)) && half <= |parts|
    ensures Sized(parts[..half], Pow2(low)) && Sized(parts[half..], Pow2(low))
    ensures Roots(h, low, parts)[..half] == Roots(h, low, parts[..half])
    ensures Roots(h, low, parts)[half..] == Roots(h, low, parts[half..])
  {
    hide SlotsRoot, Pow2;
  }

  lemma {:induction false} MerkleSplits(h: Hasher, up: nat, roots: seq<StateHash>)
    requires up >= 1 && |roots| == Pow2(up)
    ensures |roots| == 2 * Pow2(up - 1)
    ensures MerkleRoot(h, up, roots)
         == Join(h, MerkleRoot(h, up - 1, roots[..Pow2(up - 1)]), MerkleRoot(h, up - 1, roots[Pow2(up - 1)..]))
  {
    hide Join;
  }

  /** The tree over the segment roots has the plain root of all slots. */
  lemma {:induction false} RootOfRoots(h: Hasher, up: nat, low: nat, parts: seq<seq<SlotValue>>)
    requires |parts| == Pow2(up) && Sized(parts, Pow2(low))
    ensures |Flat(parts)| == Pow2(up + low)
    ensures SlotsRoot(h, up + low, Flat(parts)) == MerkleRoot(h, up, Roots(h, low, parts))
    decreases up
  {
    hide SlotsRoot, MerkleRoot, Pow2, Flat, Join, Sized;
    if up == 0 {
      RootOfOne(h, low, parts);
    } else {
      var half := Pow2(up - 1);
      Pow2Doubles(up - 1);
      RootsSplit(h, low, parts, half);
      MerkleSplits(h, up, Roots(h, low, parts));
      RootOfRoots(h, up - 1, low, parts[..half]);
      RootOfRoots(h, up - 1, low, parts[half..]);
      assert parts == parts[..half] + parts[half..];
      FlatConcat(parts[..half], parts[half..]);
      SlotsRootJoins(h, up - 1 + low, Flat(parts[..half]), Flat(parts[half..]));
    }
  }

  lemma {:induction false} RootOfOne(h: Hasher, low: nat, parts: seq<seq<SlotValue>>)
    requires |parts| == Pow2(0) && Sized(parts, Pow2(low))
    ensures |Flat(parts)| == Pow2(0 + low)
    ensures SlotsRoot(h, 0 + low, Flat(parts)) == MerkleRoot(h, 0, Roots(h, low, parts))
  {
    hide SlotsRoot;
    FlatOne(parts[0]);
    assert parts == [parts[0]];
  }

  // ---------------------------------------------------------------------- the cache

  function UpperDepth(logSlots: nat): nat {
    logSlots - LogSegment(logSlots)
  }

  lemma {:induction false} SegmentCount(logSlots: nat)
    ensures NumSegments(logSlots) == Pow2(UpperDepth(logSlots))
    ensures UpperDepth(logSlots) + LogSegment(logSlots) == logSlots
  {
  }

  /** A full set of segments fills the domain. */
  lemma {:induction false} DomainSize(logSlots: nat, parts: seq<seq<SlotValue>>)
    requires |parts| == NumSegments(logSlots) && Sized(parts, Pow2(LogSegment(logSlots)))
    ensures |Flat(parts)| == Pow2(logSlots)
  {
    hide Pow2, Flat, NumSegments, LogSegment, Sized;
    FlatLength(parts, Pow2(LogSegment(logSlots)));
    SegmentsCoverSlots(logSlots);
  }

  /** The node array over the segment roots; position 0 is never read. */
  ghost predicate TreeOver(h: Hasher, roots: seq<StateHash>, tree: seq<StateHash>) {
    |roots| >= 1 && |tree| == 2 * |roots| && tree[0 := ZeroRoot(h, 0)] == NodesOver(h, roots)
  }

  lemma {:induction false} TreeFromRules(h: Hasher, roots: seq<StateHash>, tree: seq<StateHash>)
    requires |roots| >= 1 && |tree| == 2 * |roots| && tree[|roots|..] == roots
    requires forall m :: 1 <= m < |roots| ==> NodeOk(h, tree, m)
    ensures TreeOver(h, roots, tree)
  {
    hide Join;
    var nodes := tree[0 := ZeroRoot(h, 0)];
    assert nodes[|roots|..] == tree[|roots|..];
    forall m | 1 <= m < |roots| ensures NodeOk(h, nodes, m) {
      assert NodeOk(h, tree, m);
    }
    LocalRulesGiveNodes(h, roots, nodes);
  }

  lemma {:induction false} RulesFromTree(h: Hasher, roots: seq<StateHash>, tree: seq<StateHash>)
    requires TreeOver(h, roots, tree)
    ensures |tree| == 2 * |roots| && tree[|roots|..] == roots
    ensures forall m :: 1 <= m < |roots| ==> NodeOk(h, tree, m)
  {
    hide Join;
    var nodes := tree[0 := ZeroRoot(h, 0)];
    NodesObeyLocalRules(h, roots);
    assert tree[|roots|..] == nodes[|roots|..];
    forall m | 1 <= m < |roots| ensures NodeOk(h, tree, m) {
      assert NodeOk(h, nodes, m);
    }
  }

  lemma {:induction false} TreeRoot(h: Hasher, up: nat, roots: seq<StateHash>, tree: seq<StateHash>)
    requires |roots| == Pow2(up) && TreeOver(h, roots, tree)
    ensures tree[1] == MerkleRoot(h, up, roots)
  {
    RootHeadsTree(h, up, roots);
  }

  method BuildTree(h: Hasher, roots: seq<StateHash>, fill: StateHash) returns (tree: seq<StateHash>)
    requires |roots| >= 1
    ensures TreeOver(h, roots, tree)
  {
    hide Join, NodesOver;
    var count := |roots|;
    var nodes := new StateHash[2 * count](_ => fill);
    for i := 0 to count
      invariant forall j :: 0 <= j < i ==> nodes[count + j] == roots[j]
    {
      nodes[count + i] := roots[i];
    }
    assert nodes[count..] == roots;
    var k := count;
    while k > 1
      invariant 1 <= k <= count && nodes[count..] == roots
      invariant forall m :: k <= m < count ==> NodeOk(h, nodes[..], m)
    {
      k := k - 1;
      ghost var before := nodes[..];
      nodes[k] := Join(h, nodes[2 * k], nodes[2 * k + 1]);
      forall m | k <= m < count ensures NodeOk(h, nodes[..], m) {
        if m > k { assert NodeOk(h, before, m); }
      }
    }
    tree := nodes[..];
    TreeFromRules(h, roots, tree);
  }

  function ZeroSegments(h: Hasher, low: nat, n: nat): (roots: seq<StateHash>)
    ensures |roots| == n && forall i :: 0 <= i < n ==> roots[i] == ZeroRoot(h, low)
  {
    if n == 0 then [] else ZeroSegments(h, low, n - 1) + [ZeroRoot(h, low)]
  }

  lemma {:induction false} ZeroSegmentsRoot(h: Hasher, up: nat, low: nat, roots: seq<StateHash>)
    requires |roots| == Pow2(up) && forall i :: 0 <= i < |roots| ==> roots[i] == ZeroRoot(h, low)
    ensures MerkleRoot(h, up, roots) == ZeroRoot(h, up + low)
    decreases up
  {
    hide Join;
    if up > 0 {
      ZeroSegmentsRoot(h, up - 1, low, roots[..Pow2(up - 1)]);
      ZeroSegmentsRoot(h, up - 1, low, roots[Pow2(up - 1)..]);
    }
  }

  /** The roots one level up: a single segment doubles under a new node, several get empty neighbours. */
  function ExpandedRoots(h: Hasher, logSlots: nat, roots: seq<StateHash>): (expanded: seq<StateHash>)
    requires |roots| == NumSegments(logSlots)
  {
    if logSlots + 1 <= LOG_SEGMENT_SIZE then [Join(h, roots[0], ZeroRoot(h, logSlots))]
    else roots + ZeroSegments(h, LogSegment(logSlots), |roots|)
  }

  /** Expanding puts the old tree on the left of an empty one. */
  lemma {:induction false} ExpandedTotal(h: Hasher, logSlots: nat, roots: seq<StateHash>)
    requires |roots| == NumSegments(logSlots)
    ensures NumSegments(logSlots) == Pow2(UpperDepth(logSlots))
    ensures |ExpandedRoots(h, logSlots, roots)| == NumSegments(logSlots + 1) == Pow2(UpperDepth(logSlots + 1))
    ensures MerkleRoot(h, UpperDepth(logSlots + 1), ExpandedRoots(h, logSlots, roots))
         == Join(h, MerkleRoot(h, UpperDepth(logSlots), roots), ZeroRoot(h, logSlots))
  {
    hide Join, ZeroRoot;
    SegmentCount(logSlots);
    SegmentCount(logSlots + 1);
    if logSlots + 1 > LOG_SEGMENT_SIZE {
      var up, all, zeros := UpperDepth(logSlots), ExpandedRoots(h, logSlots, roots),
          ZeroSegments(h, LogSegment(logSlots), |roots|);
      Pow2Doubles(up);
      MerkleSplits(h, up + 1, all);
      assert all[..Pow2(up)] == roots && all[Pow2(up)..] == zeros;
      ZeroSegmentsRoot(h, up, LogSegment(logSlots), zeros);
    }
  }

  /** The record of a hierarchy that is behind the domain, expanded until it reaches it. */
  ghost function GrownRoots(h: Hasher, logRoots: nat, roots: seq<StateHash>, log: nat): seq<StateHash>
    requires |roots| == NumSegments(logRoots)
    decreases log - logRoots
  {
    if logRoots >= log then roots
    else
      ExpandedLength(h, logRoots, roots);
      GrownRoots(h, logRoots + 1, ExpandedRoots(h, logRoots, roots), log)
  }

  lemma {:induction false} ExpandedLength(h: Hasher, logSlots: nat, roots: seq<StateHash>)
    requires |roots| == NumSegments(logSlots)
    ensures |ExpandedRoots(h, logSlots, roots)| == NumSegments(logSlots + 1)
  {
    if logSlots + 1 > LOG_SEGMENT_SIZE { HalfAsMany(logSlots + 1); }
  }

  lemma {:induction false} GrownLength(h: Hasher, logRoots: nat, roots: seq<StateHash>, log: nat)
    requires |roots| == NumSegments(logRoots) && logRoots <= log
    ensures |GrownRoots(h, logRoots, roots, log)| == NumSegments(log)
    decreases log - logRoots
  {
    hide NumSegments, ExpandedRoots;
    if logRoots < log {
      ExpandedLength(h, logRoots, roots);
      GrownLength(h, logRoots + 1, ExpandedRoots(h, logRoots, roots), log);
    }
  }

  /** One more level of the domain is one more expansion of what was reached. */
  lemma {:induction false} GrownStep(h: Hasher, logRoots: nat, roots: seq<StateHash>, log: nat)
    requires |roots| == NumSegments(logRoots) && logRoots <= log
    ensures |GrownRoots(h, logRoots, roots, log)| == NumSegments(log)
    ensures GrownRoots(h, logRoots, roots, log + 1) == ExpandedRoots(h, log, GrownRoots(h, logRoots, roots, log))
    decreases log - logRoots
  {
    hide NumSegments, ExpandedRoots;
    ExpandedLength(h, logRoots, roots);
    if logRoots < log {
      GrownStep(h, logRoots + 1, ExpandedRoots(h, logRoots, roots), log);
    } else {
      assert GrownRoots(h, log + 1, ExpandedRoots(h, log, roots), log + 1) == ExpandedRoots(h, log, roots);
    }
  }

  /** From one full segment on, expanding only appends. */
  lemma {:induction false} GrownExtends(h: Hasher, logRoots: nat, roots: seq<StateHash>, log: nat, log': nat)
    requires |roots| == NumSegments(logRoots) && logRoots <= log <= log' && log >= LOG_SEGMENT_SIZE
    ensures GrownRoots(h, logRoots, roots, log) <= GrownRoots(h, logRoots, roots, log')
    decreases log'
  {
    hide NumSegments, GrownRoots;
    if log < log' {
      GrownExtends(h, logRoots, roots, log, log' - 1);
      GrownStep(h, logRoots, roots, log' - 1);
    }
  }

  lemma {:induction false} MoreSegments(log: nat, log': nat)
    requires log <= log'
    ensures NumSegments(log) <= NumSegments(log')
  {
    if log > LOG_SEGMENT_SIZE { Pow2Monotone(log - LOG_SEGMENT_SIZE, log' - LOG_SEGMENT_SIZE); }
  }

  /** The records of two depths agree on the segments of the shallower one. */
  lemma {:induction false} GrownCommon(h: Hasher, logRoots: nat, roots: seq<StateHash>, log: nat, log': nat, s: nat)
    requires |roots| == NumSegments(logRoots) && log <= log' && (log >= LOG_SEGMENT_SIZE || log == log')
    requires s < NumSegments(log)
    ensures s < |GrownRoots(h, logRoots, roots, log)| && s < |GrownRoots(h, logRoots, roots, log')|
    ensures GrownRoots(h, logRoots, roots, log)[s] == GrownRoots(h, logRoots, roots, log')[s]
  {
    hide NumSegments, ExpandedRoots;
    MoreSegments(log, if logRoots < log then log else logRoots);
    if logRoots <= log {
      GrownLength(h, logRoots, roots, log);
      if log < log' { GrownExtends(h, logRoots, roots, log, log'); }
    } else if logRoots <= log' {
      GrownExtends(h, logRoots, roots, logRoots, log');
    }
  }

  class ExactSegmentRootCache {
    const h: Hasher
    const fill: StateHash
    var logSlots: nat
    var segmentRoots: seq<StateHash>
    var tree: seq<StateHash>

    /** With one segment the tree is not kept. */
    ghost predicate Valid()
      reads this
    {
      |segmentRoots| == NumSegments(logSlots) && (|segmentRoots| > 1 ==> TreeOver(h, segmentRoots, tree))
    }

    ghost function Total(): StateHash
      requires Valid()
      reads this
    {
      SegmentCount(logSlots);
      MerkleRoot(h, UpperDepth(logSlots), segmentRoots)
    }

    constructor (h: Hasher, fill: StateHash, logSlots: nat)
      ensures Valid() && this.h == h && this.logSlots == logSlots
      ensures segmentRoots == ZeroSegments(h, LogSegment(logSlots), NumSegments(logSlots))
    {
      hide TreeOver;
      var roots := ZeroSegments(h, LogSegment(logSlots), NumSegments(logSlots));
      var nodes := BuildTree(h, roots, fill);
      this.h := h;
      this.fill := fill;
      this.logSlots := logSlots;
      segmentRoots := roots;
      tree := nodes;
    }

    constructor Copy(from: ExactSegmentRootCache)
      requires from.Valid()
      ensures Valid() && h == from.h && logSlots == from.logSlots && segmentRoots == from.segmentRoots
    {
      h := from.h;
      fill := from.fill;
      logSlots := from.logSlots;
      segmentRoots := from.segmentRoots;
      tree := from.tree;
    }

    method Root() returns (root: StateHash)
      requires Valid()
      ensures root == Total()
    {
      SegmentCount(logSlots);
      if |segmentRoots| == 1 {
        SingleRoot(h, logSlots, segmentRoots);
        return segmentRoots[0];
      }
      TreeRoot(h, UpperDepth(logSlots), segmentRoots, tree);
      return tree[1];
    }

    method SetSegmentRoot(index: nat, root: StateHash)
      requires Valid() && index < |segmentRoots|
      modifies this`segmentRoots, this`tree
      ensures Valid() && segmentRoots == old(segmentRoots)[index := root]
    {
      hide Join, NodesOver, TreeOver;
      ghost var before := segmentRoots;
      segmentRoots := segmentRoots[index := root];
      if |segmentRoots| == 1 {
        return;
      }
      RulesFromTree(h, before, tree);
      var count := |segmentRoots|;
      var node := count + index;
      ghost var nodes := tree;
      tree := tree[node := root];
      assert tree[count..] == segmentRoots;
      forall m | 1 <= m < count && m != node / 2 ensures NodeOk(h, tree, m) {
        assert NodeOk(h, nodes, m);
      }
      while node > 1
        invariant 1 <= node < 2 * count && |tree| == 2 * count
        invariant segmentRoots == before[index := root] && tree[count..] == segmentRoots
        invariant forall m :: 1 <= m < count && m != node / 2 ==> NodeOk(h, tree, m)
      {
        node := node / 2;
        nodes := tree;
        tree := tree[node := Join(h, tree[2 * node], tree[2 * node + 1])];
        assert tree[count..] == nodes[count..];
        forall m | 1 <= m < count && m != node / 2 ensures NodeOk(h, tree, m) {
          if m != node { assert NodeOk(h, nodes, m); }
        }
      }
      TreeFromRules(h, segmentRoots, tree);
    }

    method ExpandOne()
      requires Valid()
      modifies this`logSlots, this`segmentRoots, this`tree
      ensures Valid() && logSlots == old(logSlots) + 1
      ensures segmentRoots == ExpandedRoots(h, old(logSlots), old(segmentRoots))
      ensures Total() == Join(h, old(Total()), ZeroRoot(h, old(logSlots)))
    {
      hide TreeOver, MerkleRoot;
      ExpandedTotal(h, logSlots, segmentRoots);
      var oldLog := logSlots;
      var oldRoot := Root();
      logSlots := logSlots + 1;
      if logSlots <= LOG_SEGMENT_SIZE {
        SingleRoot(h, oldLog, segmentRoots);
        segmentRoots := [Join(h, oldRoot, ZeroRoot(h, oldLog))];
      } else {
        segmentRoots := segmentRoots + ZeroSegments(h, LogSegment(oldLog), |segmentRoots|);
      }
      tree := BuildTree(h, segmentRoots, fill);
    }

    /** Drop upper halves; a single segment's root is a placeholder until it is refreshed. */
    method ShrinkTo(target: nat)
      requires Valid()
      modifies this`logSlots, this`segmentRoots, this`tree
      ensures Valid() && logSlots == Min(target, old(logSlots))
      ensures logSlots >= LOG_SEGMENT_SIZE || logSlots == old(logSlots) ==>
                |segmentRoots| <= |old(segmentRoots)| && segmentRoots == old(segmentRoots)[..|segmentRoots|]
    {
      hide TreeOver;
      while logSlots > target
        invariant Valid() && Min(target, old(logSlots)) <= logSlots <= old(logSlots)
        invariant logSlots >= LOG_SEGMENT_SIZE || logSlots == old(logSlots) ==>
                    |segmentRoots| <= |old(segmentRoots)| && segmentRoots == old(segmentRoots)[..|segmentRoots|]
      {
        if logSlots <= LOG_SEGMENT_SIZE {
          logSlots := logSlots - 1;
          segmentRoots := [ZeroRoot(h, logSlots)];
        } else {
          HalfAsMany(logSlots);
          logSlots := logSlots - 1;
          segmentRoots := segmentRoots[..|segmentRoots| / 2];
        }
        tree := BuildTree(h, segmentRoots, fill);
      }
    }
  }

  lemma {:induction false} SingleRoot(h: Hasher, logSlots: nat, roots: seq<StateHash>)
    requires |roots| == NumSegments(logSlots) == Pow2(UpperDepth(logSlots)) == 1
    ensures MerkleRoot(h, UpperDepth(logSlots), roots) == roots[0]
  {
  }

  lemma {:induction false} HalfAsMany(logSlots: nat)
    requires logSlots > LOG_SEGMENT_SIZE
    ensures NumSegments(logSlots) == 2 * NumSegments(logSlots - 1)
  {
  }
}
