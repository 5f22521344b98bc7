/** Nonce mining split over threads: every thread hashes its own range in batches,
    counts into one shared counter, and the digests are XOR-reduced at the end. */
module PowPartition {
  import opened Powers

  const DIGEST_BATCH: nat := 256
  const DIGEST_BYTES: nat := 32

  /** A digest as words of bits, the form in which it is XORed. */
  type BitDigest = d: seq<bv8> | |d| == DIGEST_BYTES witness Repeat(DIGEST_BYTES)

  function Repeat(n: nat): (zeros: seq<bv8>)
    ensures |zeros| == n && forall i :: 0 <= i < n ==> zeros[i] == 0
  {
    if n == 0 then [] else Repeat(n - 1) + [0]
  }

  // ----------------------------------------------------------------------- XOR

  function Zero(): BitDigest {
    Repeat(DIGEST_BYTES)
  }

  function XorBytes(a: seq<bv8>, b: seq<bv8>): (c: seq<bv8>)
    requires |a| == |b|
    ensures |c| == |a| && forall i :: 0 <= i < |a| ==> c[i] == a[i] ^ b[i]
  {
    if a == [] then [] else XorBytes(a[..|a| - 1], b[..|b| - 1]) + [a[|a| - 1] ^ b[|b| - 1]]
  }

  function Xor(a: BitDigest, b: BitDigest): BitDigest {
    XorBytes(a, b)
  }

  lemma {:induction false} XorComm(a: BitDigest, b: BitDigest)
    ensures Xor(a, b) == Xor(b, a)
  {
  }

  lemma {:induction false} XorAssoc(a: BitDigest, b: BitDigest, c: BitDigest)
    ensures Xor(Xor(a, b), c) == Xor(a, Xor(b, c))
  {
    var x, y := Xor(Xor(a, b), c), Xor(a, Xor(b, c));
    forall i | 0 <= i < DIGEST_BYTES ensures x[i] == y[i] {
      assert x[i] == (a[i] ^ b[i]) ^ c[i] && y[i] == a[i] ^ (b[i] ^ c[i]);
    }
  }

  lemma {:induction false} XorZero(a: BitDigest)
    ensures Xor(Zero(), a) == a && Xor(a, Zero()) == a && |a| == 32
  {
  }

  /** In place, byte by byte. */
  method XorDigest(lhs: array<bv8>, rhs: BitDigest)
    requires lhs.Length == DIGEST_BYTES
    modifies lhs
    ensures lhs[..] == Xor(old(lhs[..]), rhs)
  {
    for i := 0 to DIGEST_BYTES
      invariant forall j :: 0 <= j < i ==> lhs[j] == old(lhs[j]) ^ rhs[j]
      invariant forall j :: i <= j < DIGEST_BYTES ==> lhs[j] == old(lhs[j])
    {
      lhs[i] := lhs[i] ^ rhs[i];
    }
  }

  // -------------------------------------------------------------------- ranges

  /** The nonces from `lo` up to `hi`, none when the range is empty. */
  function Range(lo: nat, hi: nat): seq<nat>
    decreases hi
  {
    if lo >= hi then [] else Range(lo, hi - 1) + [hi - 1]
  }

  type Hash = nat -> BitDigest

  function XorRange(hash: Hash, lo: nat, hi: nat): BitDigest
    decreases hi
  {
    if lo >= hi then Zero() else Xor(XorRange(hash, lo, hi - 1), hash(hi - 1))
  }

  lemma {:induction false} RangeSplits(lo: nat, mid: nat, hi: nat)
    requires lo <= mid <= hi
    ensures Range(lo, hi) == Range(lo, mid) + Range(mid, hi)
    decreases hi
  {
    if mid < hi { RangeSplits(lo, mid, hi - 1); }
  }

  lemma {:induction false} XorSplits(hash: Hash, lo: nat, mid: nat, hi: nat)
    requires lo <= mid <= hi
    ensures XorRange(hash, lo, hi) == Xor(XorRange(hash, lo, mid), XorRange(hash, mid, hi))
    decreases hi
  {
    hide Xor, Zero;
    if mid < hi {
      XorSplits(hash, lo, mid, hi - 1);
      XorAssoc(XorRange(hash, lo, mid), XorRange(hash, mid, hi - 1), hash(hi - 1));
    } else {
      XorZero(XorRange(hash, lo, mid));
    }
  }

  // ----------------------------------------------------------- one batched loop

  method HashInto(hash: Hash, nonce: nat, n: nat) returns (digests: seq<BitDigest>)
    ensures |digests| == n && forall i :: 0 <= i < n ==> digests[i] == hash(nonce + i)
  {
    digests := [];
    for i := 0 to n
      invariant |digests| == i && forall j :: 0 <= j < i ==> digests[j] == hash(nonce + j)
    {
      digests := digests + [hash(nonce + i)];
    }
  }

  /** The loop of a single thread over `[start, end)`; the sequential benchmark is the one
      over `[0, attempts)`. `hashed` lists the nonces in the order they are hashed. */
  method MineRange(hash: Hash, start: nat, end: nat) returns (sink: BitDigest, done: nat, ghost hashed: seq<nat>)
    ensures sink == XorRange(hash, start, end)
    ensures done == if start <= end then end - start else 0
    ensures hashed == Range(start, end)
  {
    hide Xor, Zero, XorRange;
    var local := new bv8[DIGEST_BYTES](_ => 0);
    EmptyRange(hash, start);
    assert local[..] == Zero() by { ZeroBytes(local[..]); }
    var nonce := start;
    done := 0;
    hashed := [];
    while nonce < end
      invariant if start <= end then start <= nonce <= end else nonce == start
      invariant local[..] == XorRange(hash, start, nonce) && done == nonce - start && hashed == Range(start, nonce)
      invariant fresh(local)
      decreases end - nonce
    {
      var n := if end - nonce < DIGEST_BATCH then end - nonce else DIGEST_BATCH;
      var digests := HashInto(hash, nonce, n);
      for i := 0 to n
        invariant local[..] == XorRange(hash, start, nonce + i) && hashed == Range(start, nonce + i)
      {
        XorDigest(local, digests[i]);
        NextNonce(hash, start, nonce + i);
        hashed := hashed + [nonce + i];
      }
      done := done + n;
      nonce := nonce + n;
    }
    sink := local[..];
    if start > end { EmptyBelow(hash, start, end); }
  }

  lemma {:induction false} ZeroBytes(d: seq<bv8>)
    requires |d| == DIGEST_BYTES && forall i :: 0 <= i < |d| ==> d[i] == 0
    ensures d == Zero()
  {
  }

  lemma {:induction false} EmptyRange(hash: Hash, at: nat)
    ensures XorRange(hash, at, at) == Zero() && Range(at, at) == []
  {
  }

  lemma {:induction false} EmptyBelow(hash: Hash, start: nat, end: nat)
    requires end <= start
    ensures XorRange(hash, start, end) == XorRange(hash, start, start) && Range(start, end) == []
  {
  }

  lemma {:induction false} NextNonce(hash: Hash, lo: nat, nonce: nat)
    requires lo <= nonce
    ensures XorRange(hash, lo, nonce + 1) == Xor(XorRange(hash, lo, nonce), hash(nonce))
    ensures Range(lo, nonce + 1) == Range(lo, nonce) + [nonce]
  {
    hide Xor;
  }

  // ------------------------------------------------------- the partition itself

  datatype Job = Job(hash: Hash, attempts: nat, threads: nat)

  /** Attempts per thread, rounded up. */
  function PerThread(job: Job): nat
    requires job.threads >= 1
  {
    Quotient(job.attempts + job.threads - 1, job.threads)
  }

  /** The smallest equal share that covers the attempts. */
  lemma {:induction false} PerThreadIsLeast(job: Job, share: nat)
    requires job.threads >= 1
    ensures share * job.threads >= job.attempts <==> share >= PerThread(job)
  {
    var n, d := job.attempts, job.threads;
    var q := Quotient(n + d - 1, d);
    assert q * d <= n + d - 1 < q * d + d;
    hide Quotient;
    if share >= q {
      MoreShares(q, share, d);
    } else {
      MoreShares(share + 1, q, d);
      MoreShares(share, share + 1, d);
    }
  }

  lemma {:induction false} MoreShares(a: nat, b: nat, d: nat)
    requires a <= b
    ensures a * d <= b * d && b * d == a * d + (b - a) * d
  {
  }

  function Start(job: Job, thread: nat): nat
    requires job.threads >= 1
  {
    Times(thread, PerThread(job))
  }

  function End(job: Job, thread: nat): nat
    requires job.threads >= 1
  {
    Min(Start(job, thread) + PerThread(job), job.attempts)
  }

  /** Where the ranges of the first `k` threads end together. */
  function Frontier(job: Job, k: nat): nat
    requires job.threads >= 1
  {
    Min(Start(job, k), job.attempts)
  }

  lemma {:induction false} FrontierSteps(job: Job, k: nat)
    requires job.threads >= 1
    ensures Frontier(job, 0) == 0 && Frontier(job, k) <= Frontier(job, k + 1)
    ensures if Start(job, k) <= End(job, k) then Frontier(job, k) == Start(job, k) && Frontier(job, k + 1) == End(job,
        k)
            else Frontier(job, k) == Frontier(job, k + 1) == job.attempts
  {
    TimesOneMore(k, PerThread(job));
    hide PerThread;
    assert Times(0, PerThread(job)) == 0;
  }

  lemma {:induction false} FrontierEnds(job: Job)
    requires job.threads >= 1
    ensures Frontier(job, job.threads) == job.attempts
  {
    var q := PerThread(job);
    assert q * job.threads >= job.attempts;
    assert Times(job.threads, q) == q * job.threads;
  }

  // --------------------------------------------------- every interleaving of it

  /** What all threads have done so far: where each one's current batch starts, the next nonce it will
      hash, and its XOR. `hashed` is the order in which nonces were hashed across threads; `done` is the
      shared counter, which a thread adds to once its batch is complete. */
  datatype Pool = Pool(nonces: seq<nat>, ats: seq<nat>, sinks: seq<BitDigest>, done: nat, hashed: seq<nat>)

  ghost predicate Shaped(job: Job, p: Pool) {
    job.threads >= 1 && |p.nonces| == |p.ats| == |p.sinks| == job.threads
  }

  /** Where the current batch of a thread ends. */
  function BatchEnd(job: Job, nonce: nat, t: nat): nat
    requires job.threads >= 1
  {
    if nonce < End(job, t) then Min(End(job, t), nonce + DIGEST_BATCH) else nonce
  }

  /** What is kept about one thread. */
  ghost predicate ThreadOk(job: Job, p: Pool, t: nat)
    requires Shaped(job, p) && t < job.threads
  {
    && Start(job, t) <= p.nonces[t] <= p.ats[t] <= BatchEnd(job, p.nonces[t], t)
    && (if Start(job, t) <= End(job, t) then p.nonces[t] <= End(job, t) else p.nonces[t] == Start(job, t))
    && p.sinks[t] == XorRange(job.hash, Start(job, t), p.ats[t])
  }

  /** How far the threads are past their starts, together. */
  function Counted(job: Job, nonces: seq<nat>, k: nat): int
    requires job.threads >= 1 && k <= |nonces|
  {
    if k == 0 then 0 else Counted(job, nonces, k - 1) + nonces[k - 1] - Start(job, k - 1)
  }

  function Covered(job: Job, nonces: seq<nat>, k: nat): multiset<nat>
    requires job.threads >= 1 && k <= |nonces|
  {
    if k == 0 then multiset{} else Covered(job, nonces, k - 1) + multiset(Range(Start(job, k - 1), nonces[k - 1]))
  }

  ghost predicate Inv(job: Job, p: Pool) {
    && Shaped(job, p)
    && (forall t: nat :: t < job.threads ==> ThreadOk(job, p, t))
    && p.done == Counted(job, p.nonces, job.threads)
    && |p.hashed| == Counted(job, p.ats, job.threads)
    && multiset(p.hashed) == Covered(job, p.ats, job.threads)
  }

  /** One thread hashes its next nonce, or adds its finished batch to the counter and moves on. */
  datatype Move = HashNext(t: nat) | CountBatch(t: nat)

  ghost predicate Enabled(job: Job, p: Pool, move: Move) {
    && Shaped(job, p) && move.t < job.threads
    && match move
       case HashNext(t) => p.ats[t] < BatchEnd(job, p.nonces[t], t)
       case CountBatch(t) => p.nonces[t] < p.ats[t] == BatchEnd(job, p.nonces[t], t)
  }

  function Moved(job: Job, p: Pool, move: Move): Pool
    requires Enabled(job, p, move)
  {
    match move
    case HashNext(t) =>
      var nonce := p.ats[t];
      p.(ats := p.ats[t := nonce + 1], sinks := p.sinks[t := Xor(p.sinks[t], job.hash(nonce))],
         hashed := p.hashed + [nonce])
    case CountBatch(t) =>
      p.(nonces := p.nonces[t := p.ats[t]], done := p.done + (p.ats[t] - p.nonces[t]))
  }

  lemma {:induction false} CountedMoves(job: Job, nonces: seq<nat>, t: nat, next: nat, k: nat)
    requires job.threads >= 1 && t < |nonces| && k <= |nonces|
    ensures Counted(job, nonces[t := next], k) == Counted(job, nonces, k) + if t < k then next - nonces[t] else 0
    decreases k
  {
    hide Start;
    if k > 0 { CountedMoves(job, nonces, t, next, k - 1); }
  }

  lemma {:induction false} CoveredMoves(job: Job, nonces: seq<nat>, t: nat, next: nat, k: nat)
    requires job.threads >= 1 && t < |nonces| && k <= |nonces| && Start(job, t) <= nonces[t] <= next
    ensures Covered(job, nonces[t := next], k) ==
            Covered(job, nonces, k) + if t < k then multiset(Range(nonces[t], next)) else multiset{}
    decreases k
  {
    hide Start, Range;
    if k > 0 {
      CoveredMoves(job, nonces, t, next, k - 1);
      if t == k - 1 { RangeSplits(Start(job, t), nonces[t], next); }
    }
  }

  lemma {:induction false} NextCovered(job: Job, p: Pool, t: nat)
    requires Inv(job, p) && t < job.threads
    ensures multiset(p.hashed + [p.ats[t]]) == Covered(job, p.ats[t := p.ats[t] + 1], job.threads)
  {
    hide Start, End, BatchEnd, XorRange, Counted, Covered, Range;
    assert ThreadOk(job, p, t);
    CoveredMoves(job, p.ats, t, p.ats[t] + 1, job.threads);
    NextNonce(job.hash, p.ats[t], p.ats[t]);
    EmptyRange(job.hash, p.ats[t]);
  }

  lemma {:induction false} HashKeepsThread(job: Job, p: Pool, t: nat)
    requires Enabled(job, p, HashNext(t)) && ThreadOk(job, p, t)
    ensures ThreadOk(job, Moved(job, p, HashNext(t)), t)
  {
    hide Start, End, BatchEnd, Xor, XorRange, Range;
    NextNonce(job.hash, Start(job, t), p.ats[t]);
  }

  lemma {:induction false} HashKeepsInv(job: Job, p: Pool, t: nat)
    requires Inv(job, p) && Enabled(job, p, HashNext(t))
    ensures Inv(job, Moved(job, p, HashNext(t)))
  {
    hide Start, End, BatchEnd, Xor, XorRange, Range, Counted, Covered;
    var q := Moved(job, p, HashNext(t));
    assert ThreadOk(job, p, t);
    HashKeepsThread(job, p, t);
    NextCovered(job, p, t);
    CountedMoves(job, p.ats, t, p.ats[t] + 1, job.threads);
    forall u: nat | u < job.threads ensures ThreadOk(job, q, u) {
      assert ThreadOk(job, p, u);
    }
  }

  lemma {:induction false} CountKeepsThread(job: Job, p: Pool, t: nat)
    requires Enabled(job, p, CountBatch(t)) && ThreadOk(job, p, t)
    ensures ThreadOk(job, Moved(job, p, CountBatch(t)), t)
  {
    hide Start, End, XorRange;
  }

  lemma {:induction false} CountKeepsInv(job: Job, p: Pool, t: nat)
    requires Inv(job, p) && Enabled(job, p, CountBatch(t))
    ensures Inv(job, Moved(job, p, CountBatch(t)))
  {
    hide Start, End, BatchEnd, XorRange, Range, Counted, Covered;
    var q := Moved(job, p, CountBatch(t));
    assert ThreadOk(job, p, t);
    CountKeepsThread(job, p, t);
    CountedMoves(job, p.nonces, t, p.ats[t], job.threads);
    forall u: nat | u < job.threads ensures ThreadOk(job, q, u) {
      assert ThreadOk(job, p, u);
    }
  }

  /** Every step of every thread keeps the invariant and does something. */
  lemma {:induction false} MoveKeepsInv(job: Job, p: Pool, move: Move)
    requires Inv(job, p) && Enabled(job, p, move)
    ensures Inv(job, Moved(job, p, move))
    ensures |p.hashed| + p.done < |Moved(job, p, move).hashed| + Moved(job, p, move).done
  {
    match move {
      case HashNext(t) => HashKeepsInv(job, p, t);
      case CountBatch(t) => CountKeepsInv(job, p, t);
    }
    hide Inv;
  }

  /** The counter runs behind the hashes, by at most one batch for each of the first `k` threads. */
  lemma {:induction false} CounterLags(job: Job, p: Pool, k: nat)
    requires Inv(job, p) && Shaped(job, p) && k <= job.threads
    ensures Counted(job, p.nonces, k) <= Counted(job, p.ats, k) <= Counted(job, p.nonces, k) + Times(k, DIGEST_BATCH)
  {
    hide Start, End, XorRange, Covered, Times;
    if k == 0 {
      NoBatches();
    } else {
      CounterLags(job, p, k - 1);
      TimesOneMore(k - 1, DIGEST_BATCH);
      assert ThreadOk(job, p, k - 1);
    }
  }

  lemma {:induction false} NoBatches()
    ensures Times(0, DIGEST_BATCH) == 0
  {
  }

  function Starts(job: Job, k: nat): (nonces: seq<nat>)
    requires job.threads >= 1
    ensures |nonces| == k && forall t :: 0 <= t < k ==> nonces[t] == Start(job, t)
  {
    if k == 0 then [] else Starts(job, k - 1) + [Start(job, k - 1)]
  }

  function Sinks(k: nat): (sinks: seq<BitDigest>)
    ensures |sinks| == k && forall t :: 0 <= t < k ==> sinks[t] == Zero()
  {
    if k == 0 then [] else Sinks(k - 1) + [Zero()]
  }

  function Initial(job: Job): Pool
    requires job.threads >= 1
  {
    Pool(Starts(job, job.threads), Starts(job, job.threads), Sinks(job.threads), 0, [])
  }

  lemma {:induction false} NothingYet(job: Job, nonces: seq<nat>, k: nat)
    requires job.threads >= 1 && k <= |nonces| && forall t: nat :: t < k ==> nonces[t] == Start(job, t)
    ensures Counted(job, nonces, k) == 0 && Covered(job, nonces, k) == multiset{}
  {
    hide Start;
    if k > 0 { NothingYet(job, nonces, k - 1); }
  }

  lemma {:induction false} InitialInv(job: Job)
    requires job.threads >= 1
    ensures Inv(job, Initial(job))
  {
    hide Zero, Counted, Covered, Starts, Sinks, PerThread;
    NothingYet(job, Starts(job, job.threads), job.threads);
  }

  /** Some interleaving of the threads, step by step. */
  ghost predicate Reaches(job: Job, p: Pool, schedule: seq<Move>, q: Pool)
    decreases |schedule|
  {
    if schedule == [] then p == q
    else Enabled(job, p, schedule[0]) && Reaches(job, Moved(job, p, schedule[0]), schedule[1..], q)
  }

  lemma {:induction false} ScheduleKeepsInv(job: Job, p: Pool, schedule: seq<Move>, q: Pool)
    requires Inv(job, p) && Reaches(job, p, schedule, q)
    ensures Inv(job, q) && |p.hashed| + p.done + |schedule| <= |q.hashed| + q.done
    decreases |schedule|
  {
    hide Inv, Enabled, Moved;
    if schedule != [] {
      MoveKeepsInv(job, p, schedule[0]);
      ScheduleKeepsInv(job, Moved(job, p, schedule[0]), schedule[1..], q);
    }
  }

  ghost predicate Finished(job: Job, p: Pool) {
    forall move: Move :: !Enabled(job, p, move)
  }

  function XorSinks(sinks: seq<BitDigest>, k: nat): BitDigest
    requires k <= |sinks|
  {
    if k == 0 then Zero() else Xor(XorSinks(sinks, k - 1), sinks[k - 1])
  }

  lemma {:induction false} ThreadFinished(job: Job, p: Pool, t: nat)
    requires Inv(job, p) && Finished(job, p) && t < job.threads
    ensures p.nonces[t] == p.ats[t] == if Start(job, t) <= End(job, t) then End(job, t) else Start(job, t)
    ensures p.sinks[t] == XorRange(job.hash, Start(job, t), p.ats[t])
  {
    hide Start, End, XorRange, Counted, Covered;
    assert ThreadOk(job, p, t) && !Enabled(job, p, HashNext(t)) && !Enabled(job, p, CountBatch(t));
  }

  lemma {:induction false} FinishedUpTo(job: Job, p: Pool, k: nat)
    requires Inv(job, p) && Shaped(job, p) && Finished(job, p) && k <= job.threads
    ensures Counted(job, p.nonces, k) == Frontier(job, k)
    ensures Covered(job, p.ats, k) == multiset(Range(0, Frontier(job, k)))
    ensures XorSinks(p.sinks, k) == XorRange(job.hash, 0, Frontier(job, k))
  {
    hide Inv, Finished, Start, End, Frontier, Xor, Zero, Range, XorRange;
    FrontierSteps(job, k);
    if k == 0 {
      EmptyRange(job.hash, 0);
    } else {
      var t := k - 1;
      FinishedUpTo(job, p, t);
      FrontierSteps(job, t);
      ThreadFinished(job, p, t);
      JoinRange(job.hash, Frontier(job, t), Start(job, t), p.nonces[t], Frontier(job, k));
    }
  }

  /** A thread either extends the frontier by its range or contributes nothing. */
  lemma {:induction false} JoinRange(hash: Hash, from: nat, start: nat, nonce: nat, to: nat)
    requires from <= to && ((start == from && nonce == to) || (nonce == start && from == to))
    ensures multiset(Range(0, from)) + multiset(Range(start, nonce)) == multiset(Range(0, to))
    ensures Xor(XorRange(hash, 0, from), XorRange(hash, start, nonce)) == XorRange(hash, 0, to)
  {
    hide Xor, Zero, Range, XorRange;
    if start == from && nonce == to {
      RangeSplits(0, from, to);
      XorSplits(hash, 0, from, to);
    } else {
      EmptyRange(hash, start);
      XorZero(XorRange(hash, 0, from));
    }
  }

  // ----------------------------------------------------------------- reduction

  /** The shape in which the runtime combines the per-thread results: any tree, with
      any number of identities mixed in. */
  datatype Reduction = Identity | Leaf(thread: nat) | Join(left: Reduction, right: Reduction)

  function Leaves(tree: Reduction): multiset<nat> {
    match tree
    case Identity => multiset{}
    case Leaf(t) => multiset{t}
    case Join(l, r) => Leaves(l) + Leaves(r)
  }

  function Reduce(tree: Reduction, sinks: seq<BitDigest>): BitDigest {
    match tree
    case Identity => Zero()
    case Leaf(t) => if t < |sinks| then sinks[t] else Zero()
    case Join(l, r) => Xor(Reduce(l, sinks), Reduce(r, sinks))
  }

  /** `n` copies of one digest. */
  function Copies(d: BitDigest, n: nat): BitDigest {
    if n == 0 then Zero() else Xor(Copies(d, n - 1), d)
  }

  /** Every sink as often as it is a leaf. */
  function XorCounts(sinks: seq<BitDigest>, leaves: multiset<nat>, k: nat): BitDigest
    requires k <= |sinks|
  {
    if k == 0 then Zero() else Xor(XorCounts(sinks, leaves, k - 1), Copies(sinks[k - 1], leaves[k - 1]))
  }

  lemma {:induction false} XorSwap(a: BitDigest, b: BitDigest, c: BitDigest, d: BitDigest)
    ensures Xor(Xor(a, b), Xor(c, d)) == Xor(Xor(a, c), Xor(b, d))
  {
    hide Xor;
    XorAssoc(a, b, Xor(c, d));
    XorAssoc(b, c, d);
    XorComm(b, c);
    XorAssoc(c, b, d);
    XorAssoc(a, c, Xor(b, d));
  }

  lemma {:induction false} OneCopy(d: BitDigest)
    ensures Copies(d, 1) == d && Copies(d, 0) == Zero()
  {
    hide Xor, Zero;
    XorZero(d);
    assert Copies(d, 1) == Xor(Copies(d, 0), d);
  }

  lemma {:induction false} CopiesAdd(d: BitDigest, m: nat, n: nat)
    ensures Copies(d, m + n) == Xor(Copies(d, m), Copies(d, n))
    decreases n
  {
    hide Xor, Zero;
    if n == 0 {
      XorZero(Copies(d, m));
    } else {
      CopiesAdd(d, m, n - 1);
      XorAssoc(Copies(d, m), Copies(d, n - 1), d);
    }
  }

  lemma {:induction false} CountsAdd(sinks: seq<BitDigest>, a: multiset<nat>, b: multiset<nat>, k: nat)
    requires k <= |sinks|
    ensures XorCounts(sinks, a + b, k) == Xor(XorCounts(sinks, a, k), XorCounts(sinks, b, k))
  {
    hide Xor, Zero, Copies;
    if k == 0 {
      XorZero(Zero());
    } else {
      CountsAdd(sinks, a, b, k - 1);
      CopiesAdd(sinks[k - 1], a[k - 1], b[k - 1]);
      XorSwap(XorCounts(sinks, a, k - 1), XorCounts(sinks, b, k - 1), Copies(sinks[k - 1], a[k - 1]),
              Copies(sinks[k - 1], b[k - 1]));
    }
  }

  lemma {:induction false} CountsOfOne(sinks: seq<BitDigest>, t: nat, k: nat)
    requires k <= |sinks|
    ensures XorCounts(sinks, multiset{t}, k) == if t < k then sinks[t] else Zero()
  {
    hide Xor, Zero;
    if k > 0 {
      CountsOfOne(sinks, t, k - 1);
      XorZero(Zero());
      XorZero(sinks[k - 1]);
      OneCopy(sinks[k - 1]);
      if t < k - 1 { XorZero(sinks[t]); }
    }
  }

  lemma {:induction false} CountsOfNone(sinks: seq<BitDigest>, k: nat)
    requires k <= |sinks|
    ensures XorCounts(sinks, multiset{}, k) == Zero()
  {
    hide Xor, Zero;
    XorZero(Zero());
    if k > 0 { CountsOfNone(sinks, k - 1); }
  }

  lemma {:induction false} ReduceCounts(tree: Reduction, sinks: seq<BitDigest>)
    ensures Reduce(tree, sinks) == XorCounts(sinks, Leaves(tree), |sinks|)
  {
    hide Xor, Zero, XorCounts;
    match tree {
      case Identity => CountsOfNone(sinks, |sinks|);
      case Leaf(t) => CountsOfOne(sinks, t, |sinks|);
      case Join(l, r) =>
        ReduceCounts(l, sinks);
        ReduceCounts(r, sinks);
        CountsAdd(sinks, Leaves(l), Leaves(r), |sinks|);
    }
  }

  ghost predicate EachOnce(leaves: multiset<nat>, n: nat) {
    forall t: nat :: leaves[t] == if t < n then 1 else 0
  }

  lemma {:induction false} OnceIsXor(sinks: seq<BitDigest>, leaves: multiset<nat>, n: nat, k: nat)
    requires EachOnce(leaves, n) && k <= n && k <= |sinks|
    ensures XorCounts(sinks, leaves, k) == XorSinks(sinks, k)
    decreases k
  {
    hide Xor, Zero;
    if k > 0 {
      OnceIsXor(sinks, leaves, n, k - 1);
      assert leaves[k - 1] == 1;
      OneCopy(sinks[k - 1]);
    }
  }

  lemma {:induction false} RangeOnce(n: nat)
    ensures EachOnce(multiset(Range(0, n)), n)
  {
    if n > 0 { RangeOnce(n - 1); }
  }

  // --------------------------------------------------------------- the theorems

  /** At every moment of every interleaving the counter is at most the number of hashes, and behind it
      by at most one batch for each thread. */
  lemma {:induction false} EveryScheduleCounts(job: Job, schedule: seq<Move>, q: Pool)
    requires job.threads >= 1 && Reaches(job, Initial(job), schedule, q)
    ensures q.done <= |q.hashed| <= q.done + Times(job.threads, DIGEST_BATCH)
  {
    hide Reaches, Counted, Covered, ThreadOk, Times;
    InitialInv(job);
    ScheduleKeepsInv(job, Initial(job), schedule, q);
    CounterLags(job, q, job.threads);
  }

  /** However the threads interleave and however their results are combined: every nonce
      below `attempts` is hashed exactly once and no other, the shared counter ends at
      `attempts`, and the reduced XOR is that of one sequential loop. */
  lemma {:induction false} EveryScheduleMines(job: Job, schedule: seq<Move>, q: Pool, tree: Reduction)
    requires job.threads >= 1 && Reaches(job, Initial(job), schedule, q) && Finished(job, q)
    requires EachOnce(Leaves(tree), job.threads)
    ensures EachOnce(multiset(q.hashed), job.attempts)
    ensures q.done == job.attempts && |schedule| <= 2 * job.attempts
    ensures Reduce(tree, q.sinks) == XorRange(job.hash, 0, job.attempts)
  {
    hide Reaches, Finished, Frontier, EachOnce, Leaves, Reduce, XorCounts, XorSinks, XorRange, Range, Counted, Covered,
         ThreadOk;
    InitialInv(job);
    ScheduleKeepsInv(job, Initial(job), schedule, q);
    FinishedUpTo(job, q, job.threads);
    FrontierEnds(job);
    RangeOnce(job.attempts);
    RangeSize(job.attempts);
    assert |multiset(q.hashed)| == |q.hashed|;
    ReduceCounts(tree, q.sinks);
    OnceIsXor(q.sinks, Leaves(tree), job.threads, job.threads);
  }

  lemma {:induction false} RangeSize(n: nat)
    ensures |multiset(Range(0, n))| == n
  {
    if n > 0 { RangeSize(n - 1); }
  }
}
