/** The prover's first message over a packed witness: rows of 64 bits are folded byte by byte through a table
    of partial sums, padding is skipped, and the message comes out of the same pass.
 */
module PackedFold {
  import opened Wrappers
  import opened Powers
  import opened Algebra
  import opened QuirkyEval
  import opened Sumcheck
  import opened SumcheckObject
  import opened SumcheckProver

  const ROW: nat := 64
  const ROW_BYTES: nat := 8

  type Byte = v: nat | v < 256

  /** Bit `b` of a number, the lowest first. */
  predicate Bit(v: nat, b: nat)
    decreases b
  {
    if b == 0 then v % 2 == 1 else Bit(v / 2, b - 1)
  }

  predicate WitnessBit(bytes: seq<Byte>, i: nat)
    requires i < 8 * |bytes|
  {
    Bit(bytes[i / 8], i % 8)
  }

  /** The packed bits as ring elements. */
  ghost function Lift(r: Ring, bytes: seq<Byte>): (bits: seq<E>)
    ensures |bits| == 8 * |bytes|
    ensures forall i :: 0 <= i < |bits| ==> bits[i] == if WitnessBit(bytes, i) then r.one else r.zero
  {
    seq(8 * |bytes|, i requires 0 <= i < 8 * |bytes| => if WitnessBit(bytes, i) then r.one else r.zero)
  }

  // ------------------------------------------------------------------- sums over one byte

  /** The sum of the weights at the set bits. */
  ghost function ByteSum(r: Ring, basis: seq<E>, v: nat): E
    decreases |basis|
  {
    if basis == [] then r.zero
    else if v % 2 == 1 then Add(r, basis[0], ByteSum(r, basis[1..], v / 2))
    else ByteSum(r, basis[1..], v / 2)
  }

  /** The lowest set bit, as a power of two. */
  function LowBit(v: nat): (low: nat)
    requires v >= 1
    ensures 1 <= low <= v
  {
    if v % 2 == 1 then 1 else 2 * LowBit(v / 2)
  }

  /** A single bit is set. */
  predicate Power(v: nat) {
    v >= 1 && LowBit(v) == v
  }

  lemma {:induction false} PowerIs(v: nat) returns (b: nat)
    requires Power(v)
    ensures v == Pow2(b)
    decreases v
  {
    b := 0;
    if v % 2 == 0 {
      b := PowerIs(v / 2);
      b := b + 1;
    }
  }

  lemma {:induction false} NextPower(v: nat, b: nat)
    requires Power(v) && Pow2(b) <= v < Pow2(b + 1)
    ensures v == Pow2(b)
  {
    var k := PowerIs(v);
    hide Pow2;
    if k < b {
      Pow2StrictlyMonotone(k, b);
    } else if k > b {
      Pow2Monotone(b + 1, k);
    }
  }

  lemma {:induction false} SumOfNone(r: Ring, basis: seq<E>)
    ensures ByteSum(r, basis, 0) == r.zero
    decreases |basis|
  {
    if basis != [] { SumOfNone(r, basis[1..]); }
  }

  lemma {:induction false} SumOfOne(r: Ring, basis: seq<E>, b: nat)
    requires b < |basis| && Laws(r)
    ensures ByteSum(r, basis, Pow2(b)) == basis[b]
    decreases |basis|
  {
    hide Add, Laws;
    if b == 0 {
      SumOfNone(r, basis[1..]);
      AddComm(r, basis[0], r.zero);
      AddZero(r, basis[0]);
    } else {
      SumOfOne(r, basis[1..], b - 1);
    }
  }

  /** The table's rule: a sum is the sum without the lowest bit and the entry of that bit. */
  lemma {:induction false} SumSplits(r: Ring, basis: seq<E>, v: nat)
    requires v >= 1 && Laws(r)
    ensures ByteSum(r, basis, v) == Add(r, ByteSum(r, basis, v - LowBit(v)), ByteSum(r, basis, LowBit(v)))
    decreases |basis|
  {
    hide Add, Laws;
    if basis == [] {
      AddZero(r, r.zero);
    } else if v % 2 == 1 {
      var rest := ByteSum(r, basis[1..], v / 2);
      SumOfNone(r, basis[1..]);
      AddComm(r, basis[0], r.zero);
      AddZero(r, basis[0]);
      AddComm(r, basis[0], rest);
    } else {
      SumSplits(r, basis[1..], v / 2);
    }
  }

  /** One more byte of a row adds its sum. */
  lemma {:induction false} DotGrowsByByte(r: Ring, bits: seq<E>, weights: seq<E>, at: nat, basis: seq<E>, v: nat)
    requires at + |basis| <= |bits| && at + |basis| <= |weights| && weights[at..at + |basis|] == basis
    requires forall b :: 0 <= b < |basis| ==> bits[at + b] == if Bit(v, b) then r.one else r.zero
    requires Laws(r)
    ensures Dot(r, bits, weights, at + |basis|) == Add(r, Dot(r, bits, weights, at), ByteSum(r, basis, v))
    decreases |basis|
  {
    hide Add, Mul, Laws;
    var sum := Dot(r, bits, weights, at);
    if basis == [] {
      AddComm(r, sum, r.zero);
      AddZero(r, sum);
    } else {
      var w, rest := basis[0], ByteSum(r, basis[1..], v / 2);
      assert weights[at] == w && bits[at + 0] == if Bit(v, 0) then r.one else r.zero;
      assert weights[at + 1..at + 1 + |basis[1..]|] == basis[1..];
      forall b | 0 <= b < |basis[1..]| ensures bits[at + 1 + b] == if Bit(v / 2, b) then r.one else r.zero {
        assert bits[at + (b + 1)] == if Bit(v, b + 1) then r.one else r.zero;
      }
      DotGrowsByByte(r, bits, weights, at + 1, basis[1..], v / 2);
      MulOne(r, w);
      NoTerms(r, sum, w);
      AddAssoc(r, sum, w, rest);
    }
  }

  // ------------------------------------------------------------------------ the fold table

  /** Entry `v` of byte `j` is the sum of that byte's weights over the bits of `v`. */
  ghost predicate Tabulated(r: Ring, weights: seq<E>, data: array<E>, j: nat)
    requires 8 * j + 8 <= |weights| && 256 * j + 256 <= data.Length
    reads data
  {
    forall i :: 256 * j <= i < 256 * j + 256 ==> data[i] == ByteSum(r, weights[8 * j..8 * j + 8], i - 256 * j)
  }

  ghost predicate IsTable(r: Ring, weights: seq<E>, data: array<E>)
    reads data
  {
    && |weights| == ROW && data.Length == 256 * ROW_BYTES
    && forall j: nat :: j < ROW_BYTES ==> Tabulated(r, weights, data, j)
  }

  /** The 256 sums of one byte: single bits first, then every other value from two smaller ones. */
  method TabulateByte(r: Ring, basis: seq<E>, data: array<E>, at: nat)
    requires |basis| == 8 && at + 256 <= data.Length && data[at] == r.zero && Laws(r)
    modifies data
    ensures forall i :: at <= i < at + 256 ==> data[i] == ByteSum(r, basis, i - at)
    ensures forall i :: 0 <= i < data.Length && !(at <= i < at + 256) ==> data[i] == old(data[i])
  {
    hide Add, Laws, ByteSum, Pow2, LowBit;
    SumOfNone(r, basis);
    FirstPowers();
    for b: nat := 0 to 8
      invariant data[at] == r.zero
      invariant forall i :: at < i < at + 256 && i < at + Pow2(b) && Power(i - at) ==>
                  data[i] == ByteSum(r, basis, i - at)
      invariant forall i :: 0 <= i < data.Length && !(at <= i < at + 256) ==> data[i] == old(data[i])
    {
      Pow2Doubles(b);
      Pow2StrictlyMonotone(b, 8);
      SumOfOne(r, basis, b);
      data[at + Pow2(b)] := basis[b];
      forall i | at < i < at + 256 && i < at + Pow2(b + 1) && Power(i - at)
        ensures data[i] == ByteSum(r, basis, i - at) {
        if i >= at + Pow2(b) { NextPower(i - at, b); }
      }
    }
    for v: nat := 3 to 256
      invariant forall i :: at <= i < at + 256 && (i < at + v || Power(i - at)) ==> data[i] == ByteSum(r, basis, i - at)
      invariant forall i :: 0 <= i < data.Length && !(at <= i < at + 256) ==> data[i] == old(data[i])
    {
      if Power(v) {
        continue;
      }
      var low := LowBit(v);
      var parent := v - low;
      SumSplits(r, basis, v);
      assert data[at + low] == ByteSum(r, basis, low) && data[at + parent] == ByteSum(r, basis, parent);
      data[at + v] := Add(r, data[at + parent], data[at + low]);
    }
  }

  lemma {:induction false} FirstPowers()
    ensures Pow2(0) == 1 && Pow2(8) == 256 && Power(1) && Power(2)
  {
  }

  method BuildFoldTable(r: Ring, weights: seq<E>) returns (data: array<E>)
    requires |weights| == ROW && Laws(r)
    ensures fresh(data) && IsTable(r, weights, data)
  {
    hide Laws, ByteSum;
    data := new E[256 * ROW_BYTES](_ => r.zero);
    for j: nat := 0 to ROW_BYTES
      invariant forall k: nat :: k < j ==> Tabulated(r, weights, data, k)
      invariant forall i :: 256 * j <= i < data.Length ==> data[i] == r.zero
    {
      label Before:
      TabulateByte(r, weights[8 * j..8 * j + 8], data, 256 * j);
      forall k: nat | k < j ensures Tabulated(r, weights, data, k) {
        assert old@Before(Tabulated(r, weights, data, k));
      }
    }
  }

  /** One table entry for each byte of a row adds up to the row's weighted sum. */
  method FoldOneRow(r: Ring, ghost weights: seq<E>, data: array<E>, bytes: seq<Byte>, x: nat) returns (acc: E)
    requires IsTable(r, weights, data) && 8 * x + 8 <= |bytes| && Laws(r)
    ensures acc == Dot(r, Block(Lift(r, bytes), 64 * x, ROW), weights, ROW)
  {
    hide Add, Laws, ByteSum, Lift, Dot, Bit;
    ghost var row := Block(Lift(r, bytes), 64 * x, ROW);
    acc := r.zero;
    NoDot(r, weights);
    for j: nat := 0 to ROW_BYTES
      invariant acc == Dot(r, row, weights, 8 * j)
    {
      ghost var basis := weights[8 * j..8 * j + 8];
      var v := bytes[8 * x + j];
      assert Tabulated(r, weights, data, j);
      RowByte(r, bytes, x, j, v);
      DotGrowsByByte(r, row, weights, 8 * j, basis, v);
      acc := Add(r, acc, data[256 * j + v]);
    }
  }

  lemma {:induction false} RowByte(r: Ring, bytes: seq<Byte>, x: nat, j: nat, v: Byte)
    requires 8 * x + 8 <= |bytes| && j < ROW_BYTES && v == bytes[8 * x + j]
    ensures forall b :: 0 <= b < 8 ==>
              Block(Lift(r, bytes), 64 * x, ROW)[8 * j + b] == if Bit(v, b) then r.one else r.zero
  {
    hide Lift, Bit;
    forall b | 0 <= b < 8 ensures Block(Lift(r, bytes), 64 * x, ROW)[8 * j + b] == if Bit(v, b) then r.one else r.zero {
      ByteOf(8 * x + j, b);
    }
  }

  lemma {:induction false} ByteOf(k: nat, b: nat)
    requires b < 8
    ensures (8 * k + b) / 8 == k && (8 * k + b) % 8 == b
  {
  }

  // --------------------------------------------------------------------------- padding

  /** Blocks of `2^kLog` bits of which only the first `usefulBits` may be set. */
  datatype PaddingSpec = PaddingSpec(kLog: nat, usefulBits: nat)

  ghost predicate Padded(bytes: seq<Byte>, padding: PaddingSpec) {
    forall i: nat :: i < 8 * |bytes| && Remainder(i, Pow2(padding.kLog)) >= padding.usefulBits ==> !WitnessBit(bytes, i)
  }

  /** Pairs of rows in a block, and how many of them hold a useful bit; none are skipped without such a pair. */
  function PairSkip(padding: PaddingSpec): Option<(nat, nat)> {
    if padding.kLog <= 7 then None
    else
      var pairs, useful := Pow2(padding.kLog - 7), (padding.usefulBits + 127) / 128;
      if useful >= pairs then None else Some((pairs, useful))
  }

  predicate Skipped(padding: PaddingSpec, k: nat) {
    var skip := PairSkip(padding);
    skip.Some? && Remainder(k, skip.value.0) >= skip.value.1
  }

  /** Every bit of a skipped pair of rows is padding. */
  lemma {:induction false} SkippedIsPadding(padding: PaddingSpec, k: nat, t: nat)
    requires Skipped(padding, k) && t < 128
    ensures Remainder(128 * k + t, Pow2(padding.kLog)) >= padding.usefulBits
  {
    var pairs, useful := PairSkip(padding).value.0, PairSkip(padding).value.1;
    hide Quotient, Remainder;
    assert Pow2(padding.kLog) == 128 * pairs by { Pow2Adds(7, padding.kLog - 7); SevenBits(); }
    var q, m := Quotient(k, pairs), Remainder(k, pairs);
    var i := 128 * k + t;
    assert i == q * (128 * pairs) + (128 * m + t) by { assert 128 * (q * pairs) == q * (128 * pairs); }
    SameQuotient(i, 128 * pairs, q);
  }

  /** Skipping misses nothing: in blocks longer than a pair, a pair of rows is skipped exactly if its first bit
      is padding, and with it all 128. */
  lemma {:induction false} SkippedExactly(padding: PaddingSpec, k: nat)
    ensures Skipped(padding, k) <==> padding.kLog > 7 && Remainder(128 * k, Pow2(padding.kLog)) >= padding.usefulBits
  {
    if padding.kLog > 7 {
      var pairs := Pow2(padding.kLog - 7);
      assert Pow2(padding.kLog) == 128 * pairs by { Pow2Adds(7, padding.kLog - 7); SevenBits(); }
      FirstOfPair(k, pairs);
    }
  }

  lemma {:induction false} FirstOfPair(k: nat, pairs: nat)
    requires pairs >= 1
    ensures Remainder(128 * k, 128 * pairs) == 128 * Remainder(k, pairs) && Remainder(k, pairs) < pairs
  {
    hide Quotient, Remainder;
    var q, m := Quotient(k, pairs), Remainder(k, pairs);
    assert 128 * k == q * (128 * pairs) + 128 * m by { assert 128 * (q * pairs) == q * (128 * pairs); }
    SameQuotient(128 * k, 128 * pairs, q);
  }

  lemma {:induction false} SevenBits()
    ensures Pow2(7) == 128
  {
  }

  lemma {:induction false} ZeroRow(r: Ring, row: seq<E>, weights: seq<E>, n: nat)
    requires n <= |row| && n <= |weights| && (forall i :: 0 <= i < n ==> row[i] == r.zero) && Laws(r)
    ensures Dot(r, row, weights, n) == r.zero
  {
    hide Add, Mul, Laws;
    if n > 0 {
      ZeroRow(r, row, weights, n - 1);
      NoTerms(r, r.zero, weights[n - 1]);
    }
  }

  /** The rows of a skipped pair fold to zero. */
  lemma {:induction false} SkippedFoldsToZero(r: Ring, bytes: seq<Byte>, weights: seq<E>, padding: PaddingSpec, k: nat,
                                              x: nat)
    requires Padded(bytes, padding) && Skipped(padding, k) && x / 2 == k && 8 * x + 8 <= |bytes| && |weights| == ROW
    requires Laws(r)
    ensures Dot(r, Block(Lift(r, bytes), 64 * x, ROW), weights, ROW) == r.zero
  {
    hide Laws, Lift, Bit, Skipped, Remainder;
    var row := Block(Lift(r, bytes), 64 * x, ROW);
    forall i | 0 <= i < ROW ensures row[i] == r.zero {
      SkippedIsPadding(padding, k, 64 * (x % 2) + i);
      assert 64 * x + i == 128 * k + (64 * (x % 2) + i);
    }
    ZeroRow(r, row, weights, ROW);
  }

  // ---------------------------------------------------------------------------- kernel

  /** Every row's weighted sum: the table the multilinear rounds start from. */
  ghost function FoldedRows(r: Ring, bytes: seq<Byte>, weights: seq<E>): (table: seq<E>)
    requires |weights| == ROW && |bytes| % 8 == 0
    ensures |table| == |bytes| / 8
    ensures forall x :: 0 <= x < |table| ==> table[x] == Dot(r, Block(Lift(r, bytes), 64 * x, ROW), weights, ROW)
  {
    seq(|bytes| / 8, x requires 0 <= x < |bytes| / 8 => Dot(r, Block(Lift(r, bytes), 64 * x, ROW), weights, ROW))
  }

  lemma {:induction false} RowsAreBlocks(r: Ring, bytes: seq<Byte>, weights: seq<E>)
    requires |weights| == ROW && |bytes| % 8 == 0
    ensures BlockFolded(r, Lift(r, bytes), weights, FoldedRows(r, bytes, weights))
  {
    hide Lift, Dot, Block;
    forall j: nat | j < |bytes| / 8 ensures Times(j, |weights|) == 64 * j {
    }
  }

  /** Fold two rows into the buffer. */
  method FoldRowPair(r: Ring, ghost weights: seq<E>, data: array<E>, bytes: seq<Byte>, out: array<E>,
                     ghost table: seq<E>, k: nat)
    returns (low: E, high: E)
    requires IsTable(r, weights, data) && data != out && |bytes| % 8 == 0 && table == FoldedRows(r, bytes, weights)
    requires 2 * k + 1 < |table| && Filled(out, table, 2 * k) && Laws(r)
    modifies out
    ensures Filled(out, table, 2 * k + 2) && low == table[2 * k] && high == table[2 * k + 1]
  {
    hide Laws, Lift, Dot, Block, IsTable;
    low := FoldOneRow(r, weights, data, bytes, 2 * k);
    high := FoldOneRow(r, weights, data, bytes, 2 * k + 1);
    out[2 * k], out[2 * k + 1] := low, high;
    FilledTwo(out, table, k);
  }

  lemma {:induction false} FilledTwo(out: array<E>, table: seq<E>, k: nat)
    requires 2 * k + 1 < |table| <= out.Length && out[..2 * k] == table[..2 * k]
    requires out[2 * k] == table[2 * k] && out[2 * k + 1] == table[2 * k + 1]
    ensures Filled(out, table, 2 * k + 2)
  {
    assert out[..2 * k + 2] == out[..2 * k] + [out[2 * k], out[2 * k + 1]];
    assert table[..2 * k + 2] == table[..2 * k] + [table[2 * k], table[2 * k + 1]];
  }

  /** Write the zeros of a skipped pair without reading its rows. */
  method SkipRowPair(r: Ring, ghost weights: seq<E>, ghost bytes: seq<Byte>, padding: PaddingSpec, out: array<E>,
                     ghost table: seq<E>, k: nat)
    requires |weights| == ROW && |bytes| % 8 == 0 && table == FoldedRows(r, bytes, weights)
    requires Padded(bytes, padding) && Skipped(padding, k)
    requires 2 * k + 1 < |table| && Filled(out, table, 2 * k) && Laws(r)
    modifies out
    ensures Filled(out, table, 2 * k + 2) && table[2 * k] == table[2 * k + 1] == r.zero
  {
    hide Laws, Lift, Dot, Block, Padded, Skipped;
    SkippedFoldsToZero(r, bytes, weights, padding, k, 2 * k);
    SkippedFoldsToZero(r, bytes, weights, padding, k, 2 * k + 1);
    out[2 * k], out[2 * k + 1] := r.zero, r.zero;
    FilledTwo(out, table, k);
  }

  /** A pair of zeros adds nothing to either sum. */
  lemma {:induction false} ZeroPair(f: Field, fa: seq<E>, fb: seq<E>, lo: seq<E>, at: nat, x: nat)
    requires |fa| == |fb| && at + |lo| <= |fa| / 2 && x < |lo| && FieldLaws(f)
    requires fa[2 * (at + x)] == fa[2 * (at + x) + 1] == fb[2 * (at + x)] == fb[2 * (at + x) + 1] == f.ring.zero
    ensures Dot(f.ring, Block(AtOne(f.ring, fa, fb), at, |lo|), lo, x + 1)
         == Dot(f.ring, Block(AtOne(f.ring, fa, fb), at, |lo|), lo, x)
    ensures Dot(f.ring, Block(AtInf(f.ring, fa, fb), at, |lo|), lo, x + 1)
         == Dot(f.ring, Block(AtInf(f.ring, fa, fb), at, |lo|), lo, x)
  {
    hide FieldLaws, Laws, Add, Mul, AtOne, AtInf, Dot, Block;
    var r := f.ring;
    SelfCancels(f, r.zero);
    PairTerms(r, fa, fb, at + x);
    DotGrows(f, AtOne(r, fa, fb), at, lo, x);
    DotGrows(f, AtInf(r, fa, fb), at, lo, x);
    AddZero(r, r.zero);
    MulZero(r, r.zero);
    MulComm(r, lo[x], r.zero);
    NoTerms(r, Dot(r, Block(AtOne(r, fa, fb), at, |lo|), lo, x), lo[x]);
    NoTerms(r, Dot(r, Block(AtInf(r, fa, fb), at, |lo|), lo, x), lo[x]);
  }

  /** One worker's chunk: fold the pairs that hold a useful bit and add each to both sums. */
  method PackedChunk(f: Field, ghost weights: seq<E>, data: array<E>, a: seq<Byte>, b: seq<Byte>, padding: PaddingSpec,
                     aOut: array<E>, bOut: array<E>, ghost fa: seq<E>, ghost fb: seq<E>, lo: seq<E>, at: nat)
    returns (p1: E, pInf: E)
    requires IsTable(f.ring, weights, data) && data != aOut && data != bOut && aOut != bOut
    requires |a| == |b| && |a| % 8 == 0 && Padded(a, padding) && Padded(b, padding)
    requires fa == FoldedRows(f.ring, a, weights) && fb == FoldedRows(f.ring, b, weights) && 2 * (at + |lo|) <= |fa|
    requires Filled(aOut, fa, 2 * at) && Filled(bOut, fb, 2 * at) && FieldLaws(f)
    modifies aOut, bOut
    ensures Filled(aOut, fa, 2 * (at + |lo|)) && Filled(bOut, fb, 2 * (at + |lo|))
    ensures p1 == Dot(f.ring, Block(AtOne(f.ring, fa, fb), at, |lo|), lo, |lo|)
    ensures pInf == Dot(f.ring, Block(AtInf(f.ring, fa, fb), at, |lo|), lo, |lo|)
  {
    hide FieldLaws, Laws, Add, Mul, FoldedRows, AtOne, AtInf, Filled, Dot, Block, Tabulated, Padded, Skipped;
    var r := f.ring;
    SelfCancels(f, r.zero);
    NoDot(r, lo);
    ghost var ones, infs := AtOne(r, fa, fb), AtInf(r, fa, fb);
    p1, pInf := r.zero, r.zero;
    for x: nat := 0 to |lo|
      invariant Filled(aOut, fa, 2 * (at + x)) && Filled(bOut, fb, 2 * (at + x))
      invariant p1 == Dot(r, Block(ones, at, |lo|), lo, x) && pInf == Dot(r, Block(infs, at, |lo|), lo, x)
    {
      if Skipped(padding, at + x) {
        SkipRowPair(r, weights, a, padding, aOut, fa, at + x);
        SkipRowPair(r, weights, b, padding, bOut, fb, at + x);
        ZeroPair(f, fa, fb, lo, at, x);
        continue;
      }
      PairTerms(r, fa, fb, at + x);
      DotGrows(f, ones, at, lo, x);
      DotGrows(f, infs, at, lo, x);
      var a0, a1 := FoldRowPair(r, weights, data, a, aOut, fa, at + x);
      var b0, b1 := FoldRowPair(r, weights, data, b, bOut, fb, at + x);
      p1 := Add(r, p1, Mul(r, lo[x], Mul(r, a1, b1)));
      pInf := Add(r, pInf, Mul(r, lo[x], Mul(r, Add(r, a0, a1), Add(r, b0, b1))));
    }
  }

  /** All workers, one after another, and what they contribute. */
  method PackedSums(f: Field, ghost weights: seq<E>, data: array<E>, a: seq<Byte>, b: seq<Byte>, padding: PaddingSpec,
                    aOut: array<E>, bOut: array<E>, ghost fa: seq<E>, ghost fb: seq<E>, lo: seq<E>, hi: seq<E>)
    returns (sum1: E, sumInf: E)
    requires IsTable(f.ring, weights, data) && data != aOut && data != bOut && aOut != bOut
    requires |a| == |b| && |a| % 8 == 0 && Padded(a, padding) && Padded(b, padding)
    requires fa == FoldedRows(f.ring, a, weights) && fb == FoldedRows(f.ring, b, weights)
    requires |fa| == 2 * Times(|hi|, |lo|) && |fa| <= aOut.Length && |fb| <= bOut.Length && FieldLaws(f)
    modifies aOut, bOut
    ensures Filled(aOut, fa, |fa|) && Filled(bOut, fb, |fb|)
    ensures sum1 == Dot(f.ring, ChunkSums(f.ring, AtOne(f.ring, fa, fb), lo, |hi|), hi, |hi|)
    ensures sumInf == Dot(f.ring, ChunkSums(f.ring, AtInf(f.ring, fa, fb), lo, |hi|), hi, |hi|)
  {
    hide FieldLaws, Add, Mul, FoldedRows, AtOne, AtInf, Filled, Dot, Block, ChunkSums, Times, Tabulated, Padded;
    var r := f.ring;
    ghost var ones, infs := AtOne(r, fa, fb), AtInf(r, fa, fb);
    NoDot(r, hi);
    Start(aOut, fa, |lo|);
    Start(bOut, fb, |lo|);
    sum1, sumInf := r.zero, r.zero;
    for x: nat := 0 to |hi|
      invariant Filled(aOut, fa, 2 * Times(x, |lo|)) && Filled(bOut, fb, 2 * Times(x, |lo|))
      invariant sum1 == Dot(r, ChunkSums(r, ones, lo, |hi|), hi, x)
      invariant sumInf == Dot(r, ChunkSums(r, infs, lo, |hi|), hi, x)
    {
      ChunkSumsAt(r, ones, lo, |hi|, x);
      ChunkSumsAt(r, infs, lo, |hi|, x);
      TimesOneMore(x, |lo|);
      var p1, pInf := PackedChunk(f, weights, data, a, b, padding, aOut, bOut, fa, fb, lo, Times(x, |lo|));
      DotStep(f, ChunkSums(r, ones, lo, |hi|), hi, x);
      DotStep(f, ChunkSums(r, infs, lo, |hi|), hi, x);
      sum1, sumInf := Add(r, sum1, Mul(r, hi[x], p1)), Add(r, sumInf, Mul(r, hi[x], pInf));
    }
  }

  /** Fold both packed witnesses and compute the first message in one pass: the tables are every row's
      weighted sum, and the message is the one those tables would give. */
  method UniSkipFoldAndRoundPair(f: Field, ghost weights: seq<E>, data: array<E>, a: seq<Byte>, b: seq<Byte>,
                                 padding: PaddingSpec,
                                 challenges: seq<E>)
    returns (aOut: array<E>, bOut: array<E>, msg: Message)
    requires IsTable(f.ring, weights, data) && challenges != [] && |a| == |b| == 8 * Pow2(|challenges|)
    requires Padded(a, padding) && Padded(b, padding) && FieldLaws(f)
    ensures fresh(aOut) && fresh(bOut) && aOut != bOut && aOut.Length == bOut.Length == Pow2(|challenges|)
    ensures aOut[..] == FoldedRows(f.ring, a, weights) && bOut[..] == FoldedRows(f.ring, b, weights)
    ensures var values := RoundValues(f.ring, aOut[..], bOut[..], challenges[1..]);
            msg == Message(Mul(f.ring, challenges[0], values.one), values.inf)
  {
    hide FieldLaws, Laws, Add, Mul, FoldedRows, RoundValues, AtOne, AtInf, Filled, Dot, Weights, ChunkSums, Times,
         Pow2, Tabulated, Padded;
    var r, rest, n := f.ring, challenges[1..], Pow2(|challenges|);
    aOut, bOut := new E[n](_ => r.zero), new E[n](_ => r.zero);
    var nHi := if |rest| < MAX_N_HI then |rest| else MAX_N_HI;
    var nLo := |rest| - nHi;
    SelfCancels(f, r.zero);
    var loTable := BuildEq(r, rest[..nLo]);
    var hiTable := BuildEq(r, rest[nLo..]);
    Pow2Doubles(|rest|);
    ghost var fa, fb := FoldedRows(r, a, weights), FoldedRows(r, b, weights);
    ChunkedMessage(r, fa, fb, rest, nLo);
    var sum1, sumInf := PackedSums(f, weights, data, a, b, padding, aOut, bOut, fa, fb, loTable[..], hiTable[..]);
    Done(aOut, fa);
    Done(bOut, fb);
    msg := Message(Mul(r, challenges[0], sum1), sumInf);
  }

  // ---------------------------------------------------------------------------- packing

  lemma {:induction false} HighBitsClear(v: nat, j: nat, b: nat)
    requires v < Pow2(j) && j <= b
    ensures !Bit(v, b)
    decreases b
  {
    if b > 0 && j > 0 {
      HighBitsClear(v / 2, j - 1, b - 1);
    } else if b > 0 {
      HighBitsClear(v / 2, 0, b - 1);
    }
  }

  /** Setting a bit above the others changes that bit only. */
  lemma {:induction false} BitSet(v: nat, j: nat, b: nat)
    requires v < Pow2(j)
    ensures Bit(v + Pow2(j), b) <==> Bit(v, b) || b == j
    decreases b
  {
    if j == 0 {
      if b > 0 {
        HighBitsClear(0, 0, b - 1);
        HighBitsClear(v, 0, b);
      }
    } else if b > 0 {
      assert (v + Pow2(j)) / 2 == v / 2 + Pow2(j - 1);
      BitSet(v / 2, j - 1, b - 1);
    }
  }

  /** Eight bits of the bits, or as many as there are. */
  method PackByte(bits: seq<bool>, base: nat) returns (byte: Byte)
    ensures forall b: nat :: b < 8 ==> (Bit(byte, b) <==> base + b < |bits| && bits[base + b])
  {
    hide Bit, Pow2;
    FirstPowers();
    var v: nat := 0;
    for j: nat := 0 to 8
      invariant v < Pow2(j)
      invariant forall b: nat :: b < j ==> (Bit(v, b) <==> base + b < |bits| && bits[base + b])
    {
      Pow2Doubles(j);
      var more := v + Pow2(j);
      forall b: nat ensures Bit(more, b) <==> Bit(v, b) || b == j {
        BitSet(v, j, b);
      }
      HighBitsClear(v, j, j);
      if base + j < |bits| && bits[base + j] {
        v := more;
      }
    }
    byte := v;
  }

  /** Bit for bit the bits, and clear beyond its end. */
  ghost predicate Packs(bytes: seq<Byte>, bits: seq<bool>) {
    && |bytes| == (|bits| + 7) / 8
    && forall i: nat :: i < 8 * |bytes| ==> (WitnessBit(bytes, i) <==> i < |bits| && bits[i])
  }

  method PackBits(bits: seq<bool>) returns (bytes: seq<Byte>)
    ensures Packs(bytes, bits)
  {
    hide Bit;
    bytes := [];
    for k: nat := 0 to (|bits| + 7) / 8
      invariant |bytes| == k
      invariant forall i: nat :: i < 8 * k ==> (WitnessBit(bytes, i) <==> i < |bits| && bits[i])
    {
      var byte := PackByte(bits, 8 * k);
      ghost var before := bytes;
      bytes := bytes + [byte];
      forall i: nat | i < 8 * (k + 1) ensures WitnessBit(bytes, i) <==> i < |bits| && bits[i] {
        if i < 8 * k { assert WitnessBit(before, i) <==> i < |bits| && bits[i]; }
      }
    }
  }

  /** The reference fold over the unpacked witness adds the weights at set bits, row by row: the same table. */
  method FoldAtZNaive(r: Ring, bits: seq<bool>, ghost bytes: seq<Byte>, weights: seq<E>) returns (folded: seq<E>)
    requires |weights| == ROW && |bits| % ROW == 0 && Packs(bytes, bits) && Laws(r)
    ensures folded == FoldedRows(r, bytes, weights)
  {
    hide Laws, Add, Dot, Lift, Bit, Block;
    var n := |bits| / ROW;
    folded := [];
    for x: nat := 0 to n
      invariant |folded| == x
      invariant forall k :: 0 <= k < x ==> folded[k] == FoldedRows(r, bytes, weights)[k]
    {
      var acc := r.zero;
      NoDot(r, weights);
      for t: nat := 0 to ROW
        invariant acc == Dot(r, Block(Lift(r, bytes), 64 * x, ROW), weights, t)
      {
        DotOneBit(r, bits, bytes, weights, x, t);
        if bits[64 * x + t] {
          acc := Add(r, acc, weights[t]);
        }
      }
      folded := folded + [acc];
    }
  }

  lemma {:induction false} DotOneBit(r: Ring, bits: seq<bool>, bytes: seq<Byte>, weights: seq<E>, x: nat, t: nat)
    requires |weights| == ROW && t < ROW && 64 * x + ROW <= |bits| && Packs(bytes, bits) && Laws(r)
    ensures var row := Block(Lift(r, bytes), 64 * x, ROW);
            Dot(r, row, weights, t + 1) ==
            if bits[64 * x + t] then Add(r, Dot(r, row, weights, t), weights[t]) else Dot(r, row, weights, t)
  {
    hide Laws, Add, Mul, Lift, Bit;
    var row := Block(Lift(r, bytes), 64 * x, ROW);
    assert row[t] == if bits[64 * x + t] then r.one else r.zero;
    MulOne(r, weights[t]);
    NoTerms(r, Dot(r, row, weights, t), weights[t]);
  }

  // ---------------------------------------------------------------------------- rounds

  /** The whole multilinear phase over packed witnesses: the messages are those of the row tables, and the
      final claims are the witnesses' evaluations, every bit times the weight of its index. */
  method ProvePacked(f: Field, weights: seq<E>, a: seq<Byte>, b: seq<Byte>, padding: PaddingSpec, eq: seq<E>,
                     rhos: seq<E>)
    returns (msgs: seq<Message>, finalA: E, finalB: E)
    requires |weights| == ROW && eq != [] && |rhos| == |eq| && |a| == |b| == 8 * Pow2(|eq|)
    requires Padded(a, padding) && Padded(b, padding) && FieldLaws(f)
    ensures msgs == Messages(f.ring, FoldedRows(f.ring, a, weights), FoldedRows(f.ring, b, weights), eq, rhos)
    ensures finalA == Evaluation(f.ring, Lift(f.ring, a), weights, rhos)
    ensures finalB == Evaluation(f.ring, Lift(f.ring, b), weights, rhos)
  {
    hide FieldLaws, Laws, Pow2, Messages, FoldAll, RoundValues, FoldedRows, Padded, Tabulated, Evaluation, Lift, Mul;
    SelfCancels(f, f.ring.one);
    var data := BuildFoldTable(f.ring, weights);
    var challenges := [f.ring.one] + eq[1..];
    assert challenges[1..] == eq[1..];
    var aTable, bTable, first := UniSkipFoldAndRoundPair(f, weights, data, a, b, padding, challenges);
    MulOne(f.ring, RoundValues(f.ring, aTable[..], bTable[..], eq[1..]).one);
    RowsEvaluate(f.ring, a, weights, rhos);
    RowsEvaluate(f.ring, b, weights, rhos);
    msgs, finalA, finalB := ProveFrom(f, aTable, bTable, first, eq, rhos);
  }

  /** Binding every variable of the row table evaluates the packed witness. */
  lemma {:induction false} RowsEvaluate(r: Ring, bytes: seq<Byte>, weights: seq<E>, rhos: seq<E>)
    requires |weights| == ROW && |bytes| == 8 * Pow2(|rhos|) && Laws(r)
    ensures FoldAll(r, FoldedRows(r, bytes, weights), rhos) == Evaluation(r, Lift(r, bytes), weights, rhos)
  {
    hide Laws, Pow2, FoldAll, FoldedRows, Lift, Dot, IndexWeights, Weights, Block;
    var table := FoldedRows(r, bytes, weights);
    RowsAreBlocks(r, bytes, weights);
    FoldAllEvaluates(r, table, rhos);
    BlocksKeepSum(r, Lift(r, bytes), weights, rhos, table, |table|);
  }

  /** From packed witnesses through prover and verifier: the claims are the evaluations, and the exchange is
      accepted exactly when honest messages pass. */
  method ProvePackedThenVerify(f: Field, weights: seq<E>, a: seq<Byte>, b: seq<Byte>, padding: PaddingSpec, eq: seq<E>,
                               rhos: seq<E>,
                               ghost fa: seq<E>, ghost fb: seq<E>, claim: E)
    returns (ok: bool, finalA: E, finalB: E)
    requires |weights| == ROW && eq != [] && |rhos| == |eq| && |a| == |b| == 8 * Pow2(|eq|)
    requires fa == FoldedRows(f.ring, a, weights) && fb == FoldedRows(f.ring, b, weights)
    requires Padded(a, padding) && Padded(b, padding) && FieldLaws(f)
    ensures finalA == Evaluation(f.ring, Lift(f.ring, a), weights, rhos)
    ensures finalB == Evaluation(f.ring, Lift(f.ring, b), weights, rhos)
    ensures ok <==> HonestPasses(f, fa, fb, eq, rhos, claim)
    ensures claim == Claim(f.ring, fa, fb, eq) && f.ring.one !in eq ==> ok
  {
    hide FieldLaws, Laws, Pow2, Messages, FoldAll, RunningClaim, Claim, Mul, Add, HonestPasses, FoldedRows, Padded,
         Evaluation, Lift;
    var msgs;
    msgs, finalA, finalB := ProvePacked(f, weights, a, b, padding, eq, rhos);
    ok := VerifyRounds(f, claim, eq, msgs, rhos, finalA, finalB);
    SelfCancels(f, f.ring.one);
    RowsEvaluate(f.ring, a, weights, rhos);
    RowsEvaluate(f.ring, b, weights, rhos);
    HonestRun(f, fa, fb, eq, rhos, claim);
    if claim == Claim(f.ring, fa, fb, eq) { TrueClaimPasses(f, fa, fb, eq, rhos); }
  }
}
