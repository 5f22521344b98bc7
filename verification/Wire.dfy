/** Bytes, little-endian integers, records of fixed-width fields and lower-case hexadecimal text. */
module Wire {
  import opened Wrappers

  type Byte = b: nat | b < 256
  type Bytes = seq<Byte>
  type Digest = d: Bytes | |d| == 32 witness seq(32, _ => 0)

  predicate HexDigit(c: char) {
    '0' <= c <= '9' || 'a' <= c <= 'f'
  }

  lemma {:induction false} HexDigitIs(c: char)
    ensures HexDigit(c) <==> c in "0123456789abcdef"
  {
    var digits := "0123456789abcdef";
    if '0' <= c <= '9' { assert digits[c as int - '0' as int] == c; }
    if 'a' <= c <= 'f' { assert digits[10 + c as int - 'a' as int] == c; }
  }

  // ----------------------------------------------------------- little endian

  function Span(width: nat): (n: nat)
    ensures n >= 1
  {
    if width == 0 then 1 else 256 * Span(width - 1)
  }

  function Le(value: nat, width: nat): (bytes: Bytes)
    ensures |bytes| == width
    decreases width
  {
    if width == 0 then [] else [value % 256] + Le(value / 256, width - 1)
  }

  function FromLe(bytes: Bytes): (value: nat)
    ensures value < Span(|bytes|)
  {
    if bytes == [] then 0 else bytes[0] + 256 * FromLe(bytes[1..])
  }

  lemma {:induction false} LeThenFrom(value: nat, width: nat)
    requires value < Span(width)
    ensures FromLe(Le(value, width)) == value
    decreases width
  {
    if width > 0 {
      LeThenFrom(value / 256, width - 1);
      assert Le(value, width)[1..] == Le(value / 256, width - 1);
    }
  }

  lemma {:induction false} SplitByte(b: Byte, v: nat)
    ensures (b + 256 * v) % 256 == b && (b + 256 * v) / 256 == v
  {
  }

  lemma {:induction false} LeUnfolds(value: nat, width: nat)
    requires width >= 1
    ensures Le(value, width) == [value % 256] + Le(value / 256, width - 1)
  {
  }

  lemma {:induction false} FromThenLe(bytes: Bytes)
    ensures Le(FromLe(bytes), |bytes|) == bytes
  {
    hide Le, Span;
    if bytes != [] {
      FromThenLe(bytes[1..]);
      SplitByte(bytes[0], FromLe(bytes[1..]));
      LeUnfolds(FromLe(bytes), |bytes|);
      assert bytes == [bytes[0]] + bytes[1..];
    } else {
      LeOfNothing();
    }
  }

  lemma {:induction false} LeOfNothing()
    ensures Le(0, 0) == []
  {
  }

  /** Little-endian: every further byte counts 256 times as much. */
  lemma {:induction false} LastIsHighest(front: Bytes, last: Byte)
    ensures FromLe(front + [last]) == FromLe(front) + last * Span(|front|)
  {
    if front == [] {
      assert [last][1..] == [];
    } else {
      LastIsHighest(front[1..], last);
      assert (front + [last])[1..] == front[1..] + [last];
      TimesByte(last, Span(|front| - 1));
    }
  }

  lemma {:induction false} TimesByte(last: nat, span: nat)
    ensures 256 * (last * span) == last * (256 * span)
  {
  }

  lemma {:induction false} Spans()
    ensures Span(4) == 0x1_0000_0000
    ensures Span(8) == 0x1_0000_0000_0000_0000
    ensures Span(16) == 0x1_0000_0000_0000_0000_0000_0000_0000_0000
  {
    assert Span(2) == 0x1_0000;
    assert Span(4) == 0x1_0000_0000;
    assert Span(6) == 0x1_0000_0000_0000;
    assert Span(8) == 0x1_0000_0000_0000_0000;
    assert Span(10) == 0x1_0000_0000_0000_0000_0000;
    assert Span(12) == 0x1_0000_0000_0000_0000_0000_0000;
    assert Span(14) == 0x1_0000_0000_0000_0000_0000_0000_0000;
  }

  // ------------------------------------------------------ fixed-width records

  function Sum(widths: seq<nat>): nat {
    if widths == [] then 0 else widths[0] + Sum(widths[1..])
  }

  ghost predicate Widths(fields: seq<Bytes>, widths: seq<nat>) {
    |fields| == |widths| && forall i :: 0 <= i < |fields| ==> |fields[i]| == widths[i]
  }

  function Concat(fields: seq<Bytes>): Bytes {
    if fields == [] then [] else fields[0] + Concat(fields[1..])
  }

  /** Take one field after another off the front; `None` when the input is short. */
  function TakeAll(bytes: Bytes, widths: seq<nat>): (r: Option<(seq<Bytes>, Bytes)>)
    ensures r.Some? ==> Widths(r.value.0, widths)
    decreases |widths|
  {
    if widths == [] then Some(([], bytes))
    else if |bytes| < widths[0] then None
    else
      match TakeAll(bytes[widths[0]..], widths[1..])
      case None => None
      case Some((fields, rest)) => Some(([bytes[..widths[0]]] + fields, rest))
  }

  lemma {:induction false} TakeFirst(head: Bytes, tail: Bytes, widths: seq<nat>, fields: seq<Bytes>, rest: Bytes)
    requires widths != [] && |head| == widths[0] && TakeAll(tail, widths[1..]) == Some((fields, rest))
    ensures TakeAll(head + tail, widths) == Some(([head] + fields, rest))
  {
    assert (head + tail)[..widths[0]] == head;
    assert (head + tail)[widths[0]..] == tail;
  }

  lemma {:induction false} ConcatTaken(fields: seq<Bytes>, widths: seq<nat>, rest: Bytes)
    requires Widths(fields, widths)
    ensures |Concat(fields)| == Sum(widths)
    ensures TakeAll(Concat(fields) + rest, widths) == Some((fields, rest))
    decreases |fields|
  {
    if fields == [] {
      assert Concat(fields) + rest == rest;
    } else {
      ConcatTaken(fields[1..], widths[1..], rest);
      var tail := Concat(fields[1..]) + rest;
      TakeFirst(fields[0], tail, widths, fields[1..], rest);
      hide TakeAll;
      assert Concat(fields) + rest == fields[0] + tail;
      assert fields == [fields[0]] + fields[1..];
    }
  }

  lemma {:induction false} TakenConcat(bytes: Bytes, widths: seq<nat>)
    ensures TakeAll(bytes, widths).Some? <==> |bytes| >= Sum(widths)
    ensures TakeAll(bytes, widths).Some? ==>
              bytes == Concat(TakeAll(bytes, widths).value.0) + TakeAll(bytes, widths).value.1
    decreases |widths|
  {
    if widths != [] && |bytes| >= widths[0] {
      TakenConcat(bytes[widths[0]..], widths[1..]);
      match TakeAll(bytes[widths[0]..], widths[1..]) {
        case None =>
        case Some((fields, rest)) =>
          var head := bytes[..widths[0]];
          assert ([head] + fields)[1..] == fields;
          assert bytes == head + bytes[widths[0]..];
      }
    }
  }

  lemma {:induction false} ConcatSnoc(fields: seq<Bytes>, last: Bytes)
    ensures Concat(fields + [last]) == Concat(fields) + last
  {
    if fields == [] {
      assert [last][1..] == [];
    } else {
      ConcatSnoc(fields[1..], last);
      assert (fields + [last])[1..] == fields[1..] + [last];
    }
  }

  lemma {:induction false} TakenHead(bytes: Bytes, widths: seq<nat>)
    requires widths != [] && |bytes| >= Sum(widths)
    ensures Sum(widths) == widths[0] + Sum(widths[1..]) && TakeAll(bytes, widths).Some?
    ensures TakeAll(bytes[widths[0]..], widths[1..]).Some?
    ensures TakeAll(bytes, widths).value.0 == [bytes[..widths[0]]] + TakeAll(bytes[widths[0]..], widths[1..]).value.0
  {
    TakenConcat(bytes, widths);
  }

  lemma {:induction false} SumFront(widths: seq<nat>, i: nat)
    requires 1 <= i <= |widths|
    ensures Sum(widths[..i]) == widths[0] + Sum(widths[1..][..i - 1])
  {
    assert widths[..i][1..] == widths[1..][..i - 1];
  }

  /** The cut fields are consecutive slices of the input. */
  lemma {:induction false} TakenAt(bytes: Bytes, widths: seq<nat>, i: nat)
    requires i < |widths| && |bytes| >= Sum(widths)
    ensures TakeAll(bytes, widths).Some?
    ensures Sum(widths[..i]) + widths[i] <= |bytes|
    ensures TakeAll(bytes, widths).value.0[i] == bytes[Sum(widths[..i])..Sum(widths[..i]) + widths[i]]
    decreases |widths|
  {
    TakenHead(bytes, widths);
    if i == 0 {
      assert widths[..0] == [];
    } else {
      hide TakeAll, Sum;
      var w := widths[0];
      TakenAt(bytes[w..], widths[1..], i - 1);
      SumFront(widths, i);
      var at := Sum(widths[1..][..i - 1]);
      SliceOfSlice(bytes, w, |bytes|, at, at + widths[i]);
    }
  }

  lemma {:induction false} SliceOfSlice(bytes: Bytes, lo: nat, hi: nat, i: nat, j: nat)
    requires lo <= hi <= |bytes| && i <= j <= hi - lo
    ensures bytes[lo..hi][i..j] == bytes[lo + i..lo + j]
  {
    var a, b := bytes[lo..hi][i..j], bytes[lo + i..lo + j];
    assert |a| == |b| == j - i;
    forall k | 0 <= k < j - i ensures a[k] == b[k] {
      assert a[k] == bytes[lo..hi][i + k] == bytes[lo + i + k];
    }
  }

  lemma {:induction false} NoWidths()
    ensures Sum([]) == 0
  {
  }

  lemma {:induction false} NextOffset(widths: seq<nat>, i: nat)
    requires i < |widths|
    ensures Sum(widths[..i + 1]) == Sum(widths[..i]) + widths[i]
    decreases i
  {
    if i == 0 {
      assert widths[..0] == [] && widths[..1] == [widths[0]];
      assert [widths[0]][1..] == [];
    } else {
      NextOffset(widths[1..], i - 1);
      SumFront(widths, i);
      SumFront(widths, i + 1);
    }
  }

  /** A field of a record stands behind the widths of the ones before it. */
  lemma {:induction false} FieldAt(fields: seq<Bytes>, widths: seq<nat>, i: nat, from: nat, to: nat)
    requires Widths(fields, widths) && i < |fields| && from == Sum(widths[..i]) && to == from + widths[i]
    ensures to <= |Concat(fields)| && Concat(fields)[from..to] == fields[i]
  {
    hide TakeAll, Concat, Sum;
    ConcatTaken(fields, widths, []);
    assert Concat(fields) + [] == Concat(fields);
    TakenAt(Concat(fields), widths, i);
  }
}
