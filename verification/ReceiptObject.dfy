/** Writing a receipt into a growing buffer and reading it back with a moving cursor. */
module ReceiptObject {
  import opened Wrappers
  import opened Wire
  import opened HeaderWire
  import opened TxTree
  import opened Receipt
  import opened ReceiptCodec

  // ------------------------------------------------------------------- writing

  lemma {:induction false} SixFields(a: Bytes, b: Bytes, c: Bytes, d: Bytes, e: Bytes, f: Bytes)
    ensures Concat([a, b, c, d, e, f]) == a + b + c + d + e + f
  {
    OneField(a);
    hide Concat;
    ConcatSnoc([a], b);
    ConcatSnoc([a] + [b], c);
    ConcatSnoc([a] + [b] + [c], d);
    ConcatSnoc([a] + [b] + [c] + [d], e);
    ConcatSnoc([a] + [b] + [c] + [d] + [e], f);
    assert [a] + [b] + [c] + [d] + [e] + [f] == [a, b, c, d, e, f];
  }

  lemma {:induction false} OneField(a: Bytes)
    ensures Concat([a]) == a
  {
    assert [a][1..] == [];
  }

  lemma {:induction false} HeadersSnoc(headers: seq<BlockHeader>, last: BlockHeader)
    ensures EncodeHeaders(headers + [last]) == EncodeHeaders(headers) + EncodeHeader(last)
  {
    hide EncodeHeader;
    if headers == [] {
      assert [last][1..] == [];
    } else {
      HeadersSnoc(headers[1..], last);
      assert (headers + [last])[1..] == headers[1..] + [last];
    }
  }

  method WriteHead(marker: Bytes, head: Head, opening: Bytes, page: Bytes) returns (bytes: Bytes)
    ensures bytes == marker + Concat(HeadFields(head, opening, page))
  {
    hide EncodeHeader, Le, Concat;
    bytes := marker;
    bytes := bytes + opening;
    bytes := bytes + page;
    bytes := bytes + EncodeHeader(head.header);
    bytes := bytes + EncodeHeader(head.anchor);
    bytes := bytes + Le(head.txIndex, 2);
    bytes := bytes + Le(head.txCount, 2);
    ghost var front := FrontFields(head, opening, page);
    SixFields(opening, page, EncodeHeader(head.header), EncodeHeader(head.anchor), Le(head.txIndex, 2),
              Le(head.txCount, 2));
    assert bytes == marker + Concat(front);
    assert front + head.path[..0] == front;
    for i := 0 to |head.path|
      invariant bytes == marker + Concat(front + head.path[..i])
    {
      ConcatSnoc(front + head.path[..i], head.path[i]);
      assert front + head.path[..i + 1] == front + head.path[..i] + [head.path[i]];
      bytes := bytes + head.path[i];
    }
    assert head.path[..|head.path|] == head.path;
  }

  method WriteHeaders(buffer: Bytes, headers: seq<BlockHeader>) returns (bytes: Bytes)
    ensures bytes == buffer + EncodeHeaders(headers)
  {
    hide EncodeHeader, EncodeHeaders;
    NoHeaders();
    bytes := buffer;
    assert headers[..0] == [];
    for i := 0 to |headers|
      invariant bytes == buffer + EncodeHeaders(headers[..i])
    {
      HeadersSnoc(headers[..i], headers[i]);
      assert headers[..i + 1] == headers[..i] + [headers[i]];
      bytes := bytes + EncodeHeader(headers[i]);
    }
    assert headers[..|headers|] == headers;
  }

  /** Writes exactly the receipts it would accept, each in its one wire form. */
  method ToBytes(rules: Rules, r: ObjectTransitionReceipt) returns (result: Result<Bytes, ReceiptError>)
    ensures result.Ok? <==> Accepted(rules, r) && Encodable(rules, HeadOf(r))
    ensures result.Ok? ==> Encodes(rules, r, result.value)
  {
    hide SizeHolds, InclusionHolds, Concat, HeadFields, EncodeHeaders, Le;
    var size := CheckSize(rules, r);
    if size.Err? {
      return Err(size.error);
    }
    var inclusion := CheckInclusion(rules, r);
    if inclusion.Err? {
      return Err(inclusion.error);
    }
    var extended := |r.descendants| != 0;
    var marker := if extended then DESCENDANT_MAGIC else MAGIC;
    var opening := rules.encodeOpening(r.opening);
    if opening.None? {
      return Err(OpeningEncoding);
    }
    var page := rules.encodePage(r.page);
    if page.None? {
      return Err(PageEncoding);
    }
    var bytes := WriteHead(marker, HeadOf(r), opening.value, page.value);
    if extended {
      bytes := bytes + Le(|r.descendants|, 2);
      bytes := WriteHeaders(bytes, r.descendants);
    } else {
      NoHeaders();
    }
    bytes := bytes + Le(|r.terminal|, 4);
    bytes := bytes + r.terminal;
    return Ok(bytes);
  }

  // ------------------------------------------------------------------- reading

  class Cursor {
    const bytes: Bytes
    var at: nat

    constructor (bytes: Bytes, at: nat)
      ensures this.bytes == bytes && this.at == at
    {
      this.bytes := bytes;
      this.at := at;
    }

    /** Every call site proves that the cursor stays inside the buffer. */
    method Take(count: nat) returns (out: Bytes)
      requires at + count <= |bytes|
      modifies this
      ensures at == old(at) + count && out == bytes[old(at)..at]
    {
      out := bytes[at..at + count];
      at := at + count;
    }
  }

  lemma {:induction false} HeadOffsets(i: nat)
    requires i <= 14
    ensures Sum(HEAD_WIDTHS[..i]) ==
            if i == 0 then 0 else if i == 1 then 699 else if i == 2 then 1022 else if i == 3 then 1234
            else if i == 4 then 1446 else if i == 5 then 1448 else 1450 + 32 * (i - 6)
  {
    if i > 0 {
      HeadOffsets(i - 1);
      SumAppends(HEAD_WIDTHS[..i - 1], [HEAD_WIDTHS[i - 1]]);
      assert HEAD_WIDTHS[..i] == HEAD_WIDTHS[..i - 1] + [HEAD_WIDTHS[i - 1]];
      assert Sum([HEAD_WIDTHS[i - 1]]) == HEAD_WIDTHS[i - 1];
    }
  }

  /** The fields of the fixed part, by offset into the whole receipt. */
  lemma {:induction false} HeadFieldAt(bytes: Bytes, i: nat, at: nat, end: nat)
    requires |bytes| >= FIXED_BYTES && i < 14
    requires at == 8 + Sum(HEAD_WIDTHS[..i]) && end == at + HEAD_WIDTHS[i]
    ensures end <= FIXED_BYTES - 4
    ensures TakeAll(bytes[8..FIXED_BYTES - 4], HEAD_WIDTHS).Some?
    ensures TakeAll(bytes[8..FIXED_BYTES - 4], HEAD_WIDTHS).value.1 == []
    ensures TakeAll(bytes[8..FIXED_BYTES - 4], HEAD_WIDTHS).value.0[i] == bytes[at..end]
  {
    hide TakeAll, Sum;
    var slice := bytes[8..FIXED_BYTES - 4];
    HeadWidthSum();
    TakenAt(slice, HEAD_WIDTHS, i);
    TakenConcat(slice, HEAD_WIDTHS);
    ConcatTaken(TakeAll(slice, HEAD_WIDTHS).value.0, HEAD_WIDTHS, TakeAll(slice, HEAD_WIDTHS).value.1);
    SliceOfSlice(bytes, 8, FIXED_BYTES - 4, at - 8, end - 8);
  }

  lemma {:induction false} HeadFieldCuts(bytes: Bytes)
    requires |bytes| >= FIXED_BYTES
    ensures TakeAll(bytes[8..FIXED_BYTES - 4], HEAD_WIDTHS).Some?
    ensures var (f, rest) := TakeAll(bytes[8..FIXED_BYTES - 4], HEAD_WIDTHS).value;
            && rest == [] && |f| == 14
            && f[0] == bytes[8..707] && f[1] == bytes[707..1030] && f[2] == bytes[1030..1242]
            && f[3] == bytes[1242..1454]
            && f[4] == bytes[1454..1456] && f[5] == bytes[1456..1458]
            && forall i :: 0 <= i < TX_TREE_DEPTH ==> f[6 + i] == bytes[1458 + 32 * i..1490 + 32 * i]
  {
    hide TakeAll, Sum;
    HeadOffsets(0);
    HeadFieldAt(bytes, 0, 8, 707);
    HeadOffsets(1);
    HeadFieldAt(bytes, 1, 707, 1030);
    HeadOffsets(2);
    HeadFieldAt(bytes, 2, 1030, 1242);
    HeadOffsets(3);
    HeadFieldAt(bytes, 3, 1242, 1454);
    HeadOffsets(4);
    HeadFieldAt(bytes, 4, 1454, 1456);
    HeadOffsets(5);
    HeadFieldAt(bytes, 5, 1456, 1458);
    var f := TakeAll(bytes[8..FIXED_BYTES - 4], HEAD_WIDTHS).value.0;
    forall i | 0 <= i < TX_TREE_DEPTH ensures f[6 + i] == bytes[1458 + 32 * i..1490 + 32 * i] {
      HeadOffsets(6 + i);
      HeadFieldAt(bytes, 6 + i, 1458 + 32 * i, 1490 + 32 * i);
    }
  }

  method ReadPath(cursor: Cursor) returns (path: Path)
    requires cursor.at == 1458 && |cursor.bytes| >= FIXED_BYTES
    modifies cursor
    ensures cursor.at == FIXED_BYTES - 4
    ensures forall i :: 0 <= i < TX_TREE_DEPTH ==> path[i] == cursor.bytes[1458 + 32 * i..1490 + 32 * i]
  {
    var taken: seq<Digest> := [];
    for i := 0 to TX_TREE_DEPTH
      invariant |taken| == i && cursor.at == 1458 + 32 * i
      invariant forall j :: 0 <= j < i ==> taken[j] == cursor.bytes[1458 + 32 * j..1490 + 32 * j]
    {
      var sibling := cursor.Take(32);
      taken := taken + [sibling];
    }
    path := taken;
  }

  method ReadHead(rules: Rules, cursor: Cursor) returns (result: Result<Head, ReceiptError>)
    requires cursor.at == 8 && |cursor.bytes| >= FIXED_BYTES
    modifies cursor
    ensures result.Ok? <==> ParseHead(rules, cursor.bytes[8..FIXED_BYTES - 4]).Some?
    ensures result.Ok? ==>
              ParseHead(rules, cursor.bytes[8..FIXED_BYTES - 4]) == Some(result.value) && cursor.at == FIXED_BYTES - 4
  {
    hide TakeAll, DecodeHeader, FromLe, Widths;
    HeadFieldCuts(cursor.bytes);
    ghost var f := TakeAll(cursor.bytes[8..FIXED_BYTES - 4], HEAD_WIDTHS).value.0;
    var openingBytes := cursor.Take(OPENING_BYTES);
    var opening := rules.decodeOpening(openingBytes);
    if opening.None? {
      return Err(OpeningDecoding);
    }
    var pageBytes := cursor.Take(TX_BODY_WIRE_SIZE);
    var page := rules.decodePage(pageBytes);
    if page.None? {
      return Err(PageDecoding);
    }
    var headerBytes := cursor.Take(HEADER_BYTES);
    var header := DecodeHeader(headerBytes);
    if header.Err? {
      return Err(HeaderDecoding);
    }
    var anchorBytes := cursor.Take(HEADER_BYTES);
    var anchor := DecodeHeader(anchorBytes);
    if anchor.Err? {
      return Err(AnchorDecoding);
    }
    var indexBytes := cursor.Take(2);
    var countBytes := cursor.Take(2);
    var path := ReadPath(cursor);
    assert path == PathFrom(f);
    return Ok(Head(opening.value, page.value, header.value, anchor.value, Short(indexBytes), Short(countBytes), path));
  }

  /** Read headers one by one; the first that does not decode stops the reading. */
  method ReadHeaders(cursor: Cursor, count: nat) returns (result: Result<seq<BlockHeader>, ReceiptError>)
    requires cursor.at + count * HEADER_BYTES <= |cursor.bytes|
    modifies cursor
    ensures var slice := cursor.bytes[old(cursor.at)..old(cursor.at) + count * HEADER_BYTES];
            && (result.Ok? <==> ParseHeaders(slice, count).Some?)
            && (result.Ok? ==> ParseHeaders(slice, count) == Some(result.value))
  {
    hide DecodeHeader, ParseHeaders;
    ghost var slice := cursor.bytes[cursor.at..cursor.at + count * HEADER_BYTES];
    var headers := [];
    var i: nat := 0;
    assert slice[0..] == slice;
    PrependNothing(ParseHeaders(slice, count));
    while i < count
      invariant i <= count && cursor.at == old(cursor.at) + i * HEADER_BYTES
      invariant ParseHeaders(slice, count) == Prepend(headers, ParseHeaders(slice[i * HEADER_BYTES..], count - i))
    {
      ghost var rest := slice[i * HEADER_BYTES..];
      var bytes := cursor.Take(HEADER_BYTES);
      HeaderCut(cursor.bytes, old(cursor.at), count, i);
      ParseHeadersStep(rest, count - i);
      var header := DecodeHeader(bytes);
      if header.Err? {
        return Err(DescendantDecoding);
      }
      PrependMore(headers, header.value, ParseHeaders(rest[HEADER_BYTES..], count - i - 1));
      headers := headers + [header.value];
      i := i + 1;
    }
    ParseNoHeaders(slice[i * HEADER_BYTES..]);
    assert headers + [] == headers;
    return Ok(headers);
  }

  ghost function Prepend(front: seq<BlockHeader>, rest: Option<seq<BlockHeader>>): Option<seq<BlockHeader>> {
    match rest
    case None => None
    case Some(headers) => Some(front + headers)
  }

  lemma {:induction false} PrependNothing(rest: Option<seq<BlockHeader>>)
    ensures Prepend([], rest) == rest
  {
    if rest.Some? { assert [] + rest.value == rest.value; }
  }

  /** The i-th header of the descendants, in the slice and in the buffer. */
  lemma {:induction false} HeaderCut(bytes: Bytes, at: nat, count: nat, i: nat)
    requires at + count * HEADER_BYTES <= |bytes| && i < count
    ensures var slice := bytes[at..at + count * HEADER_BYTES];
            && slice[i * HEADER_BYTES..][..HEADER_BYTES] == bytes[at + i * HEADER_BYTES..at + (i + 1) * HEADER_BYTES]
            && slice[i * HEADER_BYTES..][HEADER_BYTES..] == slice[(i + 1) * HEADER_BYTES..]
  {
    var slice := bytes[at..at + count * HEADER_BYTES];
    SliceOfSlice(bytes, at, at + count * HEADER_BYTES, i * HEADER_BYTES, (i + 1) * HEADER_BYTES);
    SliceOfSlice(slice, i * HEADER_BYTES, |slice|, 0, HEADER_BYTES);
    SliceOfSlice(slice, i * HEADER_BYTES, |slice|, HEADER_BYTES, |slice| - i * HEADER_BYTES);
  }

  lemma {:induction false} PrependMore(front: seq<BlockHeader>, next: BlockHeader, rest: Option<seq<BlockHeader>>)
    ensures Prepend(front, Prepend([next], rest)) == Prepend(front + [next], rest)
  {
    if rest.Some? { assert front + ([next] + rest.value) == front + [next] + rest.value; }
  }

  lemma {:induction false} ParseHeadersStep(bytes: Bytes, count: nat)
    requires count > 0 && |bytes| >= HEADER_BYTES
    ensures ParseHeaders(bytes, count) ==
            match DecodeHeader(bytes[..HEADER_BYTES])
            case Err(_) => None
            case Ok(header) => Prepend([header], ParseHeaders(bytes[HEADER_BYTES..], count - 1))
  {
    hide DecodeHeader;
  }

  lemma {:induction false} ParseNoHeaders(bytes: Bytes)
    requires bytes == []
    ensures ParseHeaders(bytes, 0) == Some([])
  {
  }

  method ReadFrame(bytes: Bytes) returns (result: Result<nat, ReceiptError>)
    ensures result.Ok? <==> Frame(bytes).Some?
    ensures result.Ok? ==> Frame(bytes) == Some(result.value)
  {
    hide FromLe;
    if |bytes| <= FIXED_BYTES || |bytes| > MAX_RECEIPT_BYTES || (!(MAGIC <= bytes) && !(DESCENDANT_MAGIC <= bytes)) {
      return Err(LengthOrMarker);
    }
    var count: nat := 0;
    if DESCENDANT_MAGIC <= bytes {
      count := FromLe(bytes[FIXED_BYTES - 4..FIXED_BYTES - 2]);
      if count == 0 || count > MAX_RECEIPT_DESCENDANTS {
        return Err(AncestryLength);
      }
    }
    var prefix := Prefix(count);
    if |bytes| <= prefix {
      return Err(AncestryTruncated);
    }
    var len := FromLe(bytes[prefix - 4..prefix]);
    if len != |bytes| - prefix || len > MAX_TERMINAL_BYTES {
      return Err(TerminalFraming);
    }
    return Ok(count);
  }

  /** Reads exactly the strings `Parse` accepts; with canonical sub-codecs those are exactly
      the strings `ToBytes` writes. */
  method FromBytes(rules: Rules, bytes: Bytes) returns (result: Result<ObjectTransitionReceipt, ReceiptError>)
    ensures result.Ok? <==> Parse(rules, bytes).Some?
    ensures result.Ok? ==> Parse(rules, bytes) == Some(result.value)
  {
    hide Frame, ParseHead, ParseHeaders, SizeHolds, InclusionHolds;
    var frame := ReadFrame(bytes);
    if frame.Err? {
      return Err(frame.error);
    }
    var count := frame.value;
    FrameSays(bytes, count);
    var cursor := new Cursor(bytes, 8);
    var head := ReadHead(rules, cursor);
    if head.Err? {
      return Err(head.error);
    }
    var descendants := [];
    if count == 0 {
      ParseNoHeaders([]);
    } else {
      var _ := cursor.Take(2);
      var headers := ReadHeaders(cursor, count);
      if headers.Err? {
        return Err(headers.error);
      }
      descendants := headers.value;
    }
    var receipt := Assemble(head.value, descendants, bytes[Prefix(count)..]);
    var size := CheckSize(rules, receipt);
    if size.Err? {
      return Err(size.error);
    }
    var inclusion := CheckInclusion(rules, receipt);
    if inclusion.Err? {
      return Err(inclusion.error);
    }
    return Ok(receipt);
  }
}
