/** Canonical block header: its fixed-width wire form. */
module HeaderWire {
  import opened Wrappers
  import opened Wire

  // ------------------------------------------------------------------ header

  type U32 = x: nat | x < 0x1_0000_0000
  type U64 = x: nat | x < 0x1_0000_0000_0000_0000
  type U128 = x: nat | x < 0x1_0000_0000_0000_0000_0000_0000_0000_0000

  datatype BlockHeader = BlockHeader(
    prevBlockHash: Digest,
    stateRoot: Digest,
    txRoot: Digest,
    timestamp: U64,
    height: U64,
    minerAddress: Digest,
    nonce: U128,
    difficultyTarget: Digest,
    logSlots: U32,
    activeSlotCount: U64,
    allocCounter: U64)

  const HEADER_WIDTHS: seq<nat> := [32, 32, 32, 8, 8, 32, 16, 32, 4, 8, 8]
  const BLOCK_HEADER_WIRE_SIZE: nat := 212

  datatype WireError = Truncated | TrailingBytes

  function HeaderFields(h: BlockHeader): seq<Bytes> {
    [h.prevBlockHash, h.stateRoot, h.txRoot, Le(h.timestamp, 8), Le(h.height, 8), h.minerAddress,
     Le(h.nonce, 16), h.difficultyTarget, Le(h.logSlots, 4), Le(h.activeSlotCount, 8), Le(h.allocCounter, 8)]
  }

  lemma {:induction false} HeaderFieldWidths(h: BlockHeader)
    ensures Widths(HeaderFields(h), HEADER_WIDTHS)
  {
    hide Le;
    var fields := HeaderFields(h);
    forall i | 0 <= i < 11 ensures |fields[i]| == HEADER_WIDTHS[i] {
    }
  }

  function HeaderFrom(f: seq<Bytes>): BlockHeader
    requires Widths(f, HEADER_WIDTHS)
  {
    Spans();
    assert |f[3]| == 8 && |f[4]| == 8 && |f[6]| == 16 && |f[8]| == 4 && |f[9]| == 8 && |f[10]| == 8;
    BlockHeader(f[0], f[1], f[2], FromLe(f[3]), FromLe(f[4]), f[5], FromLe(f[6]), f[7], FromLe(f[8]), FromLe(f[9]),
                FromLe(f[10]))
  }

  function EncodeHeader(h: BlockHeader): Bytes {
    Concat(HeaderFields(h))
  }

  function DecodeHeader(bytes: Bytes): Result<BlockHeader, WireError> {
    match TakeAll(bytes, HEADER_WIDTHS)
    case None => Err(Truncated)
    case Some((fields, rest)) => if rest != [] then Err(TrailingBytes) else Ok(HeaderFrom(fields))
  }

  lemma {:induction false} FieldsThenHeader(h: BlockHeader)
    requires Widths(HeaderFields(h), HEADER_WIDTHS)
    ensures HeaderFrom(HeaderFields(h)) == h
  {
    hide Le, FromLe, Span;
    Spans();
    LeThenFrom(h.timestamp, 8);
    LeThenFrom(h.height, 8);
    LeThenFrom(h.nonce, 16);
    LeThenFrom(h.logSlots, 4);
    LeThenFrom(h.activeSlotCount, 8);
    LeThenFrom(h.allocCounter, 8);
  }

  lemma {:induction false} HeaderThenFields(f: seq<Bytes>)
    requires Widths(f, HEADER_WIDTHS)
    ensures HeaderFields(HeaderFrom(f)) == f
  {
    hide Le, FromLe, Span;
    FromThenLe(f[3]);
    FromThenLe(f[4]);
    FromThenLe(f[6]);
    FromThenLe(f[8]);
    FromThenLe(f[9]);
    FromThenLe(f[10]);
  }

  lemma {:induction false} HeaderSize()
    ensures Sum(HEADER_WIDTHS) == BLOCK_HEADER_WIRE_SIZE
  {
    assert Sum([8, 8]) == 16;
    assert HEADER_WIDTHS[9..] == [8, 8];
    assert Sum(HEADER_WIDTHS[7..]) == 52;
    assert Sum(HEADER_WIDTHS[5..]) == 100;
    assert Sum(HEADER_WIDTHS[3..]) == 116;
    assert Sum(HEADER_WIDTHS[1..]) == 180;
  }

  /** The header codec is canonical: exactly the encodings decode, each to the
      header it encodes, and all are as long as the wire constant says. */
  lemma {:induction false} HeaderCanonical(bytes: Bytes, h: BlockHeader)
    ensures DecodeHeader(bytes) == Ok(h) <==> bytes == EncodeHeader(h)
    ensures |EncodeHeader(h)| == BLOCK_HEADER_WIRE_SIZE
    ensures DecodeHeader(bytes).Ok? <==> |bytes| == BLOCK_HEADER_WIRE_SIZE
  {
    hide HeaderFields, HeaderFrom, TakeAll, Concat, Sum;
    HeaderSize();
    HeaderFieldWidths(h);
    ConcatTaken(HeaderFields(h), HEADER_WIDTHS, []);
    assert EncodeHeader(h) + [] == EncodeHeader(h);
    FieldsThenHeader(h);
    TakenConcat(bytes, HEADER_WIDTHS);
    match TakeAll(bytes, HEADER_WIDTHS) {
      case None =>
      case Some((fields, rest)) =>
        HeaderThenFields(fields);
        ConcatTaken(fields, HEADER_WIDTHS, rest);
        if rest == [] { assert Concat(fields) + rest == Concat(fields); }
    }
  }

  lemma {:induction false} HeaderLayoutOffsets()
    ensures Sum(HEADER_WIDTHS[..0]) == 0 && Sum(HEADER_WIDTHS[..1]) == 32 && Sum(HEADER_WIDTHS[..2]) == 64
    ensures Sum(HEADER_WIDTHS[..3]) == 96 && Sum(HEADER_WIDTHS[..4]) == 104
    ensures Sum(HEADER_WIDTHS[..5]) == 112 && Sum(HEADER_WIDTHS[..6]) == 144 && Sum(HEADER_WIDTHS[..7]) == 160
    ensures Sum(HEADER_WIDTHS[..8]) == 192 && Sum(HEADER_WIDTHS[..9]) == 196 && Sum(HEADER_WIDTHS[..10]) == 204
  {
    hide Sum;
    NoWidths();
    NextOffset(HEADER_WIDTHS, 0);
    NextOffset(HEADER_WIDTHS, 1);
    NextOffset(HEADER_WIDTHS, 2);
    NextOffset(HEADER_WIDTHS, 3);
    NextOffset(HEADER_WIDTHS, 4);
    NextOffset(HEADER_WIDTHS, 5);
    NextOffset(HEADER_WIDTHS, 6);
    NextOffset(HEADER_WIDTHS, 7);
    NextOffset(HEADER_WIDTHS, 8);
    NextOffset(HEADER_WIDTHS, 9);
    assert HEADER_WIDTHS[..0] == [];
  }

  /** Where every field of a header stands on the wire. */
  lemma {:induction false} HeaderLayout(h: BlockHeader)
    ensures |EncodeHeader(h)| == 212
    ensures EncodeHeader(h)[0..32] == h.prevBlockHash && EncodeHeader(h)[32..64] == h.stateRoot
    ensures EncodeHeader(h)[64..96] == h.txRoot && EncodeHeader(h)[96..104] == Le(h.timestamp, 8)
    ensures EncodeHeader(h)[104..112] == Le(h.height, 8) && EncodeHeader(h)[112..144] == h.minerAddress
    ensures EncodeHeader(h)[144..160] == Le(h.nonce, 16) && EncodeHeader(h)[160..192] == h.difficultyTarget
    ensures EncodeHeader(h)[192..196] == Le(h.logSlots, 4) && EncodeHeader(h)[196..204] == Le(h.activeSlotCount, 8)
    ensures EncodeHeader(h)[204..212] == Le(h.allocCounter, 8)
  {
    hide Le, Concat, Sum, TakeAll;
    var fields := HeaderFields(h);
    HeaderLayoutOffsets();
    HeaderFieldWidths(h);
    NextOffset(HEADER_WIDTHS, 10);
    assert HEADER_WIDTHS[..11] == HEADER_WIDTHS;
    ConcatTaken(fields, HEADER_WIDTHS, []);
    FieldAt(fields, HEADER_WIDTHS, 0, 0, 32);
    FieldAt(fields, HEADER_WIDTHS, 1, 32, 64);
    FieldAt(fields, HEADER_WIDTHS, 2, 64, 96);
    FieldAt(fields, HEADER_WIDTHS, 3, 96, 104);
    FieldAt(fields, HEADER_WIDTHS, 4, 104, 112);
    FieldAt(fields, HEADER_WIDTHS, 5, 112, 144);
    FieldAt(fields, HEADER_WIDTHS, 6, 144, 160);
    FieldAt(fields, HEADER_WIDTHS, 7, 160, 192);
    FieldAt(fields, HEADER_WIDTHS, 8, 192, 196);
    FieldAt(fields, HEADER_WIDTHS, 9, 196, 204);
    FieldAt(fields, HEADER_WIDTHS, 10, 204, 212);
  }
}
