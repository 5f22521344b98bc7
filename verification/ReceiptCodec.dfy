/** The receipt wire form: two layouts told apart by their marker, a descendant count read
    from a computed offset, and a length-framed terminal at the end. */
module ReceiptCodec {
  import opened Wrappers
  import opened Wire
  import opened HeaderWire
  import opened TxTree
  import opened Receipt

  const MAGIC: Bytes := [0x4f, 0x31, 0x4f, 0x42, 0x4a, 0x52, 0x43, 0x34]
  const DESCENDANT_MAGIC: Bytes := [0x4f, 0x31, 0x4f, 0x42, 0x4a, 0x52, 0x43, 0x35]
  const OPENING_BYTES: nat := 699
  const TX_BODY_WIRE_SIZE: nat := 323
  const HEADER_BYTES: nat := BLOCK_HEADER_WIRE_SIZE
  const PATH_BYTES: nat := 32 * TX_TREE_DEPTH
  const FIXED_BYTES: nat := 8 + OPENING_BYTES + TX_BODY_WIRE_SIZE + 2 * HEADER_BYTES + 2 + 2 + PATH_BYTES + 4
  const MAX_RECEIPT_BYTES: nat := FIXED_BYTES + 2 + MAX_RECEIPT_DESCENDANTS * HEADER_BYTES + MAX_TERMINAL_BYTES

  /** Opening and page are fixed-width canonical codecs: exactly what they write is what they read. */
  ghost predicate CanonicalOpening(rules: Rules) {
    && (forall b, x :: rules.decodeOpening(b) == Some(x) <==> rules.encodeOpening(x) == Some(b))
    && (forall x :: rules.encodeOpening(x).Some? ==> |rules.encodeOpening(x).value| == OPENING_BYTES)
  }

  ghost predicate CanonicalPage(rules: Rules) {
    && (forall b, x :: rules.decodePage(b) == Some(x) <==> rules.encodePage(x) == Some(b))
    && (forall x :: rules.encodePage(x).Some? ==> |rules.encodePage(x).value| == TX_BODY_WIRE_SIZE)
  }

  // ---------------------------------------------------------------- fixed part

  /** Everything between the marker and the descendants. */
  datatype Head = Head(opening: Opening, page: Page, header: BlockHeader, anchor: BlockHeader, txIndex: U16,
                       txCount: U16, path: Path)

  const PATH_WIDTHS: seq<nat> := [32, 32, 32, 32, 32, 32, 32, 32]
  const FRONT_WIDTHS: seq<nat> := [OPENING_BYTES, TX_BODY_WIRE_SIZE, HEADER_BYTES, HEADER_BYTES, 2, 2]
  const HEAD_WIDTHS: seq<nat> := FRONT_WIDTHS + PATH_WIDTHS
  const HEAD_BYTES: nat := FIXED_BYTES - 12

  function HeadOf(r: ObjectTransitionReceipt): Head {
    Head(r.opening, r.page, r.header, r.epochAnchorHeader, r.txIndex, r.txCount, r.path)
  }

  function FrontFields(head: Head, opening: Bytes, page: Bytes): seq<Bytes> {
    [opening, page, EncodeHeader(head.header), EncodeHeader(head.anchor), Le(head.txIndex, 2), Le(head.txCount, 2)]
  }

  function HeadFields(head: Head, opening: Bytes, page: Bytes): seq<Bytes> {
    FrontFields(head, opening, page) + head.path
  }

  predicate Encodable(rules: Rules, head: Head) {
    rules.encodeOpening(head.opening).Some? && rules.encodePage(head.page).Some?
  }

  function HeadBytes(rules: Rules, head: Head): Bytes
    requires Encodable(rules, head)
  {
    Concat(HeadFields(head, rules.encodeOpening(head.opening).value, rules.encodePage(head.page).value))
  }

  lemma {:induction false} ShortSpan()
    ensures Span(2) == 0x1_0000
  {
    assert Span(1) == 256;
  }

  function Short(b: Bytes): U16
    requires |b| == 2
  {
    ShortSpan();
    FromLe(b)
  }

  lemma {:induction false} FieldWidths(f: seq<Bytes>)
    requires Widths(f, HEAD_WIDTHS)
    ensures |f| == 14 && |f[4]| == 2 && |f[5]| == 2 && forall i :: 6 <= i < 14 ==> |f[i]| == 32
  {
    assert HEAD_WIDTHS[4] == 2 && HEAD_WIDTHS[5] == 2;
    assert forall i :: 6 <= i < 14 ==> HEAD_WIDTHS[i] == 32;
  }

  function ParseFields(rules: Rules, f: seq<Bytes>): Option<Head>
    requires Widths(f, HEAD_WIDTHS)
  {
    FieldWidths(f);
    var opening, page := rules.decodeOpening(f[0]), rules.decodePage(f[1]);
    var header, anchor := DecodeHeader(f[2]), DecodeHeader(f[3]);
    if opening.None? || page.None? || header.Err? || anchor.Err? then None
    else Some(Head(opening.value, page.value, header.value, anchor.value, Short(f[4]), Short(f[5]), PathFrom(f)))
  }

  function PathFrom(f: seq<Bytes>): Path
    requires Widths(f, HEAD_WIDTHS)
  {
    FieldWidths(f);
    Digests(f[6..])
  }

  function Digests(f: seq<Bytes>): (path: seq<Digest>)
    requires forall i :: 0 <= i < |f| ==> |f[i]| == 32
    ensures path == f
  {
    f
  }

  function ParseHead(rules: Rules, bytes: Bytes): Option<Head> {
    match TakeAll(bytes, HEAD_WIDTHS)
    case None => None
    case Some((fields, rest)) => if rest != [] then None else ParseFields(rules, fields)
  }

  lemma {:induction false} HeadWidthSum()
    ensures Sum(HEAD_WIDTHS) == HEAD_BYTES
  {
    SumAppends(FRONT_WIDTHS, PATH_WIDTHS);
    assert Sum([2, 2]) == 4;
    assert FRONT_WIDTHS[4..] == [2, 2];
    assert Sum(FRONT_WIDTHS[2..]) == 428;
    var two: seq<nat> := [32, 32];
    assert Sum(two) == 64;
    SumAppends(two, two);
    SumAppends(two + two, two + two);
    assert PATH_WIDTHS == (two + two) + (two + two);
  }

  lemma {:induction false} SumAppends(a: seq<nat>, b: seq<nat>)
    ensures Sum(a + b) == Sum(a) + Sum(b)
  {
    if a == [] {
      assert a + b == b;
    } else {
      SumAppends(a[1..], b);
      assert (a + b)[1..] == a[1..] + b;
    }
  }

  lemma {:induction false} HeadFieldWidths(head: Head, opening: Bytes, page: Bytes)
    requires |opening| == OPENING_BYTES && |page| == TX_BODY_WIRE_SIZE
    ensures Widths(HeadFields(head, opening, page), HEAD_WIDTHS)
  {
    hide Le, EncodeHeader;
    HeaderCanonical([], head.header);
    HeaderCanonical([], head.anchor);
    var front := FrontFields(head, opening, page);
    assert forall i :: 0 <= i < 6 ==> |front[i]| == FRONT_WIDTHS[i];
    var fields := HeadFields(head, opening, page);
    forall i | 0 <= i < 14 ensures |fields[i]| == HEAD_WIDTHS[i] {
      if i >= 6 { assert fields[i] == head.path[i - 6]; }
    }
  }

  lemma {:induction false} ShortRoundTrip(x: U16, b: Bytes)
    requires |b| == 2
    ensures Le(x, 2) == b <==> FromLe(b) == x
  {
    ShortSpan();
    LeThenFrom(x, 2);
    FromThenLe(b);
  }

  /** Field by field, reading is the inverse of writing. */
  lemma {:induction false} FieldsExact(rules: Rules, f: seq<Bytes>, head: Head)
    requires CanonicalOpening(rules) && CanonicalPage(rules) && Widths(f, HEAD_WIDTHS)
    ensures ParseFields(rules, f) == Some(head) <==>
            && rules.encodeOpening(head.opening) == Some(f[0]) && rules.encodePage(head.page) == Some(f[1])
            && HeadFields(head, f[0], f[1]) == f
  {
    hide Le, FromLe, Span, EncodeHeader, DecodeHeader;
    assert |f[4]| == HEAD_WIDTHS[4] == 2 && |f[5]| == HEAD_WIDTHS[5] == 2;
    HeaderCanonical(f[2], head.header);
    HeaderCanonical(f[3], head.anchor);
    ShortRoundTrip(head.txIndex, f[4]);
    ShortRoundTrip(head.txCount, f[5]);
    FieldsMatch(f, head);
  }

  lemma {:induction false} FieldsMatch(f: seq<Bytes>, head: Head)
    requires Widths(f, HEAD_WIDTHS)
    ensures HeadFields(head, f[0], f[1]) == f <==>
            && EncodeHeader(head.header) == f[2] && EncodeHeader(head.anchor) == f[3]
            && Le(head.txIndex, 2) == f[4] && Le(head.txCount, 2) == f[5] && PathFrom(f) == head.path
  {
    hide Le, EncodeHeader;
    var g := HeadFields(head, f[0], f[1]);
    assert g[6..] == head.path && g[..6] == FrontFields(head, f[0], f[1]);
    assert f == f[..6] + f[6..];
    if g == f {
      assert g[2] == f[2] && g[3] == f[3] && g[4] == f[4] && g[5] == f[5];
    }
  }

  lemma {:induction false} HeadExact(rules: Rules, bytes: Bytes, head: Head)
    requires CanonicalOpening(rules) && CanonicalPage(rules)
    ensures Encodable(rules, head) ==> |HeadBytes(rules, head)| == HEAD_BYTES
    ensures ParseHead(rules, bytes) == Some(head) <==> Encodable(rules, head) && bytes == HeadBytes(rules, head)
  {
    hide ParseFields, HeadFields, TakeAll, Concat, Sum;
    HeadWidthSum();
    TakenConcat(bytes, HEAD_WIDTHS);
    if Encodable(rules, head) {
      var opening, page := rules.encodeOpening(head.opening).value, rules.encodePage(head.page).value;
      var fields := HeadFields(head, opening, page);
      HeadFieldWidths(head, opening, page);
      ConcatTaken(fields, HEAD_WIDTHS, []);
      assert Concat(fields) + [] == Concat(fields);
      HeadFieldsStart(head, opening, page);
      FieldsExact(rules, fields, head);
    }
    match TakeAll(bytes, HEAD_WIDTHS) {
      case None =>
      case Some((fields, rest)) =>
        FieldsExact(rules, fields, head);
        ConcatTaken(fields, HEAD_WIDTHS, rest);
        if rest == [] { assert Concat(fields) + rest == Concat(fields); }
    }
  }

  lemma {:induction false} HeadFieldsStart(head: Head, opening: Bytes, page: Bytes)
    ensures |HeadFields(head, opening, page)| >= 2
    ensures HeadFields(head, opening, page)[0] == opening && HeadFields(head, opening, page)[1] == page
  {
  }

  // --------------------------------------------------------------- descendants

  function EncodeHeaders(headers: seq<BlockHeader>): Bytes {
    if headers == [] then [] else EncodeHeader(headers[0]) + EncodeHeaders(headers[1..])
  }

  function ParseHeaders(bytes: Bytes, count: nat): Option<seq<BlockHeader>>
    decreases count
  {
    if count == 0 then if bytes == [] then Some([]) else None
    else if |bytes| < HEADER_BYTES then None
    else
      match (DecodeHeader(bytes[..HEADER_BYTES]), ParseHeaders(bytes[HEADER_BYTES..], count - 1))
      case (Ok(header), Some(rest)) => Some([header] + rest)
      case _ => None
  }

  lemma {:induction false} HeadersLength(headers: seq<BlockHeader>)
    ensures |EncodeHeaders(headers)| == |headers| * HEADER_BYTES
  {
    hide EncodeHeader;
    if headers != [] {
      HeaderCanonical([], headers[0]);
      HeadersLength(headers[1..]);
    }
  }

  lemma {:induction false} HeadersExact(bytes: Bytes, headers: seq<BlockHeader>)
    ensures ParseHeaders(bytes, |headers|) == Some(headers) <==> bytes == EncodeHeaders(headers)
    decreases |headers|
  {
    hide EncodeHeader, DecodeHeader;
    if headers != [] {
      HeaderCanonical([], headers[0]);
      assert headers == [headers[0]] + headers[1..];
      if |bytes| >= HEADER_BYTES {
        var first, rest := bytes[..HEADER_BYTES], bytes[HEADER_BYTES..];
        HeaderCanonical(first, headers[0]);
        HeadersExact(rest, headers[1..]);
        assert bytes == first + rest;
        var code := EncodeHeaders(headers);
        assert code[..HEADER_BYTES] == EncodeHeader(headers[0]) && code[HEADER_BYTES..] == EncodeHeaders(headers[1..]);
      }
    }
  }

  // ------------------------------------------------------------------- framing

  function Marker(count: nat): Bytes {
    if count == 0 then MAGIC else DESCENDANT_MAGIC
  }

  /** Where the terminal starts. */
  function Prefix(count: nat): nat {
    FIXED_BYTES + if count == 0 then 0 else 2 + count * HEADER_BYTES
  }

  function CountField(count: nat): Bytes {
    if count == 0 then [] else Le(count, 2)
  }

  /** The descendant count of a well-framed receipt: marker, count, bounds and terminal length. */
  function Frame(bytes: Bytes): Option<nat> {
    if |bytes| <= FIXED_BYTES || |bytes| > MAX_RECEIPT_BYTES || !(MAGIC <= bytes || DESCENDANT_MAGIC <= bytes) then None
    else
      var extended := DESCENDANT_MAGIC <= bytes;
      var count := if extended then FromLe(bytes[FIXED_BYTES - 4..FIXED_BYTES - 2]) else 0;
      if extended && (count == 0 || count > MAX_RECEIPT_DESCENDANTS) then None
      else if |bytes| <= Prefix(count) then None
      else
        var len := FromLe(bytes[Prefix(count) - 4..Prefix(count)]);
        if len != |bytes| - Prefix(count) || len > MAX_TERMINAL_BYTES then None else Some(count)
  }

  function Layout(head: Bytes, headers: seq<BlockHeader>, terminal: Bytes): Bytes {
    Marker(|headers|) + head + CountField(|headers|) + EncodeHeaders(headers) + Le(|terminal|, 4) + terminal
  }

  /** The three variable parts a frame leaves. */
  function HeadSlice(bytes: Bytes): Bytes
    requires Frame(bytes).Some?
  {
    bytes[8..FIXED_BYTES - 4]
  }

  function HeaderSlice(bytes: Bytes): Bytes
    requires Frame(bytes).Some?
  {
    var count := Frame(bytes).value;
    if count == 0 then [] else bytes[FIXED_BYTES - 2..Prefix(count) - 4]
  }

  function TerminalSlice(bytes: Bytes): Bytes
    requires Frame(bytes).Some?
  {
    bytes[Prefix(Frame(bytes).value)..]
  }

  lemma {:induction false} TerminalWord(len: nat, b: Bytes)
    requires |b| == 4 && len <= MAX_TERMINAL_BYTES
    ensures Le(len, 4) == b <==> FromLe(b) == len
  {
    Spans();
    LeThenFrom(len, 4);
    FromThenLe(b);
  }

  lemma {:induction false} FrameSays(bytes: Bytes, count: nat)
    requires Frame(bytes) == Some(count)
    ensures count <= MAX_RECEIPT_DESCENDANTS && Prefix(count) < |bytes| <= Prefix(count) + MAX_TERMINAL_BYTES
    ensures bytes[..8] == Marker(count)
    ensures count != 0 ==> bytes[FIXED_BYTES - 4..FIXED_BYTES - 2] == Le(count, 2)
    ensures bytes[Prefix(count) - 4..Prefix(count)] == Le(|bytes| - Prefix(count), 4)
  {
    hide FromLe, Le;
    var end := Prefix(count);
    TerminalWord(|bytes| - end, bytes[end - 4..end]);
    if count != 0 { ShortRoundTrip(count, bytes[FIXED_BYTES - 4..FIXED_BYTES - 2]); }
  }

  lemma {:induction false} Cut(bytes: Bytes, a: nat, b: nat, c: nat, d: nat, e: nat)
    requires a <= b <= c <= d <= e <= |bytes|
    ensures bytes == bytes[..a] + bytes[a..b] + bytes[b..c] + bytes[c..d] + bytes[d..e] + bytes[e..]
  {
  }

  lemma {:induction false} CutIsLayout(bytes: Bytes, p: nat, q: nat, r: nat, t: nat, headers: seq<BlockHeader>)
    requires 8 <= p <= q <= r <= t <= |bytes|
    requires bytes[..8] == Marker(|headers|) && bytes[p..q] == CountField(|headers|)
    requires bytes[q..r] == EncodeHeaders(headers) && bytes[r..t] == Le(|bytes| - t, 4)
    ensures bytes == Layout(bytes[8..p], headers, bytes[t..])
  {
    hide Marker, CountField, EncodeHeaders, Le;
    Cut(bytes, 8, p, q, r, t);
  }

  /** A well-framed string is the layout of its parts. */
  lemma {:induction false} FrameIsLayout(bytes: Bytes, headers: seq<BlockHeader>)
    requires Frame(bytes) == Some(|headers|) && HeaderSlice(bytes) == EncodeHeaders(headers)
    ensures bytes == Layout(HeadSlice(bytes), headers, TerminalSlice(bytes))
    ensures |HeadSlice(bytes)| == HEAD_BYTES && |headers| <= 42 && 1 <= |TerminalSlice(bytes)| <= 1_100_000
  {
    hide Le, FromLe, EncodeHeaders, Frame, Marker, Layout;
    var count := |headers|;
    FrameSays(bytes, count);
    if count == 0 {
      NoHeaders();
      CutIsLayout(bytes, FIXED_BYTES - 4, FIXED_BYTES - 4, FIXED_BYTES - 4, FIXED_BYTES, headers);
    } else {
      var end := Prefix(count);
      CutIsLayout(bytes, FIXED_BYTES - 4, FIXED_BYTES - 2, end - 4, end, headers);
    }
  }

  lemma {:induction false} LayoutLength(head: Bytes, headers: seq<BlockHeader>, terminal: Bytes)
    requires |head| == HEAD_BYTES
    ensures |Layout(head, headers, terminal)| == Prefix(|headers|) + |terminal|
  {
    hide Le, EncodeHeaders;
    HeadersLength(headers);
  }

  /** The positions at which the reader looks are where the writer put the parts. */
  lemma {:induction false} LayoutSlices(head: Bytes, headers: seq<BlockHeader>, terminal: Bytes)
    requires |head| == HEAD_BYTES
    ensures var bytes, end := Layout(head, headers, terminal), Prefix(|headers|);
            && |bytes| == end + |terminal|
            && bytes[..8] == Marker(|headers|)
            && bytes[8..FIXED_BYTES - 4] == head
            && bytes[end - 4..end] == Le(|terminal|, 4)
            && bytes[end..] == terminal
            && (headers != [] ==> bytes[FIXED_BYTES - 4..FIXED_BYTES - 2] == Le(|headers|, 2)
                                  && bytes[FIXED_BYTES - 2..end - 4] == EncodeHeaders(headers))
  {
    hide Le, EncodeHeaders;
    LayoutLength(head, headers, terminal);
    HeadersLength(headers);
  }

  lemma {:induction false} MarkerTells(bytes: Bytes, count: nat)
    requires |bytes| >= 8 && bytes[..8] == Marker(count)
    ensures DESCENDANT_MAGIC <= bytes <==> count != 0
    ensures MAGIC <= bytes <==> count == 0
  {
    assert bytes[..8][7] == bytes[7] && MAGIC[7] != DESCENDANT_MAGIC[7];
  }

  lemma {:induction false} FrameFrom(bytes: Bytes, count: nat, len: nat)
    requires count <= MAX_RECEIPT_DESCENDANTS && 1 <= len <= MAX_TERMINAL_BYTES && |bytes| == Prefix(count) + len
    requires bytes[..8] == Marker(count)
    requires count != 0 ==> FromLe(bytes[FIXED_BYTES - 4..FIXED_BYTES - 2]) == count
    requires FromLe(bytes[Prefix(count) - 4..Prefix(count)]) == len
    ensures Frame(bytes) == Some(count)
  {
    hide FromLe, Marker;
    MarkerTells(bytes, count);
  }

  lemma {:induction false} LayoutFrame(head: Bytes, headers: seq<BlockHeader>, terminal: Bytes)
    requires |head| == HEAD_BYTES && |headers| <= 42 && 1 <= |terminal| <= 1_100_000
    ensures Frame(Layout(head, headers, terminal)) == Some(|headers|)
  {
    hide Le, FromLe, EncodeHeaders, Layout, Frame, Marker;
    var bytes, end := Layout(head, headers, terminal), Prefix(|headers|);
    LayoutSlices(head, headers, terminal);
    TerminalWord(|terminal|, bytes[end - 4..end]);
    if headers != [] { ShortRoundTrip(|headers|, bytes[FIXED_BYTES - 4..FIXED_BYTES - 2]); }
    FrameFrom(bytes, |headers|, |terminal|);
  }

  /** Every layout is well framed, and the frame leaves its parts. */
  lemma {:induction false} LayoutFrames(head: Bytes, headers: seq<BlockHeader>, terminal: Bytes)
    requires |head| == HEAD_BYTES && |headers| <= 42 && 1 <= |terminal| <= 1_100_000
    ensures var bytes := Layout(head, headers, terminal);
            && Frame(bytes) == Some(|headers|)
            && HeadSlice(bytes) == head && HeaderSlice(bytes) == EncodeHeaders(headers)
            && TerminalSlice(bytes) == terminal
  {
    hide Le, EncodeHeaders, Layout, Frame, Marker;
    LayoutFrame(head, headers, terminal);
    LayoutSlices(head, headers, terminal);
    NoHeaders();
  }

  lemma {:induction false} NoHeaders()
    ensures EncodeHeaders([]) == []
  {
  }

  /** No well-framed string is a proper prefix of another. */
  lemma {:induction false} FramesPrefixFree(a: Bytes, b: Bytes)
    requires Frame(a).Some? && Frame(b).Some? && a <= b
    ensures a == b
  {
    hide FromLe;
    var count, end := Frame(a).value, Prefix(Frame(a).value);
    assert a[7] == b[7] && MAGIC[7] != DESCENDANT_MAGIC[7];
    assert a[FIXED_BYTES - 4..FIXED_BYTES - 2] == b[FIXED_BYTES - 4..FIXED_BYTES - 2];
    assert Frame(b).value == count;
    assert a[end - 4..end] == b[end - 4..end];
  }

  // ------------------------------------------------------------------ receipts

  ghost predicate Encodes(rules: Rules, r: ObjectTransitionReceipt, bytes: Bytes) {
    && Accepted(rules, r) && Encodable(rules, HeadOf(r))
    && bytes == Layout(HeadBytes(rules, HeadOf(r)), r.descendants, r.terminal)
  }

  function Assemble(head: Head, headers: seq<BlockHeader>, terminal: Bytes): ObjectTransitionReceipt {
    ObjectTransitionReceipt(head.opening, head.page, head.header, head.anchor, head.txIndex, head.txCount, head.path,
                            headers, terminal)
  }

  ghost function Parse(rules: Rules, bytes: Bytes): Option<ObjectTransitionReceipt> {
    match Frame(bytes)
    case None => None
    case Some(count) =>
      match (ParseHead(rules, HeadSlice(bytes)), ParseHeaders(HeaderSlice(bytes), count))
      case (Some(head), Some(headers)) =>
        var r := Assemble(head, headers, TerminalSlice(bytes));
        if Accepted(rules, r) then Some(r) else None
      case _ => None
  }

  lemma {:induction false} ParseHeadersCount(bytes: Bytes, count: nat)
    ensures ParseHeaders(bytes, count).Some? ==> |ParseHeaders(bytes, count).value| == count
    decreases count
  {
    hide DecodeHeader;
    if count > 0 && |bytes| >= HEADER_BYTES { ParseHeadersCount(bytes[HEADER_BYTES..], count - 1); }
  }

  lemma {:induction false} EncodedParses(rules: Rules, r: ObjectTransitionReceipt, bytes: Bytes)
    requires CanonicalOpening(rules) && CanonicalPage(rules) && Encodes(rules, r, bytes)
    ensures Parse(rules, bytes) == Some(r)
  {
    hide Accepted, Frame, HeadSlice, HeaderSlice, TerminalSlice, Layout, ParseHead, ParseHeaders, EncodeHeaders,
         HeadBytes;
    assert SizeHolds(rules, r) by { AcceptedSize(rules, r); }
    var head := HeadBytes(rules, HeadOf(r));
    HeadExact(rules, head, HeadOf(r));
    LayoutFrames(head, r.descendants, r.terminal);
    HeadersExact(EncodeHeaders(r.descendants), r.descendants);
  }

  lemma {:induction false} AcceptedSize(rules: Rules, r: ObjectTransitionReceipt)
    requires Accepted(rules, r)
    ensures SizeHolds(rules, r)
  {
  }

  lemma {:induction false} ParsedEncodes(rules: Rules, bytes: Bytes)
    requires CanonicalOpening(rules) && CanonicalPage(rules) && Parse(rules, bytes).Some?
    ensures Encodes(rules, Parse(rules, bytes).value, bytes)
  {
    hide Accepted, Frame, HeadSlice, HeaderSlice, TerminalSlice, Layout, ParseHead, ParseHeaders, EncodeHeaders,
         HeadBytes;
    var r := Parse(rules, bytes).value;
    ParseHeadersCount(HeaderSlice(bytes), Frame(bytes).value);
    HeadersExact(HeaderSlice(bytes), r.descendants);
    HeadExact(rules, HeadSlice(bytes), HeadOf(r));
    FrameIsLayout(bytes, r.descendants);
  }

  /** Reading and writing undo each other in both layouts. */
  lemma {:induction false} ParseExact(rules: Rules, r: ObjectTransitionReceipt, bytes: Bytes)
    requires CanonicalOpening(rules) && CanonicalPage(rules)
    ensures Parse(rules, bytes) == Some(r) <==> Encodes(rules, r, bytes)
  {
    hide Parse, Encodes;
    if Encodes(rules, r, bytes) { EncodedParses(rules, r, bytes); }
    if Parse(rules, bytes) == Some(r) { ParsedEncodes(rules, bytes); }
  }

  lemma {:induction false} HeadOffsets()
    ensures Sum(HEAD_WIDTHS[..0]) == 0 && Sum(HEAD_WIDTHS[..1]) == 699 && Sum(HEAD_WIDTHS[..2]) == 1022
    ensures Sum(HEAD_WIDTHS[..3]) == 1234 && Sum(HEAD_WIDTHS[..4]) == 1446 && Sum(HEAD_WIDTHS[..5]) == 1448
    ensures Sum(HEAD_WIDTHS[..6]) == 1450
  {
    hide Sum;
    NoWidths();
    assert HEAD_WIDTHS[..0] == [];
    NextOffset(HEAD_WIDTHS, 0);
    NextOffset(HEAD_WIDTHS, 1);
    NextOffset(HEAD_WIDTHS, 2);
    NextOffset(HEAD_WIDTHS, 3);
    NextOffset(HEAD_WIDTHS, 4);
    NextOffset(HEAD_WIDTHS, 5);
  }

  lemma {:induction false} PathOffset(k: nat)
    requires k < 8
    ensures Sum(HEAD_WIDTHS[..6 + k]) == 1450 + 32 * k && HEAD_WIDTHS[6 + k] == 32
  {
    hide Sum;
    HeadOffsets();
    assert HEAD_WIDTHS[6 + k] == PATH_WIDTHS[k];
    if k > 0 {
      PathOffset(k - 1);
      NextOffset(HEAD_WIDTHS, 5 + k);
    }
  }

  /** Where every part of the fixed part stands. */
  lemma {:induction false} HeadLayout(rules: Rules, head: Head)
    requires CanonicalOpening(rules) && CanonicalPage(rules) && Encodable(rules, head)
    ensures |HeadBytes(rules, head)| == 1706
    ensures Some(HeadBytes(rules, head)[0..699]) == rules.encodeOpening(head.opening)
    ensures Some(HeadBytes(rules, head)[699..1022]) == rules.encodePage(head.page)
    ensures HeadBytes(rules, head)[1022..1234] == EncodeHeader(head.header)
    ensures HeadBytes(rules, head)[1234..1446] == EncodeHeader(head.anchor)
    ensures HeadBytes(rules, head)[1446..1448] == Le(head.txIndex, 2)
    ensures HeadBytes(rules, head)[1448..1450] == Le(head.txCount, 2)
    ensures forall k: nat :: k < 8 ==> HeadBytes(rules, head)[1450 + 32 * k..1482 + 32 * k] == head.path[k]
  {
    hide Le, Concat, Sum, TakeAll, EncodeHeader, CanonicalOpening, CanonicalPage, Widths;
    HeadExact(rules, [], head);
    HeadOffsets();
    var opening, page := rules.encodeOpening(head.opening).value, rules.encodePage(head.page).value;
    CodecWidths(rules, head);
    HeadFieldWidths(head, opening, page);
    var fields := HeadFields(head, opening, page);
    FieldAt(fields, HEAD_WIDTHS, 0, 0, 699);
    FieldAt(fields, HEAD_WIDTHS, 1, 699, 1022);
    FieldAt(fields, HEAD_WIDTHS, 2, 1022, 1234);
    FieldAt(fields, HEAD_WIDTHS, 3, 1234, 1446);
    FieldAt(fields, HEAD_WIDTHS, 4, 1446, 1448);
    FieldAt(fields, HEAD_WIDTHS, 5, 1448, 1450);
    forall k: nat | k < 8 ensures Concat(fields)[1450 + 32 * k..1482 + 32 * k] == head.path[k] {
      PathOffset(k);
      FieldAt(fields, HEAD_WIDTHS, 6 + k, 1450 + 32 * k, 1482 + 32 * k);
      assert fields[6 + k] == head.path[k];
    }
  }

  lemma {:induction false} CodecWidths(rules: Rules, head: Head)
    requires CanonicalOpening(rules) && CanonicalPage(rules) && Encodable(rules, head)
    ensures |rules.encodeOpening(head.opening).value| == 699 && |rules.encodePage(head.page).value| == 323
  {
  }

  /** Where every part of a receipt stands, in both layouts. */
  lemma {:induction false} ReceiptLayout(rules: Rules, r: ObjectTransitionReceipt, bytes: Bytes)
    requires CanonicalOpening(rules) && CanonicalPage(rules) && Encodes(rules, r, bytes)
    ensures var d := |r.descendants|;
            var end := if d == 0 then 1718 else 1720 + 212 * d;
            && |bytes| == end + |r.terminal|
            && bytes[..8] == [0x4f, 0x31, 0x4f, 0x42, 0x4a, 0x52, 0x43, if d == 0 then 0x34 else 0x35]
            && bytes[8..1714] == HeadBytes(rules, HeadOf(r))
            && bytes[end - 4..end] == Le(|r.terminal|, 4) && bytes[end..] == r.terminal
            && (d > 0 ==> bytes[1714..1716] == Le(d, 2))
    ensures HeadOf(r) == Head(r.opening, r.page, r.header, r.epochAnchorHeader, r.txIndex, r.txCount, r.path)
  {
    hide Le, EncodeHeaders, EncodeHeader, HeadBytes, Layout, Accepted, CanonicalOpening, CanonicalPage;
    HeadExact(rules, [], HeadOf(r));
    LayoutSlices(HeadBytes(rules, HeadOf(r)), r.descendants, r.terminal);
  }

  lemma {:induction false} DescendantLayout(rules: Rules, r: ObjectTransitionReceipt, bytes: Bytes, i: nat)
    requires CanonicalOpening(rules) && CanonicalPage(rules) && Encodes(rules, r, bytes) && i < |r.descendants|
    ensures 1928 + 212 * i <= |bytes|
    ensures bytes[1716 + 212 * i..1928 + 212 * i] == EncodeHeader(r.descendants[i])
  {
    hide Le, EncodeHeaders, EncodeHeader, HeadBytes, Layout, Accepted, CanonicalOpening, CanonicalPage;
    HeadExact(rules, [], HeadOf(r));
    LayoutSlices(HeadBytes(rules, HeadOf(r)), r.descendants, r.terminal);
    DescendantAt(bytes, r.descendants, i);
  }

  lemma {:induction false} DescendantAt(bytes: Bytes, headers: seq<BlockHeader>, i: nat)
    requires i < |headers| && 1716 + 212 * |headers| <= |bytes|
    requires bytes[1716..1716 + 212 * |headers|] == EncodeHeaders(headers)
    ensures bytes[1716 + 212 * i..1928 + 212 * i] == EncodeHeader(headers[i])
  {
    hide EncodeHeader, EncodeHeaders;
    HeadersAt(headers, i);
    SliceOfSlice(bytes, 1716, 1716 + 212 * |headers|, 212 * i, 212 * i + 212);
  }

  lemma {:induction false} HeadersAt(headers: seq<BlockHeader>, i: nat)
    requires i < |headers|
    ensures |EncodeHeaders(headers)| == 212 * |headers|
    ensures EncodeHeaders(headers)[212 * i..212 * i + 212] == EncodeHeader(headers[i])
    decreases i
  {
    hide EncodeHeader;
    HeaderCanonical([], headers[0]);
    HeadersLength(headers[1..]);
    var first, rest := EncodeHeader(headers[0]), EncodeHeaders(headers[1..]);
    if i > 0 {
      HeadersAt(headers[1..], i - 1);
      assert (first + rest)[212 * i..212 * i + 212] == rest[212 * (i - 1)..212 * (i - 1) + 212];
    } else {
      assert (first + rest)[0..212] == first;
    }
  }

  /** No accepted string is a proper prefix of another accepted string, whatever they decode to. */
  lemma {:induction false} AcceptedPrefixFree(rules: Rules, a: Bytes, b: Bytes)
    requires Parse(rules, a).Some? && Parse(rules, b).Some? && a <= b
    ensures a == b
  {
    hide Frame, ParseHead, ParseHeaders, HeadSlice, HeaderSlice, TerminalSlice, Accepted;
    FramesPrefixFree(a, b);
  }
}
