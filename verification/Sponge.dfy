/** The hash sponge: 32-byte rate blocks, fed in chunks of any size. The permutation
    is a parameter; everything proved here is about which blocks reach it. */
module Sponge {
  import opened Wire

  const RATE_BYTES: nat := 32
  const PADDING_START: Byte := 0x80
  const PADDING_END: Byte := 0x01

  type State(==, 0, !new)

  datatype Permutation = Permutation(step: (State, Bytes) -> State, squeeze: State -> Digest)

  /** Add one block to the rate lanes and permute. */
  function Step(p: Permutation, s: State, block: Bytes): State {
    p.step(s, block)
  }

  // ---------------------------------------------------------- streams of blocks

  function Absorbed(p: Permutation, s: State, stream: Bytes): State
    decreases |stream|
  {
    if |stream| < RATE_BYTES then s
    else Absorbed(p, Step(p, s, stream[..RATE_BYTES]), stream[RATE_BYTES..])
  }

  /** The bytes behind the last whole block. */
  function Tail(stream: Bytes): (tail: Bytes)
    ensures |tail| < RATE_BYTES
  {
    if |stream| < RATE_BYTES then stream else Tail(stream[RATE_BYTES..])
  }

  lemma {:induction false} AbsorbAppend(p: Permutation, s: State, stream: Bytes, data: Bytes)
    ensures Absorbed(p, s, stream + data) == Absorbed(p, Absorbed(p, s, stream), Tail(stream) + data)
    ensures Tail(stream + data) == Tail(Tail(stream) + data)
    decreases |stream|
  {
    hide Step;
    if |stream| >= RATE_BYTES {
      AbsorbAppend(p, Step(p, s, stream[..RATE_BYTES]), stream[RATE_BYTES..], data);
      assert (stream + data)[..RATE_BYTES] == stream[..RATE_BYTES];
      assert (stream + data)[RATE_BYTES..] == stream[RATE_BYTES..] + data;
    }
  }

  lemma {:induction false} AbsorbBlock(p: Permutation, s: State, block: Bytes, rest: Bytes)
    requires |block| == RATE_BYTES
    ensures Absorbed(p, s, block + rest) == Absorbed(p, Step(p, s, block), rest)
    ensures Tail(block + rest) == Tail(rest)
  {
    assert (block + rest)[..RATE_BYTES] == block;
    assert (block + rest)[RATE_BYTES..] == rest;
  }

  // ------------------------------------------------------------------- padding

  function Padding(n: nat): (padding: Bytes)
    requires n >= 1
    ensures |padding| == n
    ensures padding[0] >= PADDING_START && forall i :: 1 <= i < n ==> padding[i] <= PADDING_END
  {
    if n == 1 then [PADDING_START + PADDING_END]
    else [PADDING_START] + seq(n - 2, _ => 0) + [PADDING_END]
  }

  function Padded(stream: Bytes): Bytes {
    stream + Padding(RATE_BYTES - |Tail(stream)|)
  }

  function Hash(p: Permutation, iv: State, stream: Bytes): Digest {
    p.squeeze(Absorbed(p, iv, Padded(stream)))
  }

  lemma {:induction false} TailLength(stream: Bytes)
    ensures |Tail(stream)| == |stream| % RATE_BYTES
  {
    if |stream| >= RATE_BYTES { TailLength(stream[RATE_BYTES..]); }
  }

  lemma {:induction false} PaddedLonger(a: Bytes, b: Bytes)
    requires |a| < |b| && |Padded(a)| == |Padded(b)|
    ensures Padded(a)[|b|] < Padded(b)[|b|]
  {
    hide Tail, Padding;
    var n := RATE_BYTES - |Tail(a)|;
    assert Padded(a)[|b|] == Padding(n)[|b| - |a|];
    assert Padded(b)[|b|] == Padding(RATE_BYTES - |Tail(b)|)[0];
  }

  /** Different streams reach the permutation as different blocks. */
  lemma {:induction false} PaddedInjective(a: Bytes, b: Bytes)
    ensures Padded(a) == Padded(b) <==> a == b
    ensures |Padded(a)| % RATE_BYTES == 0
  {
    TailLength(a);
    hide Tail, Padding;
    if Padded(a) == Padded(b) {
      if |a| < |b| {
        PaddedLonger(a, b);
      } else if |b| < |a| {
        PaddedLonger(b, a);
      } else {
        assert a == Padded(a)[..|a|];
        assert b == Padded(b)[..|b|];
      }
    }
  }

  /** The padding written out: to the next multiple of 32 bytes, a set high bit, zeros and a set low bit, the two
      falling together when a single byte is free. */
  lemma {:induction false} PaddedIs(stream: Bytes)
    ensures Padded(stream) == stream + if |stream| % 32 == 31 then [0x81]
                                       else [0x80] + seq(30 - |stream| % 32, _ => 0) + [0x01]
  {
    hide Tail;
    TailLength(stream);
  }

  /** Two different runs of whole blocks that squeeze to one digest. */
  ghost predicate Collision(p: Permutation, iv: State, a: Bytes, b: Bytes) {
    a != b && p.squeeze(Absorbed(p, iv, a)) == p.squeeze(Absorbed(p, iv, b))
  }

  lemma {:induction false} HashBinds(p: Permutation, iv: State, a: Bytes, b: Bytes)
    requires Hash(p, iv, a) == Hash(p, iv, b)
    ensures a == b || Collision(p, iv, Padded(a), Padded(b))
  {
    hide Padded, Absorbed;
    PaddedInjective(a, b);
  }

  // ------------------------------------------------------------------ the object

  class Poseidon2bSponge {
    const permutation: Permutation
    ghost const iv: State
    var state: State
    const buffer: array<Byte>
    var filled: nat
    ghost var absorbed: Bytes

    ghost predicate Valid()
      reads this, buffer
    {
      && buffer.Length == RATE_BYTES
      && filled < RATE_BYTES
      && state == Absorbed(permutation, iv, absorbed)
      && buffer[..filled] == Tail(absorbed)
    }

    constructor WithIv(permutation: Permutation, iv: State)
      ensures Valid() && fresh(buffer)
      ensures this.permutation == permutation && this.iv == iv && absorbed == []
    {
      this.permutation := permutation;
      this.iv := iv;
      state := iv;
      buffer := new Byte[RATE_BYTES](_ => 0);
      filled := 0;
      absorbed := [];
    }

    /** Overwrite part of the buffer. */
    method Fill(at: nat, bytes: Bytes)
      requires at + |bytes| <= buffer.Length
      modifies buffer
      ensures buffer[..at + |bytes|] == old(buffer[..at]) + bytes
    {
      forall i | 0 <= i < |bytes| {
        buffer[at + i] := bytes[i];
      }
    }

    method PermuteBuffer()
      requires buffer.Length == RATE_BYTES
      modifies `state
      ensures state == Step(permutation, old(state), buffer[..])
    {
      state := Step(permutation, state, buffer[..]);
    }

    /** However a stream is cut into chunks, the sponge ends in the same state. */
    method Update(data: Bytes)
      requires Valid()
      modifies this, buffer
      ensures Valid() && absorbed == old(absorbed) + data
    {
      hide Step, Tail, Absorbed;
      ghost var all := buffer[..filled] + data;
      AbsorbAppend(permutation, iv, absorbed, data);
      absorbed := absorbed + data;
      var rest := data;
      if filled != 0 {
        var n := if |data| < RATE_BYTES - filled then |data| else RATE_BYTES - filled;
        Fill(filled, data[..n]);
        rest := data[n..];
        filled := filled + n;
        assert buffer[..filled] + rest == all by { assert data == data[..n] + data[n..]; }
        if filled == RATE_BYTES {
          AbsorbBlock(permutation, state, buffer[..], rest);
          assert buffer[..filled] == buffer[..];
          PermuteBuffer();
          filled := 0;
          assert buffer[..filled] + rest == rest;
        }
      }
      Chunks(rest);
    }

    /** Whole blocks straight from the input, then the remainder into the buffer. */
    method Chunks(data: Bytes)
      requires buffer.Length == RATE_BYTES && filled < RATE_BYTES && (filled != 0 ==> data == [])
      requires Absorbed(permutation, state, buffer[..filled] + data) == Absorbed(permutation, iv, absorbed)
      requires Tail(buffer[..filled] + data) == Tail(absorbed)
      modifies `state, `filled, buffer
      ensures Valid()
    {
      hide Step, Tail, Absorbed;
      var rest := data;
      assert filled == 0 ==> buffer[..filled] + rest == rest;
      while |rest| >= RATE_BYTES
        invariant filled != 0 ==> rest == []
        invariant filled == 0 ==> Absorbed(permutation, state, rest) == Absorbed(permutation, iv, absorbed)
        invariant filled == 0 ==> Tail(rest) == Tail(absorbed)
        invariant filled == old(filled)
        invariant (filled != 0 ==> state == old(state) && buffer[..filled] == old(buffer[..filled]))
      {
        Fill(0, rest[..RATE_BYTES]);
        assert buffer[..] == rest[..RATE_BYTES];
        assert rest == rest[..RATE_BYTES] + rest[RATE_BYTES..];
        AbsorbBlock(permutation, state, buffer[..], rest[RATE_BYTES..]);
        PermuteBuffer();
        rest := rest[RATE_BYTES..];
      }
      if rest != [] {
        Fill(0, rest);
        filled := |rest|;
        Short(permutation, state, rest);
        assert buffer[..filled] == rest;
      } else {
        Short(permutation, state, buffer[..filled]);
        assert filled == 0 ==> buffer[..filled] == [];
        assert filled != 0 ==> buffer[..filled] + data == buffer[..filled];
      }
    }

    /** The digest is that of everything absorbed, padded. */
    method Finalize() returns (digest: Digest)
      requires Valid()
      modifies this, buffer
      ensures digest == Hash(permutation, iv, old(absorbed))
    {
      hide Step, Tail, Absorbed;
      ghost var was := buffer[..filled];
      FillPadding(filled);
      ghost var padding := Padding(RATE_BYTES - filled);
      assert buffer[..] == was + padding;
      AbsorbAppend(permutation, iv, absorbed, padding);
      AbsorbBlock(permutation, state, was + padding, []);
      assert was + padding + [] == was + padding;
      Short(permutation, Step(permutation, state, was + padding), []);
      PermuteBuffer();
      digest := permutation.squeeze(state);
    }

    method FillPadding(at: nat)
      requires at < buffer.Length
      modifies buffer
      ensures buffer[..] == old(buffer[..at]) + Padding(buffer.Length - at)
    {
      forall i | at <= i < buffer.Length {
        buffer[i] := 0;
      }
      buffer[at] := PADDING_START;
      buffer[buffer.Length - 1] := buffer[buffer.Length - 1] + PADDING_END;
    }
  }

  lemma {:induction false} Short(p: Permutation, s: State, stream: Bytes)
    requires |stream| < RATE_BYTES
    ensures Absorbed(p, s, stream) == s && Tail(stream) == stream
  {
  }

  // ---------------------------------------------------------------- byte slices

  /** Pieces that fit the eight-byte length prefix. */
  type Piece = b: Bytes | |b| < 0x1_0000_0000_0000_0000

  function Framed(piece: Piece): Bytes {
    Le(|piece|, 8) + piece
  }

  function FramedAll(pieces: seq<Piece>): Bytes {
    if pieces == [] then [] else Framed(pieces[0]) + FramedAll(pieces[1..])
  }

  function SlicesStream(domain: Piece, pieces: seq<Piece>): Bytes {
    Framed(domain) + Le(|pieces|, 8) + FramedAll(pieces)
  }

  lemma {:induction false} FramedInjective(a: Piece, x: Bytes, b: Piece, y: Bytes)
    requires Framed(a) + x == Framed(b) + y
    ensures a == b && x == y
  {
    hide Le;
    WordInjective(|a|, |b|, a + x, b + y);
    assert Framed(a) + x == Le(|a|, 8) + (a + x);
    assert Framed(b) + y == Le(|b|, 8) + (b + y);
    assert a == (a + x)[..|a|] && x == (a + x)[|a|..];
    assert b == (b + y)[..|b|] && y == (b + y)[|b|..];
  }

  lemma {:induction false} WordInjective(a: nat, b: nat, x: Bytes, y: Bytes)
    requires a < 0x1_0000_0000_0000_0000 && b < 0x1_0000_0000_0000_0000
    ensures Le(a, 8) + x == Le(b, 8) + y ==> a == b && x == y
  {
    hide Le, FromLe, Span;
    Spans();
    LeThenFrom(a, 8);
    LeThenFrom(b, 8);
    assert (Le(a, 8) + x)[..8] == Le(a, 8) && (Le(a, 8) + x)[8..] == x;
    assert (Le(b, 8) + y)[..8] == Le(b, 8) && (Le(b, 8) + y)[8..] == y;
  }

  lemma {:induction false} FramedAllInjective(a: seq<Piece>, b: seq<Piece>)
    requires |a| == |b| && FramedAll(a) == FramedAll(b)
    ensures a == b
  {
    hide Framed;
    if a != [] {
      FramedInjective(a[0], FramedAll(a[1..]), b[0], FramedAll(b[1..]));
      FramedAllInjective(a[1..], b[1..]);
      assert a == [a[0]] + a[1..] && b == [b[0]] + b[1..];
    }
  }

  /** Where one slice ends and the next begins is part of what is hashed. */
  lemma {:induction false} SlicesInjective(domain: Piece, pieces: seq<Piece>, domain': Piece, pieces': seq<Piece>)
    requires |pieces| < 0x1_0000_0000_0000_0000 && |pieces'| < 0x1_0000_0000_0000_0000
    requires SlicesStream(domain, pieces) == SlicesStream(domain', pieces')
    ensures domain == domain' && pieces == pieces'
  {
    hide Framed, FramedAll, Le;
    var x, y := Le(|pieces|, 8) + FramedAll(pieces), Le(|pieces'|, 8) + FramedAll(pieces');
    assert SlicesStream(domain, pieces) == Framed(domain) + x;
    assert SlicesStream(domain', pieces') == Framed(domain') + y;
    FramedInjective(domain, x, domain', y);
    WordInjective(|pieces|, |pieces'|, FramedAll(pieces), FramedAll(pieces'));
    FramedAllInjective(pieces, pieces');
  }

  method AbsorbFramed(s: Poseidon2bSponge, piece: Piece)
    requires s.Valid()
    modifies s, s.buffer
    ensures s.Valid() && s.absorbed == old(s.absorbed) + Framed(piece)
  {
    hide Le, Tail, Absorbed;
    s.Update(Le(|piece|, 8));
    s.Update(piece);
  }

  method HashByteSlices(permutation: Permutation, iv: State, domain: Piece, pieces: seq<Piece>) returns (digest: Digest)
    ensures digest == Hash(permutation, iv, SlicesStream(domain, pieces))
  {
    hide Hash, Le, Framed, FramedAll, Absorbed, Tail;
    var s := new Poseidon2bSponge.WithIv(permutation, iv);
    AbsorbFramed(s, domain);
    s.Update(Le(|pieces|, 8));
    ghost var head := Framed(domain) + Le(|pieces|, 8);
    FramedNothing();
    assert pieces[..0] == [];
    for i := 0 to |pieces|
      invariant s.Valid() && fresh(s.buffer)
      invariant s.absorbed == head + FramedAll(pieces[..i])
    {
      AbsorbFramed(s, pieces[i]);
      FramedAllSnoc(pieces[..i], pieces[i]);
      assert pieces[..i + 1] == pieces[..i] + [pieces[i]];
    }
    assert pieces[..|pieces|] == pieces;
    digest := s.Finalize();
  }

  lemma {:induction false} FramedNothing()
    ensures FramedAll([]) == []
  {
  }

  lemma {:induction false} FramedAllSnoc(pieces: seq<Piece>, last: Piece)
    ensures FramedAll(pieces + [last]) == FramedAll(pieces) + Framed(last)
  {
    hide Framed;
    if pieces == [] {
      assert FramedAll([]) + Framed(last) == Framed(last);
      assert [last][1..] == [];
    } else {
      FramedAllSnoc(pieces[1..], last);
      assert (pieces + [last])[1..] == pieces[1..] + [last];
    }
  }
}
