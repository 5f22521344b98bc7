/** Block identity: the fields a header feeds to the sponge, and why no two headers
    feed it alike. */
module HeaderIdentity {
  import opened Wire
  import opened HeaderWire
  import opened Sponge

  // ------------------------------------------------------------------ schedules

  /** A sixteen-byte lane, as the sponge serialises it. */
  function Lane(x: U128): Bytes {
    Le(x, 16)
  }

  const HASH_WIDTHS: seq<nat> := [32, 32, 32, 16, 16, 32, 16, 32, 16, 16, 16]
  const SEMANTIC_WIDTHS: seq<nat> := [32, 32, 32, 16, 16, 32, 32, 16, 16, 16]

  ghost function HashFields(h: BlockHeader): seq<Bytes> {
    [h.prevBlockHash, h.stateRoot, h.txRoot, Lane(h.timestamp), Lane(h.height), h.minerAddress, Lane(h.nonce),
     h.difficultyTarget, Lane(h.logSlots), Lane(h.activeSlotCount), Lane(h.allocCounter)]
  }

  ghost function SemanticFields(h: BlockHeader): seq<Bytes> {
    [h.prevBlockHash, h.stateRoot, h.txRoot, Lane(h.timestamp), Lane(h.height), h.minerAddress,
     h.difficultyTarget, Lane(h.logSlots), Lane(h.activeSlotCount), Lane(h.allocCounter)]
  }

  ghost function HashStream(h: BlockHeader): Bytes {
    Concat(HashFields(h))
  }

  ghost function SemanticStream(h: BlockHeader): Bytes {
    Concat(SemanticFields(h))
  }

  lemma {:induction false} LaneInjective(x: U128, y: U128)
    ensures Lane(x) == Lane(y) <==> x == y
  {
    hide Le, FromLe, Span;
    Spans();
    LeThenFrom(x, 16);
    LeThenFrom(y, 16);
  }

  lemma {:induction false} LanesInjective(a: BlockHeader, b: BlockHeader)
    ensures Lane(a.timestamp) == Lane(b.timestamp) <==> a.timestamp == b.timestamp
    ensures Lane(a.height) == Lane(b.height) <==> a.height == b.height
    ensures Lane(a.nonce) == Lane(b.nonce) <==> a.nonce == b.nonce
    ensures Lane(a.logSlots) == Lane(b.logSlots) <==> a.logSlots == b.logSlots
    ensures Lane(a.activeSlotCount) == Lane(b.activeSlotCount) <==> a.activeSlotCount == b.activeSlotCount
    ensures Lane(a.allocCounter) == Lane(b.allocCounter) <==> a.allocCounter == b.allocCounter
  {
    hide Lane;
    LaneInjective(a.timestamp, b.timestamp);
    LaneInjective(a.height, b.height);
    LaneInjective(a.nonce, b.nonce);
    LaneInjective(a.logSlots, b.logSlots);
    LaneInjective(a.activeSlotCount, b.activeSlotCount);
    LaneInjective(a.allocCounter, b.allocCounter);
  }

  /** Records cut the same way are the same record exactly when their bytes agree. */
  lemma {:induction false} SameConcat(a: seq<Bytes>, b: seq<Bytes>, widths: seq<nat>)
    requires Widths(a, widths) && Widths(b, widths)
    ensures Concat(a) == Concat(b) <==> a == b
  {
    hide Concat, TakeAll;
    ConcatTaken(a, widths, []);
    ConcatTaken(b, widths, []);
  }

  lemma {:induction false} HashFieldWidths(h: BlockHeader)
    ensures Widths(HashFields(h), HASH_WIDTHS)
  {
    hide Le;
    var fields := HashFields(h);
    forall i | 0 <= i < 11 ensures |fields[i]| == HASH_WIDTHS[i] {
    }
  }

  lemma {:induction false} SemanticFieldWidths(h: BlockHeader)
    ensures Widths(SemanticFields(h), SEMANTIC_WIDTHS)
  {
    hide Le;
    var fields := SemanticFields(h);
    forall i | 0 <= i < 10 ensures |fields[i]| == SEMANTIC_WIDTHS[i] {
    }
  }

  /** The chain-link schedule determines the whole header. */
  lemma {:induction false} HashStreamInjective(a: BlockHeader, b: BlockHeader)
    ensures HashStream(a) == HashStream(b) <==> a == b
  {
    hide Lane, Concat;
    HashFieldWidths(a);
    HashFieldWidths(b);
    SameConcat(HashFields(a), HashFields(b), HASH_WIDTHS);
    LanesInjective(a, b);
    if HashFields(a) == HashFields(b) {
      var s, t := HashFields(a), HashFields(b);
      assert s[0] == t[0] && s[1] == t[1] && s[2] == t[2] && s[5] == t[5] && s[7] == t[7];
      assert s[3] == t[3] && s[4] == t[4] && s[6] == t[6] && s[8] == t[8] && s[9] == t[9] && s[10] == t[10];
    }
  }

  /** The semantic schedule forgets the nonce and nothing else. */
  lemma {:induction false} SemanticStreamForgetsNonce(a: BlockHeader, b: BlockHeader)
    ensures SemanticStream(a) == SemanticStream(b) <==> a == b.(nonce := a.nonce)
  {
    hide Lane, Concat;
    SemanticFieldWidths(a);
    SemanticFieldWidths(b);
    SameConcat(SemanticFields(a), SemanticFields(b), SEMANTIC_WIDTHS);
    LanesInjective(a, b);
    if SemanticFields(a) == SemanticFields(b) {
      var s, t := SemanticFields(a), SemanticFields(b);
      assert s[0] == t[0] && s[1] == t[1] && s[2] == t[2] && s[5] == t[5] && s[6] == t[6];
      assert s[3] == t[3] && s[4] == t[4] && s[7] == t[7] && s[8] == t[8] && s[9] == t[9];
    }
  }

  lemma {:induction false} HashLayoutOffsets()
    ensures Sum(HASH_WIDTHS[..0]) == 0 && Sum(HASH_WIDTHS[..1]) == 32 && Sum(HASH_WIDTHS[..2]) == 64
    ensures Sum(HASH_WIDTHS[..3]) == 96 && Sum(HASH_WIDTHS[..4]) == 112
    ensures Sum(HASH_WIDTHS[..5]) == 128 && Sum(HASH_WIDTHS[..6]) == 160 && Sum(HASH_WIDTHS[..7]) == 176
    ensures Sum(HASH_WIDTHS[..8]) == 208 && Sum(HASH_WIDTHS[..9]) == 224 && Sum(HASH_WIDTHS[..10]) == 240
  {
    hide Sum;
    NoWidths();
    NextOffset(HASH_WIDTHS, 0);
    NextOffset(HASH_WIDTHS, 1);
    NextOffset(HASH_WIDTHS, 2);
    NextOffset(HASH_WIDTHS, 3);
    NextOffset(HASH_WIDTHS, 4);
    NextOffset(HASH_WIDTHS, 5);
    NextOffset(HASH_WIDTHS, 6);
    NextOffset(HASH_WIDTHS, 7);
    NextOffset(HASH_WIDTHS, 8);
    NextOffset(HASH_WIDTHS, 9);
    assert HASH_WIDTHS[..0] == [];
  }

  /** Where every field of a header stands in the stream of the block id. */
  lemma {:induction false} HashLayout(h: BlockHeader)
    ensures |HashStream(h)| == 256
    ensures HashStream(h)[0..32] == h.prevBlockHash && HashStream(h)[32..64] == h.stateRoot
    ensures HashStream(h)[64..96] == h.txRoot && HashStream(h)[96..112] == Le(h.timestamp, 16)
    ensures HashStream(h)[112..128] == Le(h.height, 16) && HashStream(h)[128..160] == h.minerAddress
    ensures HashStream(h)[160..176] == Le(h.nonce, 16) && HashStream(h)[176..208] == h.difficultyTarget
    ensures HashStream(h)[208..224] == Le(h.logSlots, 16) && HashStream(h)[224..240] == Le(h.activeSlotCount, 16)
    ensures HashStream(h)[240..256] == Le(h.allocCounter, 16)
  {
    hide Le, Concat, Sum, TakeAll;
    var fields := HashFields(h);
    HashLayoutOffsets();
    HashFieldWidths(h);
    NextOffset(HASH_WIDTHS, 10);
    assert HASH_WIDTHS[..11] == HASH_WIDTHS;
    ConcatTaken(fields, HASH_WIDTHS, []);
    FieldAt(fields, HASH_WIDTHS, 0, 0, 32);
    FieldAt(fields, HASH_WIDTHS, 1, 32, 64);
    FieldAt(fields, HASH_WIDTHS, 2, 64, 96);
    FieldAt(fields, HASH_WIDTHS, 3, 96, 112);
    FieldAt(fields, HASH_WIDTHS, 4, 112, 128);
    FieldAt(fields, HASH_WIDTHS, 5, 128, 160);
    FieldAt(fields, HASH_WIDTHS, 6, 160, 176);
    FieldAt(fields, HASH_WIDTHS, 7, 176, 208);
    FieldAt(fields, HASH_WIDTHS, 8, 208, 224);
    FieldAt(fields, HASH_WIDTHS, 9, 224, 240);
    FieldAt(fields, HASH_WIDTHS, 10, 240, 256);
  }

  lemma {:induction false} SemanticLayoutOffsets()
    ensures Sum(SEMANTIC_WIDTHS[..0]) == 0 && Sum(SEMANTIC_WIDTHS[..1]) == 32 && Sum(SEMANTIC_WIDTHS[..2]) == 64
    ensures Sum(SEMANTIC_WIDTHS[..3]) == 96 && Sum(SEMANTIC_WIDTHS[..4]) == 112
    ensures Sum(SEMANTIC_WIDTHS[..5]) == 128 && Sum(SEMANTIC_WIDTHS[..6]) == 160 && Sum(SEMANTIC_WIDTHS[..7]) == 192
    ensures Sum(SEMANTIC_WIDTHS[..8]) == 208 && Sum(SEMANTIC_WIDTHS[..9]) == 224
  {
    hide Sum;
    NoWidths();
    NextOffset(SEMANTIC_WIDTHS, 0);
    NextOffset(SEMANTIC_WIDTHS, 1);
    NextOffset(SEMANTIC_WIDTHS, 2);
    NextOffset(SEMANTIC_WIDTHS, 3);
    NextOffset(SEMANTIC_WIDTHS, 4);
    NextOffset(SEMANTIC_WIDTHS, 5);
    NextOffset(SEMANTIC_WIDTHS, 6);
    NextOffset(SEMANTIC_WIDTHS, 7);
    NextOffset(SEMANTIC_WIDTHS, 8);
    assert SEMANTIC_WIDTHS[..0] == [];
  }

  /** The same stream without the nonce, for the semantic id. */
  lemma {:induction false} SemanticLayout(h: BlockHeader)
    ensures |SemanticStream(h)| == 240
    ensures SemanticStream(h)[0..32] == h.prevBlockHash && SemanticStream(h)[32..64] == h.stateRoot
    ensures SemanticStream(h)[64..96] == h.txRoot && SemanticStream(h)[96..112] == Le(h.timestamp, 16)
    ensures SemanticStream(h)[112..128] == Le(h.height, 16) && SemanticStream(h)[128..160] == h.minerAddress
    ensures SemanticStream(h)[160..192] == h.difficultyTarget && SemanticStream(h)[192..208] == Le(h.logSlots, 16)
    ensures SemanticStream(h)[208..224] == Le(h.activeSlotCount, 16)
    ensures SemanticStream(h)[224..240] == Le(h.allocCounter, 16)
  {
    hide Le, Concat, Sum, TakeAll;
    var fields := SemanticFields(h);
    SemanticLayoutOffsets();
    SemanticFieldWidths(h);
    NextOffset(SEMANTIC_WIDTHS, 9);
    assert SEMANTIC_WIDTHS[..10] == SEMANTIC_WIDTHS;
    ConcatTaken(fields, SEMANTIC_WIDTHS, []);
    FieldAt(fields, SEMANTIC_WIDTHS, 0, 0, 32);
    FieldAt(fields, SEMANTIC_WIDTHS, 1, 32, 64);
    FieldAt(fields, SEMANTIC_WIDTHS, 2, 64, 96);
    FieldAt(fields, SEMANTIC_WIDTHS, 3, 96, 112);
    FieldAt(fields, SEMANTIC_WIDTHS, 4, 112, 128);
    FieldAt(fields, SEMANTIC_WIDTHS, 5, 128, 160);
    FieldAt(fields, SEMANTIC_WIDTHS, 6, 160, 192);
    FieldAt(fields, SEMANTIC_WIDTHS, 7, 192, 208);
    FieldAt(fields, SEMANTIC_WIDTHS, 8, 208, 224);
    FieldAt(fields, SEMANTIC_WIDTHS, 9, 224, 240);
  }

  // --------------------------------------------------------------------- hashing

  /** The permutation with the two capacity constants that separate the schedules. */
  datatype Identity = Identity(permutation: Permutation, blockIv: State, semanticIv: State)

  ghost function BlockId(id: Identity, h: BlockHeader): Digest {
    Hash(id.permutation, id.blockIv, HashStream(h))
  }

  ghost function SemanticId(id: Identity, h: BlockHeader): Digest {
    Hash(id.permutation, id.semanticIv, SemanticStream(h))
  }

  /** One id for two headers is a collision of the padded streams. */
  lemma {:induction false} BlockIdBinds(id: Identity, a: BlockHeader, b: BlockHeader)
    requires BlockId(id, a) == BlockId(id, b)
    ensures a == b || Collision(id.permutation, id.blockIv, Padded(HashStream(a)), Padded(HashStream(b)))
  {
    hide HashStream, Padded, Hash;
    HashStreamInjective(a, b);
    HashBinds(id.permutation, id.blockIv, HashStream(a), HashStream(b));
  }

  lemma {:induction false} SemanticIdIgnoresNonce(id: Identity, h: BlockHeader, nonce: U128)
    ensures SemanticId(id, h) == SemanticId(id, h.(nonce := nonce))
  {
    hide SemanticStream, Hash;
    SemanticStreamForgetsNonce(h.(nonce := nonce), h);
  }

  method AbsorbLane(s: Poseidon2bSponge, x: U128, ghost done: seq<Bytes>)
    requires s.Valid() && s.absorbed == Concat(done)
    modifies s, s.buffer
    ensures s.Valid() && s.absorbed == Concat(done + [Lane(x)])
  {
    hide Concat, Le, Absorbed, Tail;
    ConcatSnoc(done, Lane(x));
    s.Update(Le(x, 16));
  }

  /** Splitting a digest into two integers and writing them out again is the digest. */
  method AbsorbDigest(s: Poseidon2bSponge, d: Digest, ghost done: seq<Bytes>)
    requires s.Valid() && s.absorbed == Concat(done)
    modifies s, s.buffer
    ensures s.Valid() && s.absorbed == Concat(done + [d])
  {
    hide Concat, Le, FromLe, Absorbed, Tail, Span;
    ConcatSnoc(done, d);
    var hi, lo := FromLe(d[..16]), FromLe(d[16..]);
    FromThenLe(d[..16]);
    FromThenLe(d[16..]);
    assert Le(hi, 16) + Le(lo, 16) == d;
    s.Update(Le(hi, 16) + Le(lo, 16));
  }

  /** The fields up to the miner, common to both schedules. */
  method AbsorbBoundary(s: Poseidon2bSponge, h: BlockHeader)
    requires s.Valid() && s.absorbed == []
    modifies s, s.buffer
    ensures s.Valid()
    ensures s.absorbed
         == Concat([h.prevBlockHash, h.stateRoot, h.txRoot, Lane(h.timestamp), Lane(h.height), h.minerAddress])
  {
    NoFields();
    hide Concat, Lane, Absorbed, Tail;
    AbsorbDigest(s, h.prevBlockHash, []);
    ghost var d1 := [] + [h.prevBlockHash];
    AbsorbDigest(s, h.stateRoot, d1);
    ghost var d2 := d1 + [h.stateRoot];
    AbsorbDigest(s, h.txRoot, d2);
    ghost var d3 := d2 + [h.txRoot];
    AbsorbLane(s, h.timestamp, d3);
    ghost var d4 := d3 + [Lane(h.timestamp)];
    AbsorbLane(s, h.height, d4);
    ghost var d5 := d4 + [Lane(h.height)];
    AbsorbDigest(s, h.minerAddress, d5);
    assert d5 + [h.minerAddress] ==
      [h.prevBlockHash, h.stateRoot, h.txRoot, Lane(h.timestamp), Lane(h.height), h.minerAddress];
  }

  lemma {:induction false} NoFields()
    ensures Concat([]) == []
  {
  }

  /** The fields from the difficulty target on, common to both schedules. */
  method AbsorbSeal(s: Poseidon2bSponge, h: BlockHeader, ghost done: seq<Bytes>)
    requires s.Valid() && s.absorbed == Concat(done)
    modifies s, s.buffer
    ensures s.Valid()
    ensures s.absorbed
         == Concat(done + [h.difficultyTarget, Lane(h.logSlots), Lane(h.activeSlotCount), Lane(h.allocCounter)])
  {
    hide Concat, Lane, Absorbed, Tail;
    AbsorbDigest(s, h.difficultyTarget, done);
    AbsorbLane(s, h.logSlots, done + [h.difficultyTarget]);
    ghost var d1 := done + [h.difficultyTarget] + [Lane(h.logSlots)];
    AbsorbLane(s, h.activeSlotCount, d1);
    AbsorbLane(s, h.allocCounter, d1 + [Lane(h.activeSlotCount)]);
    assert d1 + [Lane(h.activeSlotCount)] + [Lane(h.allocCounter)] ==
      done + [h.difficultyTarget, Lane(h.logSlots), Lane(h.activeSlotCount), Lane(h.allocCounter)];
  }

  method HashBlockHeader(id: Identity, h: BlockHeader) returns (digest: Digest)
    ensures digest == BlockId(id, h)
  {
    hide Concat, Lane, Absorbed, Tail, Hash;
    var s := new Poseidon2bSponge.WithIv(id.permutation, id.blockIv);
    AbsorbBoundary(s, h);
    ghost var done := [h.prevBlockHash, h.stateRoot, h.txRoot, Lane(h.timestamp), Lane(h.height), h.minerAddress];
    AbsorbLane(s, h.nonce, done);
    AbsorbSeal(s, h, done + [Lane(h.nonce)]);
    assert done + [Lane(h.nonce)] + [h.difficultyTarget, Lane(h.logSlots), Lane(h.activeSlotCount),
                                     Lane(h.allocCounter)]
      ==
      HashFields(h);
    digest := s.Finalize();
  }

  method SemanticHeaderId(id: Identity, h: BlockHeader) returns (digest: Digest)
    ensures digest == SemanticId(id, h)
  {
    hide Concat, Lane, Absorbed, Tail, Hash;
    var s := new Poseidon2bSponge.WithIv(id.permutation, id.semanticIv);
    AbsorbBoundary(s, h);
    ghost var done := [h.prevBlockHash, h.stateRoot, h.txRoot, Lane(h.timestamp), Lane(h.height), h.minerAddress];
    AbsorbSeal(s, h, done);
    assert done + [h.difficultyTarget, Lane(h.logSlots), Lane(h.activeSlotCount), Lane(h.allocCounter)]
        == SemanticFields(h);
    digest := s.Finalize();
  }
}
