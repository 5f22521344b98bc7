/** Holder-retained transition receipts: the checks they must pass and what a passing
    receipt pins down. The object opening, the transaction page, the contract call and
    proof of work are parameters. */
module Receipt {
  import BinaryTree
  import opened Wrappers
  import opened Wire
  import opened HeaderWire
  import opened HeaderIdentity
  import opened Sponge
  import opened TxTree

  const MAX_RECEIPT_DESCENDANTS: nat := 42
  const MAX_TERMINAL_BYTES: nat := 1_100_000

  type U16 = x: nat | x < 0x1_0000
  type Path = p: seq<Digest> | |p| == TX_TREE_DEPTH witness Empties(TX_TREE_DEPTH)
  type Opening(==, 0, !new)
  type Page(==, 0, !new)
  type CheckedTransition(==, 0, !new)

  datatype Rules = Rules(
    encodeOpening: Opening -> Option<Bytes>,
    decodeOpening: Bytes -> Option<Opening>,
    encodePage: Page -> Option<Bytes>,
    decodePage: Bytes -> Option<Page>,
    checkCall: (Opening, Page, U64) -> Option<CheckedTransition>,
    pageId: Page -> Option<Digest>,
    powHolds: BlockHeader -> bool,
    v2Active: U64 -> bool,
    tree: TreeHash,
    identity: Identity)

  datatype ObjectTransitionReceipt = ObjectTransitionReceipt(
    opening: Opening,
    page: Page,
    header: BlockHeader,
    epochAnchorHeader: BlockHeader,
    txIndex: U16,
    txCount: U16,
    path: Path,
    descendants: seq<BlockHeader>,
    terminal: Bytes)

  datatype ReceiptError =
    | TerminalLength | AncestryLength | AncestryLink | DescendantWork
    | PredatesV2 | Call | PageHash | Inclusion
    | OpeningEncoding | PageEncoding
    | LengthOrMarker | AncestryTruncated | TerminalFraming
    | OpeningDecoding | PageDecoding | HeaderDecoding | AnchorDecoding | DescendantDecoding
    | NotSelected | TerminalRejected

  // ------------------------------------------------------------------- ancestry

  ghost predicate Extends(rules: Rules, parent: BlockHeader, child: BlockHeader) {
    && parent.height + 1 == child.height
    && child.prevBlockHash == BlockId(rules.identity, parent)
    && rules.powHolds(child)
  }

  ghost predicate Linked(rules: Rules, chain: seq<BlockHeader>) {
    forall i :: 0 <= i < |chain| - 1 ==> Extends(rules, chain[i], chain[i + 1])
  }

  function Chain(r: ObjectTransitionReceipt): (chain: seq<BlockHeader>)
    ensures |chain| == |r.descendants| + 1
  {
    [r.header] + r.descendants
  }

  function ProofBoundary(r: ObjectTransitionReceipt): BlockHeader {
    Chain(r)[|r.descendants|]
  }

  ghost predicate AncestryHolds(rules: Rules, r: ObjectTransitionReceipt) {
    |r.descendants| <= 42 && Linked(rules, Chain(r))
  }

  /** Walk the descendants, each one hash-linked to the one before. */
  method ProofHeader(rules: Rules, r: ObjectTransitionReceipt) returns (result: Result<BlockHeader, ReceiptError>)
    ensures result.Ok? <==> AncestryHolds(rules, r)
    ensures result.Ok? ==> result.value == ProofBoundary(r)
    ensures result == Err(AncestryLength) <==> |r.descendants| > 42
    ensures result.Err? ==> result.error.AncestryLength? || result.error.AncestryLink? || result.error.DescendantWork?
  {
    hide BlockId;
    if |r.descendants| > MAX_RECEIPT_DESCENDANTS {
      return Err(AncestryLength);
    }
    var parent := r.header;
    ghost var chain := Chain(r);
    for i := 0 to |r.descendants|
      invariant parent == chain[i]
      invariant forall j :: 0 <= j < i ==> Extends(rules, chain[j], chain[j + 1])
    {
      var child := r.descendants[i];
      assert child == chain[i + 1];
      var parentId := HashBlockHeader(rules.identity, parent);
      if parent.height + 1 != child.height || child.prevBlockHash != parentId {
        assert !Extends(rules, chain[i], chain[i + 1]);
        return Err(AncestryLink);
      }
      if !rules.powHolds(child) {
        assert !Extends(rules, chain[i], chain[i + 1]);
        return Err(DescendantWork);
      }
      parent := child;
    }
    return Ok(parent);
  }

  lemma {:induction false} ChainHeights(rules: Rules, chain: seq<BlockHeader>, i: nat)
    requires Linked(rules, chain) && i < |chain|
    ensures chain[i].height == chain[0].height + i
  {
    hide BlockId;
    if i > 0 {
      ChainHeights(rules, chain, i - 1);
      assert Extends(rules, chain[i - 1], chain[i - 1 + 1]);
    }
  }

  /** The proof boundary lies exactly as many blocks above the call as there are descendants. */
  lemma {:induction false} ProofHeight(rules: Rules, r: ObjectTransitionReceipt)
    requires AncestryHolds(rules, r)
    ensures ProofBoundary(r).height == r.header.height + |r.descendants| <= r.header.height + 42
  {
    hide Linked;
    ChainHeights(rules, Chain(r), |r.descendants|);
  }

  /** Two different headers whose padded hash streams share a digest. */
  ghost predicate IdCollision(rules: Rules, a: BlockHeader, b: BlockHeader) {
    Sponge.Collision(rules.identity.permutation, rules.identity.blockIv, Padded(HashStream(a)), Padded(HashStream(b)))
  }

  lemma {:induction false} SameParent(rules: Rules, a: seq<BlockHeader>, b: seq<BlockHeader>, i: nat)
    requires Linked(rules, a) && Linked(rules, b) && i + 1 < |a| && i + 1 < |b| && a[i + 1] == b[i + 1]
    ensures a[i] == b[i] || IdCollision(rules, a[i], b[i])
  {
    hide BlockId, IdCollision;
    assert Extends(rules, a[i], a[i + 1]) && Extends(rules, b[i], b[i + 1]);
    Binds(rules, a[i], b[i]);
  }

  lemma {:induction false} Binds(rules: Rules, a: BlockHeader, b: BlockHeader)
    requires BlockId(rules.identity, a) == BlockId(rules.identity, b)
    ensures a == b || IdCollision(rules, a, b)
  {
    hide BlockId, Padded, HashStream, Sponge.Collision;
    BlockIdBinds(rules.identity, a, b);
  }

  lemma {:induction false} ChainsAgree(rules: Rules, a: seq<BlockHeader>, b: seq<BlockHeader>, n: nat) returns (i: nat)
    requires Linked(rules, a) && Linked(rules, b) && n < |a| && n < |b| && a[n] == b[n]
    ensures (i < n && a[i] != b[i] && IdCollision(rules, a[i], b[i])) || a[..n + 1] == b[..n + 1]
  {
    hide IdCollision, Linked;
    i := 0;
    if n > 0 {
      SameParent(rules, a, b, n - 1);
      i := n - 1;
      if a[n - 1] == b[n - 1] {
        i := ChainsAgree(rules, a, b, n - 1);
        assert a[..n + 1] == a[..n] + [a[n]] && b[..n + 1] == b[..n] + [b[n]];
      }
    }
  }

  /** One proof boundary reached over one number of descendants has one history: the same call header
      and the same whole chain, unless the two chains hold different headers of one block id at one height. */
  lemma {:induction false} BoundaryBindsChain(rules: Rules, r: ObjectTransitionReceipt, s: ObjectTransitionReceipt)
    returns (i: nat)
    requires AncestryHolds(rules, r) && AncestryHolds(rules, s)
    requires |r.descendants| == |s.descendants| && ProofBoundary(r) == ProofBoundary(s)
    ensures || (i < |r.descendants| && Chain(r)[i] != Chain(s)[i] && IdCollision(rules, Chain(r)[i], Chain(s)[i]))
            || (r.header == s.header && r.descendants == s.descendants)
  {
    hide IdCollision, Linked;
    var n := |r.descendants|;
    i := ChainsAgree(rules, Chain(r), Chain(s), n);
    assert Chain(r)[..n + 1] == Chain(r) && Chain(s)[..n + 1] == Chain(s);
    assert Chain(r)[0] == r.header && Chain(s)[0] == s.header;
    assert Chain(r)[1..] == r.descendants && Chain(s)[1..] == s.descendants;
  }

  // -------------------------------------------------------------------- checks

  ghost predicate SizeHolds(rules: Rules, r: ObjectTransitionReceipt) {
    1 <= |r.terminal| <= 1_100_000 && AncestryHolds(rules, r)
  }

  ghost predicate InclusionHolds(rules: Rules, r: ObjectTransitionReceipt) {
    && rules.v2Active(r.header.height)
    && rules.checkCall(r.opening, r.page, r.header.height).Some?
    && rules.pageId(r.page).Some?
    && Included(rules.tree, rules.pageId(r.page).value, r.path, r.txIndex, r.txCount, r.header.txRoot)
  }

  ghost predicate Accepted(rules: Rules, r: ObjectTransitionReceipt) {
    SizeHolds(rules, r) && InclusionHolds(rules, r)
  }

  method CheckSize(rules: Rules, r: ObjectTransitionReceipt) returns (result: Result<(), ReceiptError>)
    ensures result.Ok? <==> SizeHolds(rules, r)
    ensures result == Err(TerminalLength) <==> !(1 <= |r.terminal| <= 1_100_000)
  {
    hide AncestryHolds;
    if |r.terminal| == 0 || |r.terminal| > MAX_TERMINAL_BYTES {
      return Err(TerminalLength);
    }
    var boundary := ProofHeader(rules, r);
    match boundary {
      case Err(error) => return Err(error);
      case Ok(_) => return Ok(());
    }
  }

  method CheckInclusion(rules: Rules, r: ObjectTransitionReceipt)
    returns (result: Result<CheckedTransition, ReceiptError>)
    ensures result.Ok? <==> InclusionHolds(rules, r)
    ensures result.Ok? ==> rules.checkCall(r.opening, r.page, r.header.height) == Some(result.value)
  {
    hide Included;
    if !rules.v2Active(r.header.height) {
      return Err(PredatesV2);
    }
    var checked := rules.checkCall(r.opening, r.page, r.header.height);
    if checked.None? {
      return Err(Call);
    }
    var id := rules.pageId(r.page);
    if id.None? {
      return Err(PageHash);
    }
    var included := VerifyPath(rules.tree, id.value, r.path, r.txIndex, r.txCount, r.header.txRoot);
    if !included {
      return Err(Inclusion);
    }
    return Ok(checked.value);
  }

  /** The terminal verifier sees the boundary the descendants lead to, and only for a
      receipt whose call block is the selected one. */
  method VerifyWithTerminal(rules: Rules, r: ObjectTransitionReceipt, canonicalHeader: BlockHeader,
                            verify: (Bytes, BlockHeader, BlockHeader) -> bool)
    returns (result: Result<CheckedTransition, ReceiptError>)
    ensures result.Ok? <==>
            && Accepted(rules, r) && r.header == canonicalHeader
            && verify(r.terminal, ProofBoundary(r), r.epochAnchorHeader)
    ensures result.Ok? ==> rules.checkCall(r.opening, r.page, r.header.height) == Some(result.value)
  {
    hide AncestryHolds, InclusionHolds;
    var size := CheckSize(rules, r);
    if size.Err? {
      return Err(size.error);
    }
    if r.header != canonicalHeader {
      return Err(NotSelected);
    }
    var checked := CheckInclusion(rules, r);
    if checked.Err? {
      return checked;
    }
    // The size check has walked this ancestry, so the second walk cannot fail.
    var boundary := ProofHeader(rules, r);
    if !verify(r.terminal, boundary.value, r.epochAnchorHeader) {
      return Err(TerminalRejected);
    }
    return checked;
  }

  /** An accepted receipt names a real transaction of the block behind its call header: the count is
      the block's, the page is the transaction at that position and the path is the block's own.
      Otherwise what the receipt hashes collides with what the block hashes, at the wrap or in step `k`. */
  lemma {:induction false} AcceptedNamesTransaction(rules: Rules, r: ObjectTransitionReceipt, ids: seq<Digest>)
    returns (k: nat)
    requires InclusionHolds(rules, r)
    requires 1 <= |ids| <= TX_TREE_LEAVES && r.header.txRoot == Root(rules.tree, ids)
    ensures var t, leaf := rules.tree, rules.pageId(r.page).value;
            || BinaryTree.Collision(t.wrap, Wrapped(FoldPath(t, leaf, r.path, r.txIndex), r.txCount),
                                    Wrapped(BlockTop(t, ids), |ids|))
            || (k < TX_TREE_DEPTH
                && BinaryTree.Collision(t.compress, Steps(t, leaf, r.path, r.txIndex)[k],
                                        BlockSteps(t, ids, r.txIndex)[k]))
            || (r.txCount == |ids| && r.txIndex < |ids| && leaf == ids[r.txIndex]
                && r.path == BlockPath(t, ids, r.txIndex))
  {
    hide Root, BinaryTree.Collision, BindTxCount, FoldPath, Steps, BlockSteps, BlockTop, BlockPath, Wrapped;
    k := InclusionSound(rules.tree, ids, rules.pageId(r.page).value, r.path, r.txIndex, r.txCount);
  }
}
