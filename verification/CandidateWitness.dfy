/** Witness preparation for a candidate block: openings are aligned with the transactions
    marked as contract calls, and each call's authorization is handed to the authority
    its deadline selects. */
module CandidateWitness {
  import opened Wrappers

  type Program(==, 0, !new)
  type Word(==, 0, !new)
  type Authority(==, 0, !new)
  type SpendRules(==, 0, !new)
  type Contexts(==, 0, !new)
  type Hash(==, 0, !new)
  type Transaction(==, 0, !new)

  datatype ObjectOpening = ObjectOpening(
    program: Program, state: Word, claimAuthority: Authority, recoveryAuthority: Authority, deadline: nat,
    claimRecipient: Authority, recoveryRecipient: Authority, rules: SpendRules)

  datatype CheckedCall = CheckedCall(next: Word, contexts: Contexts, terminal: bool)

  datatype ContractInput = ContractInput(
    bodyIndex: nat, live: bool, program: Program, current: Word, contexts: Contexts, next: Word, controller: Authority,
    refundAuthority: Authority, terminal: bool, deadline: nat, claimRecipient: Authority, refundRecipient: Authority,
    rules: SpendRules)

  datatype WitnessError = ContractShape | CallRejected

  /** What alignment looks at: the block, the contract marks, the call check and the slot window. */
  datatype Candidate = Candidate(
    transactions: seq<Transaction>,
    marked: Transaction -> bool,
    checkCall: (ObjectOpening, Transaction) -> Option<CheckedCall>,
    base: nat,
    slots: nat,
    sequential: bool)

  // ------------------------------------------------------------------ alignment

  function MarkedUpTo(c: Candidate, n: nat): seq<nat>
    requires n <= |c.transactions|
  {
    if n == 0 then [] else MarkedUpTo(c, n - 1) + if c.marked(c.transactions[n - 1]) then [n - 1] else []
  }

  function Marked(c: Candidate): seq<nat> {
    MarkedUpTo(c, |c.transactions|)
  }

  lemma {:induction false} MarkedExact(c: Candidate, n: nat)
    requires n <= |c.transactions|
    ensures forall k :: 0 <= k < |MarkedUpTo(c, n)| ==>
              MarkedUpTo(c, n)[k] < n && c.marked(c.transactions[MarkedUpTo(c, n)[k]])
    ensures forall i, j :: 0 <= i < j < |MarkedUpTo(c, n)| ==> MarkedUpTo(c, n)[i] < MarkedUpTo(c, n)[j]
    ensures forall i: nat :: i < n && c.marked(c.transactions[i]) ==> i in MarkedUpTo(c, n)
  {
    if n > 0 { MarkedExact(c, n - 1); }
  }

  lemma {:induction false} MarkedFront(c: Candidate, n: nat)
    requires n <= |c.transactions|
    ensures MarkedUpTo(c, n) <= Marked(c)
    decreases |c.transactions| - n
  {
    if n < |c.transactions| { MarkedFront(c, n + 1); }
  }

  /** The k-th call may stand at this index. */
  predicate Placed(c: Candidate, k: nat, index: nat) {
    c.base <= index < c.base + c.slots && (!c.sequential ==> index == c.base + k)
  }

  function ContractFor(index: nat, opening: ObjectOpening, checked: CheckedCall): ContractInput {
    ContractInput(index, true, opening.program, opening.state, checked.contexts, checked.next, opening.claimAuthority,
                  opening.recoveryAuthority, checked.terminal, opening.deadline, opening.claimRecipient,
                  opening.recoveryRecipient, opening.rules)
  }

  predicate CallOk(c: Candidate, openings: seq<ObjectOpening>, k: nat, index: nat)
    requires k < |openings| && index < |c.transactions|
  {
    Placed(c, k, index) && c.checkCall(openings[k], c.transactions[index]).Some?
  }

  /** The openings answer the marked transactions one for one, in order, inside the window. */
  ghost predicate Aligned(c: Candidate, openings: seq<ObjectOpening>) {
    && |openings| == |Marked(c)|
    && forall k :: 0 <= k < |openings| ==> Marked(c)[k] < |c.transactions| && CallOk(c, openings, k, Marked(c)[k])
  }

  ghost predicate Answers(c: Candidate, openings: seq<ObjectOpening>, contracts: seq<ContractInput>, marks: seq<nat>) {
    && |contracts| == |marks| <= |openings|
    && forall k :: 0 <= k < |contracts| ==>
                     && marks[k] < |c.transactions| && CallOk(c, openings, k, marks[k])
                     && contracts[k]
                       == ContractFor(marks[k], openings[k], c.checkCall(openings[k], c.transactions[marks[k]]).value)
  }

  lemma {:induction false} MarkedStep(c: Candidate, index: nat)
    requires index < |c.transactions|
    ensures var marks := MarkedUpTo(c, index);
            if c.marked(c.transactions[index])
            then MarkedUpTo(c, index + 1) == marks + [index] && |marks| < |Marked(c)| && Marked(c)[|marks|] == index
            else MarkedUpTo(c, index + 1) == marks
  {
    MarkedFront(c, index + 1);
  }

  /** Walk the block, taking the next opening at every marked transaction. */
  method Align(c: Candidate, openings: seq<ObjectOpening>) returns (result: Result<seq<ContractInput>, WitnessError>)
    ensures result.Ok? <==> Aligned(c, openings)
    ensures result.Ok? ==> Answers(c, openings, result.value, Marked(c))
  {
    hide MarkedUpTo, ContractFor;
    var contracts: seq<ContractInput> := [];
    var next: nat := 0;
    NoMarks(c);
    for index: nat := 0 to |c.transactions|
      invariant next == |contracts| == |MarkedUpTo(c, index)|
      invariant Answers(c, openings, contracts, MarkedUpTo(c, index))
    {
      var transaction := c.transactions[index];
      MarkedStep(c, index);
      if c.marked(transaction) {
        if index < c.base || index - c.base >= c.slots || (!c.sequential && index - c.base != |contracts|) {
          return Err(ContractShape);
        }
        if next >= |openings| {
          return Err(ContractShape);
        }
        var opening := openings[next];
        next := next + 1;
        var checked := c.checkCall(opening, transaction);
        if checked.None? {
          return Err(CallRejected);
        }
        contracts := contracts + [ContractFor(index, opening, checked.value)];
      }
    }
    if next < |openings| || |contracts| != |openings| {
      return Err(ContractShape);
    }
    return Ok(contracts);
  }

  lemma {:induction false} NoMarks(c: Candidate)
    ensures MarkedUpTo(c, 0) == []
  {
  }

  /** The contract carries the opening's program, state and rules, and for every height it selects
      the authority and the recipient that the opening does. */
  ghost predicate SameTerms(contract: ContractInput, opening: ObjectOpening) {
    && contract.live
    && contract.program == opening.program && contract.current == opening.state && contract.rules == opening.rules
    && forall height: nat :: Selected(height, contract) == AuthorityAt(opening, height)
                             && SelectedRecipient(height, contract) == RecipientAt(opening, height)
  }

  function AuthorityAt(opening: ObjectOpening, height: nat): Authority {
    if height < opening.deadline then opening.claimAuthority else opening.recoveryAuthority
  }

  function RecipientAt(opening: ObjectOpening, height: nat): Authority {
    if height < opening.deadline then opening.claimRecipient else opening.recoveryRecipient
  }

  function SelectedRecipient(height: nat, contract: ContractInput): Authority {
    if height < contract.deadline then contract.claimRecipient else contract.refundRecipient
  }

  /** What passing alignment means: contracts and openings match one for one, body indices rise
      strictly inside the slot window, and exactly the marked transactions are covered. */
  lemma {:induction false} AlignmentOneToOne(c: Candidate, openings: seq<ObjectOpening>, contracts: seq<ContractInput>)
    requires Aligned(c, openings) && Answers(c, openings, contracts, Marked(c))
    ensures |contracts| == |openings|
    ensures forall i, j :: 0 <= i < j < |contracts| ==> contracts[i].bodyIndex < contracts[j].bodyIndex
    ensures forall k :: 0 <= k < |contracts| ==>
                          && c.base <= contracts[k].bodyIndex < c.base + c.slots
                          && contracts[k].bodyIndex < |c.transactions|
                          && c.marked(c.transactions[contracts[k].bodyIndex])
                          && SameTerms(contracts[k], openings[k])
                          && c.checkCall(openings[k], c.transactions[contracts[k].bodyIndex]) ==
                             Some(CheckedCall(contracts[k].next, contracts[k].contexts, contracts[k].terminal))
    ensures forall i: nat :: i < |c.transactions| && c.marked(c.transactions[i]) ==>
                               exists k :: 0 <= k < |contracts| && contracts[k].bodyIndex == i
  {
    hide MarkedUpTo;
    MarkedExact(c, |c.transactions|);
    var marks := Marked(c);
    assert forall k :: 0 <= k < |contracts| ==> contracts[k].bodyIndex == marks[k];
    forall i: nat | i < |c.transactions| && c.marked(c.transactions[i])
      ensures exists k :: 0 <= k < |contracts| && contracts[k].bodyIndex == i {
      assert i in marks;
      var k :| 0 <= k < |marks| && marks[k] == i;
      assert contracts[k].bodyIndex == i;
    }
  }

  /** The marked indices below `n`, in increasing order. */
  ghost predicate MarksAre(c: Candidate, n: nat, at: seq<nat>)
    requires n <= |c.transactions|
  {
    && (forall i, j :: 0 <= i < j < |at| ==> at[i] < at[j])
    && (forall i :: 0 <= i < |at| ==> at[i] < n && c.marked(c.transactions[at[i]]))
    && (forall index: nat {:trigger index in at} :: index < n && c.marked(c.transactions[index]) ==> index in at)
  }

  lemma {:induction false} MarkedIs(c: Candidate, n: nat, at: seq<nat>)
    requires n <= |c.transactions| && MarksAre(c, n, at)
    ensures MarkedUpTo(c, n) == at
  {
    FirstMark(c, n, at);
    if n == 0 {
      assert at == [];
    } else if c.marked(c.transactions[n - 1]) {
      LastMark(c, n, at);
      FrontMarks(c, n, at);
      hide MarksAre;
      MarkedIs(c, n - 1, at[..|at| - 1]);
    } else {
      SkipMark(c, n, at);
      hide MarksAre;
      MarkedIs(c, n - 1, at);
    }
  }

  lemma {:induction false} FirstMark(c: Candidate, n: nat, at: seq<nat>)
    requires n <= |c.transactions| && MarksAre(c, n, at)
    ensures at == [] || at[0] < n
  {
  }

  lemma {:induction false} LastMark(c: Candidate, n: nat, at: seq<nat>)
    requires 1 <= n <= |c.transactions| && MarksAre(c, n, at) && c.marked(c.transactions[n - 1])
    ensures at != [] && at[|at| - 1] == n - 1
  {
    assert n - 1 in at;
  }

  lemma {:induction false} FrontMarks(c: Candidate, n: nat, at: seq<nat>)
    requires 1 <= n <= |c.transactions| && MarksAre(c, n, at) && at != [] && at[|at| - 1] == n - 1
    ensures MarksAre(c, n - 1, at[..|at| - 1])
  {
    var front := at[..|at| - 1];
    assert at == front + [n - 1];
    assert forall index: nat :: index in at && index != n - 1 ==> index in front;
  }

  lemma {:induction false} SkipMark(c: Candidate, n: nat, at: seq<nat>)
    requires 1 <= n <= |c.transactions| && MarksAre(c, n, at) && !c.marked(c.transactions[n - 1])
    ensures MarksAre(c, n - 1, at)
  {
    assert forall i :: 0 <= i < |at| ==> at[i] != n - 1;
  }

  /** Alignment succeeds exactly if there are as many openings as marked transactions, each of these lies in the
      window, directly behind the one before it unless the sequential configuration is on, and its call passes. */
  lemma {:induction false} AlignsExactly(c: Candidate, openings: seq<ObjectOpening>, at: seq<nat>)
    requires MarksAre(c, |c.transactions|, at)
    ensures Aligned(c, openings) <==>
            && |openings| == |at|
            && (forall k :: 0 <= k < |at| ==> c.base <= at[k] < c.base + c.slots)
            && (forall k :: 0 <= k < |at| ==> c.sequential || at[k] == c.base + k)
            && (forall k :: 0 <= k < |at| ==> c.checkCall(openings[k], c.transactions[at[k]]).Some?)
  {
    hide MarkedUpTo;
    MarkedIs(c, |c.transactions|, at);
  }

  /** Without the sequential configuration the calls are exactly a prefix of the user transactions. */
  lemma {:induction false} CallsArePrefix(c: Candidate, openings: seq<ObjectOpening>)
    requires Aligned(c, openings) && !c.sequential
    ensures c.base + |openings| <= |c.transactions| || openings == []
    ensures forall i: nat :: i < |c.transactions| ==>
              (c.marked(c.transactions[i]) <==> c.base <= i < c.base + |openings|)
  {
    hide MarkedUpTo;
    MarkedExact(c, |c.transactions|);
    var marks := Marked(c);
    assert forall k :: 0 <= k < |marks| ==> marks[k] == c.base + k;
    if openings != [] { assert marks[|marks| - 1] < |c.transactions|; }
    forall i: nat | i < |c.transactions| ensures c.marked(c.transactions[i]) <==> c.base <= i < c.base + |openings| {
      if c.marked(c.transactions[i]) {
        var k :| 0 <= k < |marks| && marks[k] == i;
      }
      if c.base <= i < c.base + |openings| {
        assert marks[i - c.base] == i;
      }
    }
  }

  // ---------------------------------------------------------------- authorities

  datatype Group = Group(bodyStart: nat, pageCount: nat, ordinary: bool, logicalTxid: Hash)

  datatype OwnerAuthPublic = OwnerAuthPublic(txBodyHash: Hash, owner: Authority)

  datatype AuthorizationInput = AuthorizationInput(txBodyHash: Hash, public: OwnerAuthPublic)

  predicate Contains(group: Group, index: nat) {
    group.bodyStart <= index < group.bodyStart + group.pageCount
  }

  /** The logical id of the group that holds this body, when that group is an ordinary spend. */
  function LogicalId(groups: seq<Group>, index: nat): Option<Hash> {
    if groups == [] then None
    else if Contains(groups[0], index) then if groups[0].ordinary then Some(groups[0].logicalTxid) else None
    else LogicalId(groups[1..], index)
  }

  /** The first group whose pages cover this body. */
  ghost predicate FirstHolder(groups: seq<Group>, index: nat, g: nat) {
    && g < |groups| && groups[g].bodyStart <= index < groups[g].bodyStart + groups[g].pageCount
    && forall i :: 0 <= i < g ==> index < groups[i].bodyStart || groups[i].bodyStart + groups[i].pageCount <= index
  }

  /** A body has a logical id exactly if the first group that covers it is an ordinary spend. */
  lemma {:induction false} LogicalIdExact(groups: seq<Group>, index: nat, hash: Hash)
    ensures LogicalId(groups, index) == Some(hash) <==>
            exists g: nat :: FirstHolder(groups, index, g) && groups[g].ordinary && groups[g].logicalTxid == hash
    decreases |groups|
  {
    if groups != [] {
      var rest := groups[1..];
      LogicalIdExact(rest, index, hash);
      if groups[0].bodyStart <= index < groups[0].bodyStart + groups[0].pageCount {
        assert FirstHolder(groups, index, 0);
      } else {
        forall g: nat ensures FirstHolder(groups, index, g + 1) <==> FirstHolder(rest, index, g) {
          HolderBehind(groups, index, g);
        }
        if g: nat :| FirstHolder(rest, index, g) && rest[g].ordinary && rest[g].logicalTxid == hash {
          assert FirstHolder(groups, index, g + 1);
        }
        if g: nat :| FirstHolder(groups, index, g) && groups[g].ordinary && groups[g].logicalTxid == hash {
          assert g > 0 && FirstHolder(rest, index, g - 1);
        }
      }
    }
  }

  lemma {:induction false} HolderBehind(groups: seq<Group>, index: nat, g: nat)
    requires groups != []
    requires index < groups[0].bodyStart || groups[0].bodyStart + groups[0].pageCount <= index
    ensures FirstHolder(groups, index, g + 1) <==> FirstHolder(groups[1..], index, g)
  {
    var rest := groups[1..];
    if FirstHolder(groups, index, g + 1) {
      forall i | 0 <= i < g ensures index < rest[i].bodyStart || rest[i].bodyStart + rest[i].pageCount <= index {
        assert rest[i] == groups[i + 1];
      }
    }
    if FirstHolder(rest, index, g) {
      forall i | 0 <= i < g + 1
        ensures index < groups[i].bodyStart || groups[i].bodyStart + groups[i].pageCount <= index {
        if i > 0 { assert groups[i] == rest[i - 1]; }
      }
    }
  }

  /** Every group starts where the one before it ends. */
  ghost predicate Contiguous(groups: seq<Group>) {
    forall g :: 0 < g < |groups| ==> groups[g].bodyStart == groups[g - 1].bodyStart + groups[g - 1].pageCount
  }

  lemma {:induction false} LaterStarts(groups: seq<Group>, g: nat, k: nat)
    requires Contiguous(groups) && g < k < |groups|
    ensures groups[g].bodyStart + groups[g].pageCount <= groups[k].bodyStart
    decreases k
  {
    if g < k - 1 { LaterStarts(groups, g, k - 1); }
  }

  /** Of groups that follow one another, the one that covers a body decides its logical id. */
  lemma {:induction false} HolderDecides(groups: seq<Group>, index: nat, g: nat)
    requires Contiguous(groups) && g < |groups|
    requires groups[g].bodyStart <= index < groups[g].bodyStart + groups[g].pageCount
    ensures FirstHolder(groups, index, g) && forall k: nat :: FirstHolder(groups, index, k) ==> k == g
    ensures LogicalId(groups, index) == if groups[g].ordinary then Some(groups[g].logicalTxid) else None
  {
    hide LogicalId;
    forall i | 0 <= i < g ensures groups[i].bodyStart + groups[i].pageCount <= index {
      LaterStarts(groups, i, g);
    }
    LogicalIdExact(groups, index, groups[g].logicalTxid);
    if LogicalId(groups, index).Some? { LogicalIdExact(groups, index, LogicalId(groups, index).value); }
  }

  function Selected(height: nat, contract: ContractInput): Authority {
    if height < contract.deadline then contract.controller else contract.refundAuthority
  }

  ghost predicate MatchesOnce(inputs: seq<AuthorizationInput>, hash: Hash) {
    exists j :: 0 <= j < |inputs| && OnlyMatch(inputs, hash, j)
  }

  ghost predicate OnlyMatch(inputs: seq<AuthorizationInput>, hash: Hash, j: nat)
    requires j < |inputs|
  {
    inputs[j].txBodyHash == hash && forall i :: 0 <= i < |inputs| && inputs[i].txBodyHash == hash ==> i == j
  }

  /** Hand every authorization under this hash to the given owner. */
  function HandOver(inputs: seq<AuthorizationInput>, hash: Hash, owner: Authority): (out: seq<AuthorizationInput>)
    ensures |out| == |inputs|
    ensures forall i :: 0 <= i < |inputs| ==>
              out[i] == if inputs[i].txBodyHash != hash then inputs[i]
                        else AuthorizationInput(hash, OwnerAuthPublic(hash, owner))
  {
    if inputs == [] then []
    else
      var last := inputs[|inputs| - 1];
      HandOver(inputs[..|inputs| - 1], hash, owner)
      + [if last.txBodyHash == hash then AuthorizationInput(hash, OwnerAuthPublic(hash, owner)) else last]
  }

  ghost predicate ContractOk(groups: seq<Group>, inputs: seq<AuthorizationInput>, contract: ContractInput) {
    LogicalId(groups, contract.bodyIndex).Some? && MatchesOnce(inputs, LogicalId(groups, contract.bodyIndex).value)
  }

  function HandOverAll(groups: seq<Group>, height: nat, inputs: seq<AuthorizationInput>,
                       contracts: seq<ContractInput>): (out: seq<AuthorizationInput>)
    ensures |out| == |inputs|
    decreases |contracts|
  {
    if contracts == [] then inputs
    else
      var n := |contracts| - 1;
      var before := HandOverAll(groups, height, inputs, contracts[..n]);
      match LogicalId(groups, contracts[n].bodyIndex)
      case None => before
      case Some(hash) => HandOver(before, hash, Selected(height, contracts[n]))
  }

  method FindGroup(groups: seq<Group>, index: nat) returns (hash: Option<Hash>)
    ensures hash == LogicalId(groups, index)
  {
    var g := 0;
    assert groups[0..] == groups;
    while g < |groups| && !Contains(groups[g], index)
      invariant g <= |groups| && LogicalId(groups[g..], index) == LogicalId(groups, index)
    {
      assert groups[g..][1..] == groups[g + 1..];
      g := g + 1;
    }
    if g == |groups| || !groups[g].ordinary {
      return None;
    }
    return Some(groups[g].logicalTxid);
  }

  /** The position of the one authorization under this hash; none when there is none or a second. */
  method FindOnly(inputs: array<AuthorizationInput>, hash: Hash) returns (at: Option<nat>)
    ensures at.Some? <==> MatchesOnce(inputs[..], hash)
    ensures at.Some? ==> at.value < inputs.Length && OnlyMatch(inputs[..], hash, at.value)
  {
    var j := 0;
    while j < inputs.Length && inputs[j].txBodyHash != hash
      invariant j <= inputs.Length && forall i :: 0 <= i < j ==> inputs[i].txBodyHash != hash
    {
      j := j + 1;
    }
    if j == inputs.Length {
      return None;
    }
    var k := j + 1;
    while k < inputs.Length && inputs[k].txBodyHash != hash
      invariant j < k <= inputs.Length && forall i :: j < i < k ==> inputs[i].txBodyHash != hash
    {
      k := k + 1;
    }
    if k < inputs.Length {
      assert inputs[..][j].txBodyHash == hash && inputs[..][k].txBodyHash == hash;
      return None;
    }
    assert OnlyMatch(inputs[..], hash, j);
    return Some(j);
  }

  lemma {:induction false} HandOverKeepsMatches(inputs: seq<AuthorizationInput>, hash: Hash, owner: Authority,
                                                other: Hash)
    ensures MatchesOnce(HandOver(inputs, hash, owner), other) <==> MatchesOnce(inputs, other)
  {
    hide HandOver;
    var out := HandOver(inputs, hash, owner);
    assert forall i :: 0 <= i < |inputs| ==> out[i].txBodyHash == inputs[i].txBodyHash;
    if MatchesOnce(inputs, other) {
      var j :| 0 <= j < |inputs| && OnlyMatch(inputs, other, j);
      assert OnlyMatch(out, other, j);
    }
    if MatchesOnce(out, other) {
      var j :| 0 <= j < |out| && OnlyMatch(out, other, j);
      assert OnlyMatch(inputs, other, j);
    }
  }

  lemma {:induction false} HandOverAllKeepsMatches(groups: seq<Group>, height: nat, inputs: seq<AuthorizationInput>,
                                                   contracts: seq<ContractInput>, other: Hash)
    ensures MatchesOnce(HandOverAll(groups, height, inputs, contracts), other) <==> MatchesOnce(inputs, other)
    decreases |contracts|
  {
    hide MatchesOnce, HandOver;
    if contracts != [] {
      var n := |contracts| - 1;
      HandOverAllKeepsMatches(groups, height, inputs, contracts[..n], other);
      var hash := LogicalId(groups, contracts[n].bodyIndex);
      if hash.Some? {
        HandOverKeepsMatches(HandOverAll(groups, height, inputs, contracts[..n]), hash.value,
                             Selected(height, contracts[n]), other);
      }
    }
  }

  lemma {:induction false} HandOverAllStep(groups: seq<Group>, height: nat, inputs: seq<AuthorizationInput>,
                                           contracts: seq<ContractInput>, n: nat)
    requires n < |contracts|
    ensures var before := HandOverAll(groups, height, inputs, contracts[..n]);
            HandOverAll(groups, height, inputs, contracts[..n + 1]) ==
            match LogicalId(groups, contracts[n].bodyIndex)
            case None => before
            case Some(hash) => HandOver(before, hash, Selected(height, contracts[n]))
  {
    hide HandOver;
    assert contracts[..n + 1][..n] == contracts[..n] && contracts[..n + 1][n] == contracts[n];
  }

  /** Overwrites the public part of each contract's one authorization, in place. */
  method RewriteAuthorities(groups: seq<Group>, height: nat, contracts: seq<ContractInput>,
                            inputs: array<AuthorizationInput>)
    returns (ok: bool)
    modifies inputs
    ensures ok <==> forall k :: 0 <= k < |contracts| ==> ContractOk(groups, old(inputs[..]), contracts[k])
    ensures ok ==> inputs[..] == HandOverAll(groups, height, old(inputs[..]), contracts)
  {
    hide HandOver, MatchesOnce, LogicalId;
    ghost var was := inputs[..];
    NoContracts(groups, height, was);
    assert contracts[..0] == [];
    for n := 0 to |contracts|
      invariant inputs[..] == HandOverAll(groups, height, was, contracts[..n])
      invariant forall k :: 0 <= k < n ==> ContractOk(groups, was, contracts[k])
    {
      var contract := contracts[n];
      var hash := FindGroup(groups, contract.bodyIndex);
      if hash.None? {
        assert !ContractOk(groups, was, contracts[n]);
        return false;
      }
      var at := FindOnly(inputs, hash.value);
      HandOverAllKeepsMatches(groups, height, was, contracts[..n], hash.value);
      if at.None? {
        assert !ContractOk(groups, was, contracts[n]);
        return false;
      }
      HandOverAllStep(groups, height, was, contracts, n);
      OverwriteIsHandOver(inputs[..], hash.value, Selected(height, contract), at.value);
      inputs[at.value] := AuthorizationInput(inputs[at.value].txBodyHash,
                                             OwnerAuthPublic(inputs[at.value].txBodyHash, Selected(height, contract)));
    }
    assert contracts[..|contracts|] == contracts;
    return true;
  }

  lemma {:induction false} NoContracts(groups: seq<Group>, height: nat, inputs: seq<AuthorizationInput>)
    ensures HandOverAll(groups, height, inputs, []) == inputs
  {
  }

  lemma {:induction false} OverwriteIsHandOver(inputs: seq<AuthorizationInput>, hash: Hash, owner: Authority, j: nat)
    requires j < |inputs| && OnlyMatch(inputs, hash, j)
    ensures inputs[j := AuthorizationInput(hash, OwnerAuthPublic(hash, owner))] == HandOver(inputs, hash, owner)
  {
    hide HandOver;
  }

  // -------------------------------------------------- what the rewriting amounts to

  /** The last contract that names this hash. */
  function LastNaming(groups: seq<Group>, contracts: seq<ContractInput>, hash: Hash): Option<ContractInput> {
    if contracts == [] then None
    else
      var n := |contracts| - 1;
      if LogicalId(groups, contracts[n].bodyIndex) == Some(hash) then Some(contracts[n])
      else LastNaming(groups, contracts[..n], hash)
  }

  /** Every authorization keeps its hash; it goes to the authority selected by the last contract
      that names it, and is untouched when no contract does. */
  lemma {:induction false} RewrittenAt(groups: seq<Group>, height: nat, inputs: seq<AuthorizationInput>,
                                       contracts: seq<ContractInput>, j: nat)
    requires j < |inputs|
    ensures var hash := inputs[j].txBodyHash;
            HandOverAll(groups, height, inputs, contracts)[j] ==
            match LastNaming(groups, contracts, hash)
            case None => inputs[j]
            case Some(contract) => AuthorizationInput(hash, OwnerAuthPublic(hash, Selected(height, contract)))
    decreases |contracts|
  {
    hide HandOver, Selected, LogicalId;
    if contracts != [] { RewrittenAt(groups, height, inputs, contracts[..|contracts| - 1], j); }
  }

  /** Contract `last` names this hash and no later one does. */
  ghost predicate NamesLast(groups: seq<Group>, contracts: seq<ContractInput>, hash: Hash, last: nat) {
    && last < |contracts| && LogicalId(groups, contracts[last].bodyIndex) == Some(hash)
    && forall i :: last < i < |contracts| ==> LogicalId(groups, contracts[i].bodyIndex) != Some(hash)
  }

  lemma {:induction false} LastNamingIs(groups: seq<Group>, contracts: seq<ContractInput>, hash: Hash, k: nat)
    returns (last: nat)
    requires k < |contracts| && LogicalId(groups, contracts[k].bodyIndex) == Some(hash)
    ensures k <= last && NamesLast(groups, contracts, hash, last)
    ensures LastNaming(groups, contracts, hash) == Some(contracts[last])
    decreases |contracts|
  {
    hide LogicalId;
    last := |contracts| - 1;
    if LogicalId(groups, contracts[last].bodyIndex) != Some(hash) {
      var front := contracts[..last];
      last := LastNamingIs(groups, front, hash, k);
      forall i | last < i < |contracts| ensures LogicalId(groups, contracts[i].bodyIndex) != Some(hash) {
        if i < |front| { assert front[i] == contracts[i]; }
      }
    }
  }

  lemma {:induction false} LastNamingNone(groups: seq<Group>, contracts: seq<ContractInput>, hash: Hash)
    requires forall k :: 0 <= k < |contracts| ==> LogicalId(groups, contracts[k].bodyIndex) != Some(hash)
    ensures LastNaming(groups, contracts, hash) == None
  {
    hide LogicalId;
    if contracts != [] { LastNamingNone(groups, contracts[..|contracts| - 1], hash); }
  }

  /** Each contract has a single authorization, which now belongs to the authority its deadline selects
      exactly if the last contract with the same logical id selects that one too. */
  lemma {:induction false} ContractGetsItsAuthority(groups: seq<Group>, height: nat, inputs: seq<AuthorizationInput>,
                                                    contracts: seq<ContractInput>, k: nat)
    returns (g: nat, j: nat, last: nat)
    requires k < |contracts| && ContractOk(groups, inputs, contracts[k])
    ensures FirstHolder(groups, contracts[k].bodyIndex, g) && groups[g].ordinary
    ensures var hash := groups[g].logicalTxid;
            && j < |inputs| && OnlyMatch(inputs, hash, j) && k <= last && NamesLast(groups, contracts, hash, last)
            && (Selected(height, contracts[last]) == Selected(height, contracts[k]) <==>
                HandOverAll(groups, height, inputs, contracts)[j].public
                == OwnerAuthPublic(hash, Selected(height, contracts[k])))
  {
    hide HandOverAll, LastNaming, LogicalId, Selected;
    var hash := LogicalId(groups, contracts[k].bodyIndex).value;
    LogicalIdExact(groups, contracts[k].bodyIndex, hash);
    g :| FirstHolder(groups, contracts[k].bodyIndex, g) && groups[g].ordinary && groups[g].logicalTxid == hash;
    j :| 0 <= j < |inputs| && OnlyMatch(inputs, hash, j);
    RewrittenAt(groups, height, inputs, contracts, j);
    last := LastNamingIs(groups, contracts, hash, k);
  }

  /** Every other authorization is left as it was. */
  lemma {:induction false} OthersUntouched(groups: seq<Group>, height: nat, inputs: seq<AuthorizationInput>,
                                           contracts: seq<ContractInput>, j: nat)
    requires j < |inputs|
    requires forall k :: 0 <= k < |contracts| ==>
               LogicalId(groups, contracts[k].bodyIndex) != Some(inputs[j].txBodyHash)
    ensures HandOverAll(groups, height, inputs, contracts)[j] == inputs[j]
  {
    hide HandOverAll, LastNaming, LogicalId;
    RewrittenAt(groups, height, inputs, contracts, j);
    LastNamingNone(groups, contracts, inputs[j].txBodyHash);
  }
}
