/** Resource limits of a candidate block: page and input counts, then native headers,
    records, settlement actions and the operation family, group by group. */
module CandidateResources {
  import opened Wrappers

  datatype Operation =
    | CreateToken | TransferToken | RedeemToken | TopUpReserve
    | CreateCollection | MintNft | TransferNft | BurnNft
    | Financial(code: nat)

  const SETTLE_POOL: nat := 39
  const SETTLE_LAUNCH: nat := 51
  const SETTLE_LISTING: nat := 71
  const SEQUENTIAL_CODES: set<nat> := {48, 64, 65, 66, 80}

  datatype Phase = Complete | Admission | Settlement

  datatype FinancialConfig = FinancialConfig(phase: Phase, actionCapacity: nat, settlementActionCapacity: nat)

  datatype Config = Config(pages: nat, maxLiveInputs: nat, sequential: bool, financial: Option<FinancialConfig>,
                           headerCapacity: Option<nat>) {
    function ActionCapacity(): Option<nat> {
      match financial
      case Some(f) => Some(f.actionCapacity)
      case None => if headerCapacity.Some? then Some(4 * headerCapacity.value) else None
    }

    function HeaderLimit(): nat {
      if headerCapacity.Some? then headerCapacity.value else 0
    }

    function RecordLimit(): nat {
      if ActionCapacity().Some? then ActionCapacity().value else 0
    }
  }

  /** For every live input and output of a native group, whether it is a native record. */
  datatype NativeFacts = NativeFacts(operation: Operation, inputs: seq<bool>, outputs: seq<bool>)

  datatype Group = Ordinary | Native(facts: NativeFacts)

  datatype Stream =
    | OrdinaryStream(pages: nat, inputs: nat)
    | ScheduledStream(pages: nat, inputs: nat, groups: seq<Group>)

  datatype LimitError =
    | BlockPageLimit(actual: nat, capacity: nat)
    | BlockInputLimit(actual: nat, capacity: nat)
    | OutsideClass
    | OperationFamily
    | SettlementActions(actual: nat, max: nat)
    | FinancialHeaders
    | NativeHeaders(actual: nat, max: nat)
    | NativeRecords(actual: nat, max: nat)

  // ------------------------------------------------------- declarative conditions

  predicate IsSettlement(op: Operation) {
    op.Financial? && (op.code == SETTLE_POOL || op.code == SETTLE_LAUNCH || op.code == SETTLE_LISTING)
  }

  /** Which operations the configuration has room for at all. */
  predicate OperationAllowed(config: Config, op: Operation) {
    && (config.sequential && op.Financial? ==> op.code in SEQUENTIAL_CODES)
    && (match config.financial
        case None => !op.Financial?
        case Some(f) => !(f.phase == Admission && IsSettlement(op)) && !(f.phase == Settlement && !IsSettlement(op)))
  }

  predicate GroupAllowed(config: Config, group: Group) {
    group.Native? ==> OperationAllowed(config, group.facts.operation)
  }

  function Count(flags: seq<bool>): nat {
    if flags == [] then 0 else Count(flags[..|flags| - 1]) + if flags[|flags| - 1] then 1 else 0
  }

  function GroupHeaders(group: Group): nat {
    if group.Native? then 1 else 0
  }

  function GroupRecords(config: Config, group: Group): nat {
    if group.Ordinary? then 0
    else if config.financial.Some? then |group.facts.inputs| + |group.facts.outputs|
    else
      Count(group.facts.inputs) + Count(group.facts.outputs)
      + if group.facts.operation.CreateToken? || group.facts.operation.CreateCollection? then 1 else 0
  }

  function GroupSettlement(config: Config, group: Group): nat {
    if group.Native? && config.financial.Some? && group.facts.operation.Financial?
       && (group.facts.operation.code == SETTLE_POOL || group.facts.operation.code == SETTLE_LAUNCH)
    then |group.facts.inputs| else 0
  }

  datatype Totals = Totals(headers: nat, records: nat, settlement: nat)

  function Add(config: Config, t: Totals, group: Group): Totals {
    Totals(t.headers + GroupHeaders(group), t.records + GroupRecords(config, group),
           t.settlement + GroupSettlement(config, group))
  }

  function Total(config: Config, groups: seq<Group>): Totals {
    if groups == [] then Totals(0, 0, 0) else Add(config, Total(config, groups[..|groups| - 1]), groups[|groups| - 1])
  }

  predicate WithinLimits(config: Config, t: Totals) {
    && t.headers <= config.HeaderLimit()
    && t.records <= config.RecordLimit()
    && (config.financial.Some? ==> 2 * t.settlement <= config.financial.value.settlementActionCapacity)
  }

  predicate CountsFit(config: Config, stream: Stream) {
    stream.pages <= config.pages && stream.inputs <= config.maxLiveInputs
  }

  /** The whole acceptance condition, on totals. */
  ghost predicate Fits(config: Config, stream: Stream) {
    && CountsFit(config, stream)
    && (stream.ScheduledStream? ==>
          && (forall g :: g in stream.groups ==> GroupAllowed(config, g))
          && WithinLimits(config, Total(config, stream.groups)))
  }

  // -------------------------------------------------------------- the validator

  method ValidateCandidateCounts(pages: nat, inputs: nat, config: Config) returns (result: Result<(), LimitError>)
    ensures result.Ok? <==> pages <= config.pages && inputs <= config.maxLiveInputs
  {
    if pages > config.pages {
      return Err(BlockPageLimit(pages, config.pages));
    } else if inputs > config.maxLiveInputs {
      return Err(BlockInputLimit(inputs, config.maxLiveInputs));
    } else {
      return Ok(());
    }
  }

  method CountNative(flags: seq<bool>) returns (count: nat)
    ensures count == Count(flags)
  {
    count := 0;
    for i := 0 to |flags|
      invariant count == Count(flags[..i])
    {
      assert flags[..i + 1][..i] == flags[..i];
      if flags[i] {
        count := count + 1;
      }
    }
    assert flags[..|flags|] == flags;
  }

  /** One native group: the early rejections, and what it adds to the totals. */
  method TakeGroup(config: Config, facts: NativeFacts, before: Totals) returns (result: Result<Totals, LimitError>)
    ensures result.Ok? <==>
            && OperationAllowed(config, facts.operation)
            && (config.financial.Some? ==>
                  2 * Add(config, before, Native(facts)).settlement <= config.financial.value.settlementActionCapacity)
    ensures result.Ok? ==> result.value == Add(config, before, Native(facts))
  {
    hide Count;
    var headers, records, settlement := before.headers, before.records, before.settlement;
    if config.sequential {
      if facts.operation.Financial? && facts.operation.code !in SEQUENTIAL_CODES {
        return Err(OutsideClass);
      }
    }
    headers := headers + 1;
    if config.financial.Some? {
      var financial := config.financial.value;
      var isSettlement := IsSettlement(facts.operation);
      if (financial.phase == Admission && isSettlement) || (financial.phase == Settlement && !isSettlement) {
        return Err(OperationFamily);
      }
      records := records + |facts.inputs| + |facts.outputs|;
      if facts.operation.Financial? && (facts.operation.code == SETTLE_POOL || facts.operation.code == SETTLE_LAUNCH) {
        settlement := settlement + |facts.inputs|;
      }
      if 2 * settlement > financial.settlementActionCapacity {
        return Err(SettlementActions(2 * settlement, financial.settlementActionCapacity));
      }
      return Ok(Totals(headers, records, settlement));
    }
    if facts.operation.Financial? {
      return Err(FinancialHeaders);
    }
    var nativeInputs := CountNative(facts.inputs);
    var nativeOutputs := CountNative(facts.outputs);
    records := records + nativeInputs;
    records := records + nativeOutputs;
    if facts.operation.CreateToken? || facts.operation.CreateCollection? {
      records := records + 1;
    }
    return Ok(Totals(headers, records, settlement));
  }

  lemma {:induction false} TotalStep(config: Config, groups: seq<Group>, i: nat)
    requires i < |groups|
    ensures Total(config, groups[..i + 1]) == Add(config, Total(config, groups[..i]), groups[i])
  {
    assert groups[..i + 1][..i] == groups[..i] && groups[..i + 1][i] == groups[i];
  }

  /** Totals only grow, so rejecting early is rejecting at the end. */
  lemma {:induction false} TotalGrows(config: Config, groups: seq<Group>, n: nat)
    requires n <= |groups|
    ensures Total(config, groups[..n]).headers <= Total(config, groups).headers
    ensures Total(config, groups[..n]).records <= Total(config, groups).records
    ensures Total(config, groups[..n]).settlement <= Total(config, groups).settlement
    decreases |groups| - n
  {
    if n == |groups| {
      assert groups[..n] == groups;
    } else {
      TotalStep(config, groups, n);
      TotalGrows(config, groups, n + 1);
    }
  }

  /** Accepts exactly the streams that fit, although it rejects at the first group that cannot. */
  method ValidateScheduledCandidateResources(stream: Stream, config: Config) returns (result: Result<(), LimitError>)
    ensures result.Ok? <==> Fits(config, stream)
    ensures result.Ok? <==> Acceptable(config, stream)
  {
    hide Total, Add, OperationAllowed, Acceptable;
    FitsExactly(config, stream);
    var counts := ValidateCandidateCounts(stream.pages, stream.inputs, config);
    if counts.Err? || stream.OrdinaryStream? {
      return counts;
    }
    var totals := Totals(0, 0, 0);
    var groups := stream.groups;
    NoGroups(config);
    assert groups[..0] == [];
    for i := 0 to |groups|
      invariant totals == Total(config, groups[..i])
      invariant forall j :: 0 <= j < i ==> GroupAllowed(config, groups[j])
      invariant config.financial.Some? ==> 2 * totals.settlement <= config.financial.value.settlementActionCapacity
    {
      TotalStep(config, groups, i);
      TotalGrows(config, groups, i + 1);
      if groups[i].Native? {
        var taken := TakeGroup(config, groups[i].facts, totals);
        if taken.Err? {
          assert groups[i] in stream.groups;
          return Err(taken.error);
        }
        totals := taken.value;
      } else {
        OrdinaryAddsNothing(config, totals);
      }
    }
    assert groups[..|groups|] == groups;
    if totals.headers > config.HeaderLimit() {
      return Err(NativeHeaders(totals.headers, config.HeaderLimit()));
    }
    if totals.records > config.RecordLimit() {
      return Err(NativeRecords(totals.records, config.RecordLimit()));
    }
    return Ok(());
  }

  lemma {:induction false} NoGroups(config: Config)
    ensures Total(config, []) == Totals(0, 0, 0)
  {
  }

  lemma {:induction false} OrdinaryAddsNothing(config: Config, t: Totals)
    ensures Add(config, t, Ordinary) == t
  {
  }

  // ----------------------------------------------------- the condition, written out

  /** Every live input and output of every native group. */
  ghost function Flags(groups: seq<Group>): seq<bool> {
    if groups == [] then [] else Flags(groups[..|groups| - 1]) + GroupFlags(groups[|groups| - 1])
  }

  /** The inputs of every pool or launch settlement. */
  ghost function SettlementFlags(groups: seq<Group>): seq<bool> {
    if groups == [] then []
    else SettlementFlags(groups[..|groups| - 1]) + GroupSettlementFlags(groups[|groups| - 1])
  }

  ghost function Natives(groups: seq<Group>): set<nat> {
    set i: nat | i < |groups| && groups[i].Native?
  }

  ghost function Creations(groups: seq<Group>): set<nat> {
    set i: nat | i < |groups| && Creates(groups[i])
  }

  lemma {:induction false} CountIsMultiplicity(flags: seq<bool>)
    ensures Count(flags) == multiset(flags)[true]
  {
    if flags != [] {
      CountIsMultiplicity(flags[..|flags| - 1]);
      assert flags == flags[..|flags| - 1] + [flags[|flags| - 1]];
    }
  }

  lemma {:induction false} OneMore(before: set<nat>, more: set<nat>, n: nat, added: bool)
    requires n !in before && more == if added then before + {n} else before
    ensures |more| == |before| + if added then 1 else 0
  {
  }

  lemma {:induction false} IndicesStep(groups: seq<Group>)
    requires groups != []
    ensures var n, last := |groups| - 1, groups[|groups| - 1];
            && |Natives(groups)| == |Natives(groups[..n])| + (if last.Native? then 1 else 0)
            && |Creations(groups)| == |Creations(groups[..n])| + (if Creates(last) then 1 else 0)
  {
    var n, last := |groups| - 1, groups[|groups| - 1];
    OneMore(Natives(groups[..n]), Natives(groups), n, last.Native?);
    OneMore(Creations(groups[..n]), Creations(groups), n, Creates(last));
  }

  lemma {:induction false} MultiplicityAdds(a: seq<bool>, b: seq<bool>)
    ensures multiset(a + b)[true] == multiset(a)[true] + multiset(b)[true]
  {
  }

  ghost predicate Creates(group: Group) {
    group.Native? && group.facts.operation in {CreateToken, CreateCollection}
  }

  ghost function GroupFlags(group: Group): seq<bool> {
    if group.Native? then group.facts.inputs + group.facts.outputs else []
  }

  ghost function GroupSettlementFlags(group: Group): seq<bool> {
    if group.Native? && group.facts.operation in {Financial(39), Financial(51)} then group.facts.inputs else []
  }

  lemma {:induction false} GroupShares(config: Config, group: Group)
    ensures GroupHeaders(group) == if group.Native? then 1 else 0
    ensures config.financial.None? ==>
              && GroupRecords(config, group) == multiset(GroupFlags(group))[true] + (if Creates(group) then 1 else 0)
              && GroupSettlement(config, group) == 0
    ensures config.financial.Some? ==>
              && GroupRecords(config, group) == |GroupFlags(group)|
              && GroupSettlement(config, group) == |GroupSettlementFlags(group)|
  {
    if group.Native? {
      CountIsMultiplicity(group.facts.inputs);
      CountIsMultiplicity(group.facts.outputs);
      MultiplicityAdds(group.facts.inputs, group.facts.outputs);
    }
  }

  /** Without a financial configuration the records are the native flags and one for every creation; with one
      they are all live inputs and outputs. */
  lemma {:induction false} TotalsAre(config: Config, groups: seq<Group>)
    ensures Total(config, groups).headers == |Natives(groups)|
    ensures config.financial.None? ==>
              && Total(config, groups).records == multiset(Flags(groups))[true] + |Creations(groups)|
              && Total(config, groups).settlement == 0
    ensures config.financial.Some? ==>
              && Total(config, groups).records == |Flags(groups)|
              && Total(config, groups).settlement == |SettlementFlags(groups)|
    decreases |groups|
  {
    if groups == [] {
      assert Natives(groups) == {} && Creations(groups) == {};
    } else {
      hide Natives, Creations, GroupHeaders, GroupRecords, GroupSettlement, GroupFlags, GroupSettlementFlags, Creates;
      var front, last := groups[..|groups| - 1], groups[|groups| - 1];
      TotalsAre(config, front);
      IndicesStep(groups);
      GroupShares(config, last);
      MultiplicityAdds(Flags(front), GroupFlags(last));
    }
  }

  /** Which operations pass, by code. */
  ghost predicate Permitted(config: Config, op: Operation) {
    match op
    case Financial(code) =>
      && (config.sequential ==> code in {48, 64, 65, 66, 80})
      && config.financial.Some?
      && (config.financial.value.phase == Admission ==> code !in {39, 51, 71})
      && (config.financial.value.phase == Settlement ==> code in {39, 51, 71})
    case _ => config.financial.Some? ==> config.financial.value.phase != Settlement
  }

  /** The whole acceptance condition over the stream itself. */
  ghost predicate Acceptable(config: Config, stream: Stream) {
    && stream.pages <= config.pages && stream.inputs <= config.maxLiveInputs
    && (stream.ScheduledStream? ==>
          && (forall i :: 0 <= i < |stream.groups| && stream.groups[i].Native? ==>
                Permitted(config, stream.groups[i].facts.operation))
          && |Natives(stream.groups)| <= (if config.headerCapacity.Some? then config.headerCapacity.value else 0)
          && match config.financial
             case Some(f) =>
               && |Flags(stream.groups)| <= f.actionCapacity
               && 2 * |SettlementFlags(stream.groups)| <= f.settlementActionCapacity
             case None =>
               multiset(Flags(stream.groups))[true] + |Creations(stream.groups)|
               <= if config.headerCapacity.Some? then 4 * config.headerCapacity.value else 0)
  }

  lemma {:induction false} FitsExactly(config: Config, stream: Stream)
    ensures Fits(config, stream) <==> Acceptable(config, stream)
  {
    hide Total, Flags, SettlementFlags, Natives, Creations;
    if stream.ScheduledStream? {
      TotalsAre(config, stream.groups);
      forall op ensures OperationAllowed(config, op) <==> Permitted(config, op) {
        PermittedIs(config, op);
      }
      forall i | 0 <= i < |stream.groups| ensures stream.groups[i] in stream.groups {
      }
    }
  }

  lemma {:induction false} PermittedIs(config: Config, op: Operation)
    ensures OperationAllowed(config, op) <==> Permitted(config, op)
  {
  }

  // ------------------------------------------------------------ order and removal

  /** Taking one group out of a list takes its share out of the totals. */
  lemma {:induction false} TotalWithout(config: Config, groups: seq<Group>, k: nat)
    requires k < |groups|
    ensures Total(config, groups) == Add(config, Total(config, groups[..k] + groups[k + 1..]), groups[k])
    decreases |groups|
  {
    hide GroupHeaders, GroupRecords, GroupSettlement;
    var n := |groups| - 1;
    if k == n {
      assert groups[..k] + groups[k + 1..] == groups[..n];
    } else {
      var front := groups[..n];
      TotalWithout(config, front, k);
      var rest := groups[..k] + groups[k + 1..];
      assert rest[..n - 1] == front[..k] + front[k + 1..] && rest[n - 1] == groups[n];
    }
  }

  lemma {:induction false} BothWithout(some: seq<Group>, all: seq<Group>, k: nat)
    requires some != [] && multiset(some) <= multiset(all) && k < |all| && all[k] == some[|some| - 1]
    ensures multiset(some[..|some| - 1]) <= multiset(all[..k] + all[k + 1..])
  {
    var front, last, rest := some[..|some| - 1], all[k], all[..k] + all[k + 1..];
    assert some == front + [last];
    assert multiset(some) == multiset(front) + multiset{last};
    assert all == all[..k] + [last] + all[k + 1..];
    assert multiset(all) == multiset(rest) + multiset{last};
    forall g ensures multiset(front)[g] <= multiset(rest)[g] {
      assert multiset(some)[g] <= multiset(all)[g];
    }
  }

  /** Fewer groups, in any order, never total more. */
  lemma {:induction false} TotalOfFewer(config: Config, some: seq<Group>, all: seq<Group>)
    requires multiset(some) <= multiset(all)
    ensures Total(config, some).headers <= Total(config, all).headers
    ensures Total(config, some).records <= Total(config, all).records
    ensures Total(config, some).settlement <= Total(config, all).settlement
    decreases |some|
  {
    hide GroupHeaders, GroupRecords, GroupSettlement;
    if some != [] {
      var n := |some| - 1;
      var last := some[n];
      assert last in multiset(some) && last in multiset(all);
      var k :| 0 <= k < |all| && all[k] == last;
      BothWithout(some, all, k);
      TotalOfFewer(config, some[..n], all[..k] + all[k + 1..]);
      TotalWithout(config, all, k);
    }
  }

  /** Removing groups keeps a stream acceptable. */
  lemma {:induction false} RemovalKeepsFit(config: Config, pages: nat, inputs: nat, some: seq<Group>, all: seq<Group>)
    requires multiset(some) <= multiset(all) && Fits(config, ScheduledStream(pages, inputs, all))
    ensures Fits(config, ScheduledStream(pages, inputs, some))
  {
    hide Total, GroupAllowed;
    TotalOfFewer(config, some, all);
    forall g | g in some ensures GroupAllowed(config, g) {
      assert g in multiset(all);
    }
  }

  /** For fixed page and input counts, the order of the groups does not matter. */
  lemma {:induction false} OrderDoesNotMatter(config: Config, pages: nat, inputs: nat, a: seq<Group>, b: seq<Group>)
    requires multiset(a) == multiset(b)
    ensures Fits(config, ScheduledStream(pages, inputs, a)) <==> Fits(config, ScheduledStream(pages, inputs, b))
  {
    hide Fits;
    if Fits(config, ScheduledStream(pages, inputs, a)) { RemovalKeepsFit(config, pages, inputs, b, a); }
    if Fits(config, ScheduledStream(pages, inputs, b)) { RemovalKeepsFit(config, pages, inputs, a, b); }
  }
}
