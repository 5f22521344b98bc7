/** Matching owner capsules to the policies of a trade batch. Computing a policy's
    authorization id and checking one capsule are parameters. */
module TradeAuthorization {
  import opened Wrappers

  type Id(==, 0, !new)
  type Policy(==, 0, !new)
  type Bundle(==, 0, !new)

  datatype Capsule = Capsule(id: Id, bundle: Bundle)
  datatype TradePreparationError = AuthorizationSet | Authorization
  datatype Verifier = Verifier(idOf: Policy -> Option<Id>, verifies: (Policy, Bundle) -> bool)

  type Verdict = Result<seq<Capsule>, TradePreparationError>

  // -------------------------------------------------------------- keyed capsules

  /** The capsules by id; `None` when an id occurs twice. */
  function Keyed(capsules: seq<Capsule>): Option<map<Id, Capsule>> {
    if capsules == [] then Some(map[])
    else
      var last := capsules[|capsules| - 1];
      match Keyed(capsules[..|capsules| - 1])
      case None => None
      case Some(keyed) => if last.id in keyed then None else Some(keyed[last.id := last])
  }

  ghost predicate DistinctIds(capsules: seq<Capsule>) {
    forall i, j :: 0 <= i < j < |capsules| ==> capsules[i].id != capsules[j].id
  }

  ghost predicate Indexes(keyed: map<Id, Capsule>, capsules: seq<Capsule>) {
    && (forall k :: k in keyed ==> keyed[k].id == k && keyed[k] in capsules)
    && (forall c :: c in capsules ==> c.id in keyed && keyed[c.id] == c)
    && |keyed| == |capsules|
  }

  lemma {:induction false} KeyedExact(capsules: seq<Capsule>)
    ensures Keyed(capsules).Some? <==> DistinctIds(capsules)
    ensures Keyed(capsules).Some? ==> Indexes(Keyed(capsules).value, capsules)
  {
    if capsules != [] {
      hide DistinctIds, Indexes;
      var n := |capsules| - 1;
      var front, last := capsules[..n], capsules[n];
      KeyedExact(front);
      assert capsules == front + [last];
      DistinctFront(front, last);
      if Keyed(front).Some? {
        var keyed := Keyed(front).value;
        if last.id in keyed {
          RepeatedId(keyed, front, last);
        } else {
          InsertIndexes(keyed, front, last);
        }
      }
    }
  }

  lemma {:induction false} DistinctFront(front: seq<Capsule>, last: Capsule)
    ensures DistinctIds(front + [last]) ==> DistinctIds(front)
  {
    assert forall i :: 0 <= i < |front| ==> (front + [last])[i] == front[i];
  }

  lemma {:induction false} RepeatedId(keyed: map<Id, Capsule>, front: seq<Capsule>, last: Capsule)
    requires Indexes(keyed, front) && last.id in keyed
    ensures !DistinctIds(front + [last])
  {
    assert keyed[last.id] in front;
    var i :| 0 <= i < |front| && front[i] == keyed[last.id];
    var all := front + [last];
    assert all[i].id == all[|front|].id;
  }

  lemma {:induction false} InsertIndexes(keyed: map<Id, Capsule>, front: seq<Capsule>, last: Capsule)
    requires Indexes(keyed, front) && DistinctIds(front) && last.id !in keyed
    ensures Indexes(keyed[last.id := last], front + [last]) && DistinctIds(front + [last])
  {
    var all := front + [last];
    forall c | c in all ensures c.id in keyed[last.id := last] && keyed[last.id := last][c.id] == c {
    }
    forall i, j | 0 <= i < j < |all| ensures all[i].id != all[j].id {
      if j == |front| { assert all[i] in front; }
    }
  }

  // --------------------------------------------------- order does not matter yet

  lemma {:induction false} PairCounts(s: seq<Capsule>, i: nat, j: nat)
    requires i < j < |s| && s[i] == s[j]
    ensures multiset(s)[s[i]] >= 2
  {
    assert s == s[..i] + [s[i]] + s[i + 1..j] + [s[j]] + s[j + 1..];
  }

  lemma {:induction false} CountsAtMostOne(s: seq<Capsule>, x: Capsule)
    requires DistinctIds(s)
    ensures multiset(s)[x] <= 1
  {
    if s != [] {
      var front, last := s[..|s| - 1], s[|s| - 1];
      assert s == front + [last];
      CountsAtMostOne(front, x);
      if x == last { assert forall i :: 0 <= i < |front| ==> front[i] == s[i]; }
    }
  }

  ghost predicate UniqueIds(bag: multiset<Capsule>) {
    && (forall x :: bag[x] <= 1)
    && (forall x, y :: x in bag && y in bag && x.id == y.id ==> x == y)
  }

  /** Whether ids repeat is a property of the collection, not of its order. */
  lemma {:induction false} DistinctIsUnordered(s: seq<Capsule>)
    ensures DistinctIds(s) <==> UniqueIds(multiset(s))
  {
    if DistinctIds(s) {
      forall x ensures multiset(s)[x] <= 1 { CountsAtMostOne(s, x); }
      forall x, y | x in multiset(s) && y in multiset(s) && x.id == y.id ensures x == y {
        var i :| 0 <= i < |s| && s[i] == x;
        var j :| 0 <= j < |s| && s[j] == y;
      }
    } else {
      var i, j :| 0 <= i < j < |s| && s[i].id == s[j].id;
      assert s[i] in multiset(s) && s[j] in multiset(s);
      if s[i] == s[j] { PairCounts(s, i, j); }
    }
  }

  lemma {:induction false} KeyedUnordered(a: seq<Capsule>, b: seq<Capsule>)
    requires multiset(a) == multiset(b)
    ensures Keyed(a) == Keyed(b)
  {
    KeyedExact(a);
    KeyedExact(b);
    DistinctIsUnordered(a);
    DistinctIsUnordered(b);
    hide Keyed, DistinctIds, UniqueIds;
    if Keyed(a).Some? {
      var ka, kb := Keyed(a).value, Keyed(b).value;
      forall k | k in ka ensures k in kb && ka[k] == kb[k] {
        assert ka[k] in multiset(a);
      }
      forall k | k in kb ensures k in ka {
        assert kb[k] in multiset(b);
      }
      assert ka == kb;
    }
  }

  // ---------------------------------------------------------------- policy order

  /** Take the capsule of every policy in turn. */
  function Scan(v: Verifier, policies: seq<Policy>, keyed: map<Id, Capsule>): Verdict
    decreases |policies|
  {
    if policies == [] then Ok([])
    else
      var id := v.idOf(policies[0]);
      if id.None? || id.value !in keyed then Err(AuthorizationSet)
      else if !v.verifies(policies[0], keyed[id.value].bundle) then Err(Authorization)
      else
        match Scan(v, policies[1..], keyed - {id.value})
        case Err(error) => Err(error)
        case Ok(rest) => Ok([keyed[id.value]] + rest)
  }

  /** Length, keys, then the policies in order. */
  function Verify(v: Verifier, policies: seq<Policy>, capsules: seq<Capsule>): Verdict {
    if |capsules| != |policies| then Err(AuthorizationSet)
    else
      match Keyed(capsules)
      case None => Err(AuthorizationSet)
      case Some(keyed) => Scan(v, policies, keyed)
  }

  /** The verdict, output and error alike, does not depend on the order of the capsules. */
  lemma {:induction false} VerifyUnordered(v: Verifier, policies: seq<Policy>, a: seq<Capsule>, b: seq<Capsule>)
    requires multiset(a) == multiset(b)
    ensures Verify(v, policies, a) == Verify(v, policies, b)
  {
    hide Keyed, Scan;
    KeyedUnordered(a, b);
    assert |a| == |multiset(a)| && |b| == |multiset(b)|;
  }

  // -------------------------------------------------- what acceptance amounts to

  /** Capsule `c` answers policy `p`. */
  ghost predicate Answers(v: Verifier, p: Policy, c: Capsule) {
    v.idOf(p) == Some(c.id) && v.verifies(p, c.bundle)
  }

  ghost predicate DistinctPolicies(v: Verifier, policies: seq<Policy>) {
    forall i, j :: 0 <= i < j < |policies| ==> v.idOf(policies[i]) != v.idOf(policies[j])
  }

  /** Every policy has an id, all different, and the capsule filed under it answers it. */
  ghost predicate Served(v: Verifier, policies: seq<Policy>, keyed: map<Id, Capsule>) {
    && (forall i :: 0 <= i < |policies| ==>
                      && v.idOf(policies[i]).Some? && v.idOf(policies[i]).value in keyed
                      && v.verifies(policies[i], keyed[v.idOf(policies[i]).value].bundle))
    && DistinctPolicies(v, policies)
  }

  ghost predicate Takes(v: Verifier, policies: seq<Policy>, keyed: map<Id, Capsule>, out: seq<Capsule>) {
    && |out| == |policies|
    && forall i :: 0 <= i < |out| ==>
                     && v.idOf(policies[i]).Some? && v.idOf(policies[i]).value in keyed
                     && out[i] == keyed[v.idOf(policies[i]).value]
  }

  lemma {:induction false} ServedFirst(v: Verifier, policies: seq<Policy>, keyed: map<Id, Capsule>, id: Id)
    requires policies != [] && v.idOf(policies[0]) == Some(id) && id in keyed
    requires v.verifies(policies[0], keyed[id].bundle)
    ensures Served(v, policies, keyed) <==> Served(v, policies[1..], keyed - {id})
  {
    var rest := policies[1..];
    assert forall i :: 0 <= i < |rest| ==> rest[i] == policies[i + 1];
    if Served(v, policies, keyed) {
      forall i | 0 <= i < |rest| ensures v.idOf(rest[i]).Some? && v.idOf(rest[i]).value in keyed - {id} {
        assert v.idOf(policies[0]) != v.idOf(policies[i + 1]);
      }
      forall i, j | 0 <= i < j < |rest| ensures v.idOf(rest[i]) != v.idOf(rest[j]) {
        assert v.idOf(policies[i + 1]) != v.idOf(policies[j + 1]);
      }
    }
    if Served(v, rest, keyed - {id}) {
      forall i | 0 <= i < |policies|
        ensures v.idOf(policies[i]).Some? && v.idOf(policies[i]).value in keyed
        ensures v.verifies(policies[i], keyed[v.idOf(policies[i]).value].bundle)
      {
        if i > 0 { assert rest[i - 1] == policies[i]; }
      }
      forall i, j | 0 <= i < j < |policies| ensures v.idOf(policies[i]) != v.idOf(policies[j]) {
        assert rest[j - 1] == policies[j];
        if i > 0 { assert rest[i - 1] == policies[i]; }
      }
    }
  }

  lemma {:induction false} ScanExact(v: Verifier, policies: seq<Policy>, keyed: map<Id, Capsule>)
    ensures Scan(v, policies, keyed).Ok? <==> Served(v, policies, keyed)
    ensures Scan(v, policies, keyed).Ok? ==> Takes(v, policies, keyed, Scan(v, policies, keyed).value)
    decreases |policies|
  {
    if policies != [] {
      var id := v.idOf(policies[0]);
      if id.Some? && id.value in keyed && v.verifies(policies[0], keyed[id.value].bundle) {
        ServedFirst(v, policies, keyed, id.value);
        ScanExact(v, policies[1..], keyed - {id.value});
        hide Served;
        assert forall i :: 0 <= i < |policies| - 1 ==> policies[1..][i] == policies[i + 1];
      }
    }
  }

  /** As many capsules as policies: after the last policy nothing is left over. */
  function Leftover(v: Verifier, policies: seq<Policy>, keyed: map<Id, Capsule>): map<Id, Capsule>
    decreases |policies|
  {
    if policies == [] then keyed
    else
      var id := v.idOf(policies[0]);
      if id.None? then keyed else Leftover(v, policies[1..], keyed - {id.value})
  }

  lemma {:induction false} LeftoverSize(v: Verifier, policies: seq<Policy>, keyed: map<Id, Capsule>)
    requires Scan(v, policies, keyed).Ok?
    ensures |Leftover(v, policies, keyed)| == |keyed| - |policies|
    ensures forall k :: k in keyed ==>
              k in Leftover(v, policies, keyed) || exists i :: 0 <= i < |policies| && v.idOf(policies[i]) == Some(k)
    decreases |policies|
  {
    if policies != [] {
      var id := v.idOf(policies[0]).value;
      LeftoverSize(v, policies[1..], keyed - {id});
      forall k | k in keyed && k !in Leftover(v, policies, keyed)
        ensures exists i :: 0 <= i < |policies| && v.idOf(policies[i]) == Some(k)
      {
        if k == id {
          assert v.idOf(policies[0]) == Some(k);
        } else {
          var i :| 0 <= i < |policies[1..]| && v.idOf(policies[1..][i]) == Some(k);
          assert v.idOf(policies[i + 1]) == Some(k);
        }
      }
    }
  }

  /** Ids of policies and capsules are in one-to-one correspondence and every pair verifies. */
  ghost predicate InBijection(v: Verifier, policies: seq<Policy>, capsules: seq<Capsule>) {
    && |capsules| == |policies|
    && DistinctIds(capsules)
    && DistinctPolicies(v, policies)
    && forall i :: 0 <= i < |policies| ==> exists c :: c in capsules && Answers(v, policies[i], c)
  }

  lemma {:induction false} ServedIsBijection(v: Verifier, policies: seq<Policy>, capsules: seq<Capsule>, keyed: map<Id,
                                             Capsule>)
    requires Indexes(keyed, capsules) && DistinctIds(capsules) && |capsules| == |policies|
    ensures Served(v, policies, keyed) <==> InBijection(v, policies, capsules)
  {
    hide DistinctIds, DistinctPolicies;
    if Served(v, policies, keyed) {
      forall i | 0 <= i < |policies| ensures exists c :: c in capsules && Answers(v, policies[i], c) {
        var c := keyed[v.idOf(policies[i]).value];
        assert c in capsules && Answers(v, policies[i], c);
      }
    }
    if InBijection(v, policies, capsules) {
      forall i | 0 <= i < |policies|
        ensures v.idOf(policies[i]).Some? && v.idOf(policies[i]).value in keyed
        ensures v.verifies(policies[i], keyed[v.idOf(policies[i]).value].bundle)
      {
        var c :| c in capsules && Answers(v, policies[i], c);
      }
    }
  }

  /** Success means exactly a bijection whose pairs verify. */
  lemma {:induction false} VerifyExact(v: Verifier, policies: seq<Policy>, capsules: seq<Capsule>)
    ensures Verify(v, policies, capsules).Ok? <==> InBijection(v, policies, capsules)
  {
    hide Keyed, Scan, Indexes, DistinctIds, Served, DistinctPolicies, Answers;
    KeyedExact(capsules);
    if |capsules| == |policies| && Keyed(capsules).Some? {
      var keyed := Keyed(capsules).value;
      ScanExact(v, policies, keyed);
      ServedIsBijection(v, policies, capsules, keyed);
    }
  }

  lemma {:induction false} TakenIsPermutation(v: Verifier, policies: seq<Policy>, capsules: seq<Capsule>, keyed: map<Id,
                                              Capsule>, out: seq<Capsule>)
    requires Indexes(keyed, capsules) && DistinctIds(capsules) && DistinctPolicies(v, policies)
    requires Takes(v, policies, keyed, out)
    requires forall k :: k in keyed ==> exists i :: 0 <= i < |policies| && v.idOf(policies[i]) == Some(k)
    ensures multiset(out) == multiset(capsules)
  {
    assert DistinctIds(out) by {
      forall i, j | 0 <= i < j < |out| ensures out[i].id != out[j].id {
        assert v.idOf(policies[i]) != v.idOf(policies[j]);
      }
    }
    forall x ensures x in out <==> x in capsules {
      if x in capsules {
        var i :| 0 <= i < |policies| && v.idOf(policies[i]) == Some(x.id);
        assert out[i] == x;
      }
    }
    SameBag(out, capsules);
  }

  lemma {:induction false} SameBag(a: seq<Capsule>, b: seq<Capsule>)
    requires DistinctIds(a) && DistinctIds(b) && forall x :: x in a <==> x in b
    ensures multiset(a) == multiset(b)
  {
    forall x ensures multiset(a)[x] == multiset(b)[x] {
      CountsAtMostOne(a, x);
      CountsAtMostOne(b, x);
      assert x in a <==> x in multiset(a);
      assert x in b <==> x in multiset(b);
    }
  }

  /** The accepted capsules are the supplied ones in policy order, each answering its policy,
      and no capsule is left over although nothing checks for that. */
  lemma {:induction false} VerifyOutput(v: Verifier, policies: seq<Policy>, capsules: seq<Capsule>)
    requires Verify(v, policies, capsules).Ok?
    ensures var out := Verify(v, policies, capsules).value;
            && |out| == |policies|
            && (forall i :: 0 <= i < |out| ==> Answers(v, policies[i], out[i]))
            && multiset(out) == multiset(capsules)
    ensures Keyed(capsules).Some? && Leftover(v, policies, Keyed(capsules).value) == map[]
  {
    hide Keyed, Scan, DistinctIds, DistinctPolicies, Leftover;
    KeyedExact(capsules);
    var keyed := Keyed(capsules).value;
    var out := Verify(v, policies, capsules).value;
    ScanExact(v, policies, keyed);
    LeftoverSize(v, policies, keyed);
    assert |Leftover(v, policies, keyed)| == 0;
    TakenIsPermutation(v, policies, capsules, keyed, out);
  }

  // ------------------------------------------------------------------ the method

  /** Files the capsules by id, then takes them out again in policy order. `leftover` is the
      map as the method leaves it. */
  method VerifyAuthorizations(v: Verifier, policies: seq<Policy>, supplied: seq<Capsule>)
    returns (result: Verdict, ghost leftover: map<Id, Capsule>)
    ensures result == Verify(v, policies, supplied)
    ensures result.Ok? ==> leftover == map[]
  {
    hide Scan, Keyed, Leftover;
    leftover := map[];
    if |supplied| != |policies| {
      return Err(AuthorizationSet), leftover;
    }
    var keyed: map<Id, Capsule> := map[];
    KeyedNone();
    assert supplied[..0] == [];
    for i := 0 to |supplied|
      invariant Keyed(supplied[..i]) == Some(keyed)
    {
      var capsule := supplied[i];
      KeyedStep(supplied, i);
      if capsule.id in keyed {
        KeyedFails(supplied, i + 1);
        return Err(AuthorizationSet), leftover;
      }
      keyed := keyed[capsule.id := capsule];
    }
    assert supplied[..|supplied|] == supplied;
    ghost var whole, filed := Scan(v, policies, keyed), keyed;
    var capsules := [];
    assert policies[0..] == policies;
    Resume(capsules, whole);
    for i := 0 to |policies|
      invariant whole == Prepend(capsules, Scan(v, policies[i..], keyed))
      invariant Leftover(v, policies, filed) == Leftover(v, policies[i..], keyed)
    {
      ScanStep(v, policies, i, keyed);
      LeftoverStep(v, policies, i, keyed);
      var id := v.idOf(policies[i]);
      if id.None? || id.value !in keyed {
        return Err(AuthorizationSet), leftover;
      }
      var capsule := keyed[id.value];
      keyed := keyed - {id.value};
      if !v.verifies(policies[i], capsule.bundle) {
        return Err(Authorization), leftover;
      }
      PrependMore(capsules, capsule, Scan(v, policies[i + 1..], keyed));
      capsules := capsules + [capsule];
    }
    ScanNone(v, keyed);
    assert policies[|policies|..] == [] && capsules + [] == capsules;
    VerifyOutput(v, policies, supplied);
    leftover := keyed;
    return Ok(capsules), leftover;
  }

  ghost function Prepend(front: seq<Capsule>, rest: Verdict): Verdict {
    match rest
    case Err(error) => Err(error)
    case Ok(capsules) => Ok(front + capsules)
  }

  lemma {:induction false} Resume(front: seq<Capsule>, rest: Verdict)
    requires front == []
    ensures Prepend(front, rest) == rest
  {
    if rest.Ok? { assert front + rest.value == rest.value; }
  }

  lemma {:induction false} PrependMore(front: seq<Capsule>, next: Capsule, rest: Verdict)
    ensures Prepend(front, Prepend([next], rest)) == Prepend(front + [next], rest)
  {
    if rest.Ok? { assert front + ([next] + rest.value) == front + [next] + rest.value; }
  }

  lemma {:induction false} ScanStep(v: Verifier, policies: seq<Policy>, i: nat, keyed: map<Id, Capsule>)
    requires i < |policies|
    ensures var id := v.idOf(policies[i]);
            Scan(v, policies[i..], keyed) ==
            if id.None? || id.value !in keyed then Err(AuthorizationSet)
            else if !v.verifies(policies[i], keyed[id.value].bundle) then Err(Authorization)
            else Prepend([keyed[id.value]], Scan(v, policies[i + 1..], keyed - {id.value}))
  {
    assert policies[i..][0] == policies[i] && policies[i..][1..] == policies[i + 1..];
  }

  lemma {:induction false} LeftoverStep(v: Verifier, policies: seq<Policy>, i: nat, keyed: map<Id, Capsule>)
    requires i < |policies|
    ensures v.idOf(policies[i]).Some? ==>
              Leftover(v, policies[i..], keyed) == Leftover(v, policies[i + 1..], keyed - {v.idOf(policies[i]).value})
  {
    assert policies[i..][0] == policies[i] && policies[i..][1..] == policies[i + 1..];
  }

  lemma {:induction false} ScanNone(v: Verifier, keyed: map<Id, Capsule>)
    ensures Scan(v, [], keyed) == Ok([]) && Leftover(v, [], keyed) == keyed
  {
  }

  lemma {:induction false} KeyedNone()
    ensures Keyed([]) == Some(map[])
  {
  }

  lemma {:induction false} KeyedStep(capsules: seq<Capsule>, i: nat)
    requires i < |capsules|
    ensures Keyed(capsules[..i + 1]) ==
            match Keyed(capsules[..i])
            case None => None
            case Some(keyed) => if capsules[i].id in keyed then None else Some(keyed[capsules[i].id := capsules[i]])
  {
    assert capsules[..i + 1][..i] == capsules[..i] && capsules[..i + 1][i] == capsules[i];
  }

  lemma {:induction false} KeyedFails(capsules: seq<Capsule>, n: nat)
    requires n <= |capsules| && Keyed(capsules[..n]).None?
    ensures Keyed(capsules).None?
    decreases |capsules| - n
  {
    if n == |capsules| {
      assert capsules[..n] == capsules;
    } else {
      KeyedStep(capsules, n);
      KeyedFails(capsules, n + 1);
    }
  }
}
