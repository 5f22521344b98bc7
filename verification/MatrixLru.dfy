/** The pinned matrix source: a recency deque of at most two admitted matrices. */
module MatrixLru {
  import opened Wrappers

  const MATRIX_CACHE_CAPACITY: nat := 2

  type ClassId = nat
  type Matrix(==, 0, !new)
  type Deque = seq<(ClassId, Matrix)>

  // ------------------------------------------------------------- specification

  function Ids(cache: Deque): (ids: seq<ClassId>)
    ensures |ids| == |cache|
  {
    if cache == [] then [] else Ids(cache[..|cache| - 1]) + [cache[|cache| - 1].0]
  }

  lemma {:induction false} IdsAt(cache: Deque)
    ensures forall i :: 0 <= i < |cache| ==> Ids(cache)[i] == cache[i].0
  {
    if cache != [] { IdsAt(cache[..|cache| - 1]); }
  }

  ghost predicate Distinct(ids: seq<ClassId>) {
    forall i, j :: 0 <= i < j < |ids| ==> ids[i] != ids[j]
  }

  function Without<T(==)>(xs: seq<T>, x: T): seq<T> {
    if xs == [] then []
    else if xs[|xs| - 1] == x then Without(xs[..|xs| - 1], x)
    else Without(xs[..|xs| - 1], x) + [xs[|xs| - 1]]
  }

  function Newest<T>(xs: seq<T>, k: nat): seq<T> {
    if |xs| <= k then xs else xs[|xs| - k..]
  }

  /** The most recent distinct classes of a history of loads, at most `capacity` of
      them, oldest first. */
  function Recent(loads: seq<ClassId>, capacity: nat): seq<ClassId>
    decreases capacity
  {
    if loads == [] || capacity == 0 then []
    else
      var last := loads[|loads| - 1];
      Recent(Without(loads, last), capacity - 1) + [last]
  }

  /** How a load moves the ids: to the back, with the oldest falling off the front. */
  function Touch(ids: seq<ClassId>, c: ClassId, capacity: nat): seq<ClassId> {
    if c in ids then Without(ids, c) + [c] else Newest(ids + [c], capacity)
  }

  lemma {:induction false} WithoutSnoc(xs: seq<ClassId>, last: ClassId, c: ClassId)
    ensures Without(xs + [last], c) == if last == c then Without(xs, c) else Without(xs, c) + [last]
  {
    assert (xs + [last])[..|xs|] == xs;
  }

  lemma {:induction false} WithoutAbsent(xs: seq<ClassId>, c: ClassId)
    requires c !in xs
    ensures Without(xs, c) == xs
  {
    if xs != [] {
      WithoutAbsent(xs[..|xs| - 1], c);
      assert xs == xs[..|xs| - 1] + [xs[|xs| - 1]];
    }
  }

  lemma {:induction false} WithoutMembers(xs: seq<ClassId>, c: ClassId)
    ensures forall x :: x in Without(xs, c) <==> x in xs && x != c
  {
    if xs != [] {
      WithoutMembers(xs[..|xs| - 1], c);
      assert xs == xs[..|xs| - 1] + [xs[|xs| - 1]];
    }
  }

  lemma {:induction false} WithoutCommutes(xs: seq<ClassId>, a: ClassId, b: ClassId)
    ensures Without(Without(xs, a), b) == Without(Without(xs, b), a)
  {
    if xs != [] {
      var front, last := xs[..|xs| - 1], xs[|xs| - 1];
      WithoutCommutes(front, a, b);
      WithoutSnoc(Without(front, a), last, b);
      WithoutSnoc(Without(front, b), last, a);
    }
  }

  lemma {:induction false} RecentShape(loads: seq<ClassId>, capacity: nat)
    ensures |Recent(loads, capacity)| <= capacity
    ensures forall c :: c in Recent(loads, capacity) ==> c in loads
    decreases capacity
  {
    if loads != [] && capacity > 0 {
      var last := loads[|loads| - 1];
      RecentShape(Without(loads, last), capacity - 1);
      WithoutMembers(loads, last);
    }
  }

  /** Drop one class; when it is not there, drop the oldest beyond `k`. */
  function Forget(ids: seq<ClassId>, c: ClassId, k: nat): seq<ClassId> {
    if c in ids then Without(ids, c) else Newest(ids, k)
  }

  lemma {:induction false} ForgetSnoc(ids: seq<ClassId>, last: ClassId, c: ClassId, k: nat)
    requires last != c
    ensures Forget(ids + [last], c, k + 1) == Forget(ids, c, k) + [last]
  {
    WithoutSnoc(ids, last, c);
    NewestSnoc(ids, last, k);
    hide Without, Newest;
    assert c in ids + [last] <==> c in ids;
  }

  lemma {:induction false} RecentUnfolds(loads: seq<ClassId>, last: ClassId, capacity: nat)
    requires loads != [] && loads[|loads| - 1] == last && capacity >= 1
    ensures Recent(loads, capacity) == Recent(Without(loads, last), capacity - 1) + [last]
  {
  }

  lemma {:induction false} ForgetLast(loads: seq<ClassId>, capacity: nat, c: ClassId)
    requires loads != [] && loads[|loads| - 1] == c && capacity >= 1
    ensures Forget(Recent(loads, capacity), c, capacity - 1) == Recent(Without(loads, c), capacity - 1)
  {
    hide Without, Recent, Newest;
    RecentUnfolds(loads, c, capacity);
    var inner := Recent(Without(loads, c), capacity - 1);
    WithoutMembers(loads, c);
    RecentShape(Without(loads, c), capacity - 1);
    WithoutSnoc(inner, c, c);
    WithoutAbsent(inner, c);
  }

  /** Forgetting one class: what remains are the newest of the others. */
  lemma {:induction false} RecentWithout(loads: seq<ClassId>, capacity: nat, c: ClassId)
    requires capacity >= 1
    ensures Forget(Recent(loads, capacity), c, capacity - 1) == Recent(Without(loads, c), capacity - 1)
    decreases capacity
  {
    hide Without, Newest, Recent, Forget;
    if loads == [] {
      RecentOfNothing(capacity, c);
    } else if loads[|loads| - 1] == c {
      ForgetLast(loads, capacity, c);
    } else if capacity == 1 {
      RecentOfOne(loads, c);
    } else {
      var last := loads[|loads| - 1];
      var rest := Without(loads, last);
      RecentUnfolds(loads, last, capacity);
      LastSurvives(loads, c);
      RecentUnfolds(Without(loads, c), last, capacity - 1);
      WithoutCommutes(loads, last, c);
      RecentWithout(rest, capacity - 1, c);
      ForgetSnoc(Recent(rest, capacity - 1), last, c, capacity - 2);
    }
  }

  lemma {:induction false} RecentOfNothing(capacity: nat, c: ClassId)
    requires capacity >= 1
    ensures Forget(Recent([], capacity), c, capacity - 1) == Recent(Without([], c), capacity - 1) == []
  {
  }

  lemma {:induction false} RecentOfOne(loads: seq<ClassId>, c: ClassId)
    requires loads != [] && loads[|loads| - 1] != c
    ensures Forget(Recent(loads, 1), c, 0) == Recent(Without(loads, c), 0)
  {
    RecentUnfolds(loads, loads[|loads| - 1], 1);
    hide Without;
    assert Recent(loads, 1) == [] + [loads[|loads| - 1]];
  }

  lemma {:induction false} LastSurvives(loads: seq<ClassId>, c: ClassId)
    requires loads != [] && loads[|loads| - 1] != c
    ensures Without(loads, c) != [] && Without(loads, c)[|Without(loads, c)| - 1] == loads[|loads| - 1]
  {
  }

  lemma {:induction false} NewestSnoc(xs: seq<ClassId>, last: ClassId, k: nat)
    ensures Newest(xs + [last], k + 1) == Newest(xs, k) + [last]
  {
  }

  /** Touching the deque is recording the load. */
  lemma {:induction false} TouchIsRecent(loads: seq<ClassId>, c: ClassId, capacity: nat)
    requires capacity >= 1
    ensures Touch(Recent(loads, capacity), c, capacity) == Recent(loads + [c], capacity)
  {
    WithoutSnoc(loads, c, c);
    RecentWithout(loads, capacity, c);
    NewestSnoc(Recent(loads, capacity), c, capacity - 1);
  }

  // ------------------------------------------------------------------- loading

  function Position(cache: Deque, c: ClassId): (k: nat)
    ensures k <= |cache| && (k < |cache| ==> cache[k].0 == c)
    ensures forall i :: 0 <= i < k ==> cache[i].0 != c
  {
    if cache == [] then 0 else if cache[0].0 == c then 0 else 1 + Position(cache[1..], c)
  }

  /** One load. `admitted` is what reading, checking and opening the file yields, should
      the class not be resident. */
  function Load(cache: Deque, c: ClassId, admitted: Option<Matrix>): (Deque, Option<Matrix>) {
    var k := Position(cache, c);
    if k < |cache| then (cache[..k] + cache[k + 1..] + [cache[k]], Some(cache[k].1))
    else if admitted.None? then (cache, None)
    else (Newest(cache + [(c, admitted.value)], MATRIX_CACHE_CAPACITY), admitted)
  }

  class PinnedDiskMatrixSource {
    var cache: Deque

    constructor ()
      ensures cache == []
    {
      cache := [];
    }

    method LoadChecked(c: ClassId, admitted: Option<Matrix>) returns (matrix: Option<Matrix>)
      modifies this
      ensures (cache, matrix) == Load(old(cache), c, admitted)
    {
      var position := 0;
      while position < |cache| && cache[position].0 != c
        invariant position <= |cache| && forall i :: 0 <= i < position ==> cache[i].0 != c
      {
        position := position + 1;
      }
      if position < |cache| {
        var entry := cache[position];
        cache := cache[..position] + cache[position + 1..];
        cache := cache + [entry];
        return Some(entry.1);
      }
      if admitted.None? {
        return None;
      }
      cache := cache + [(c, admitted.value)];
      while |cache| > MATRIX_CACHE_CAPACITY
        invariant Newest(cache, MATRIX_CACHE_CAPACITY)
               == Newest(old(cache) + [(c, admitted.value)], MATRIX_CACHE_CAPACITY)
        decreases |cache|
      {
        cache := cache[1..];
      }
      return admitted;
    }
  }

  lemma {:induction false} WithoutAt(ids: seq<ClassId>, k: nat)
    requires Distinct(ids) && k < |ids|
    ensures Without(ids, ids[k]) == ids[..k] + ids[k + 1..]
    decreases |ids|
  {
    hide Without;
    var front, last := ids[..|ids| - 1], ids[|ids| - 1];
    assert ids == front + [last];
    WithoutSnoc(front, last, ids[k]);
    if k == |ids| - 1 {
      WithoutAbsent(front, last);
      assert ids[..k] + ids[k + 1..] == front;
    } else {
      WithoutAt(front, k);
      assert ids[..k] + ids[k + 1..] == front[..k] + front[k + 1..] + [last];
    }
  }

  lemma {:induction false} NewestIds(cache: Deque, k: nat)
    ensures Ids(Newest(cache, k)) == Newest(Ids(cache), k)
  {
    hide Ids;
    if |cache| > k {
      var n := |cache| - k;
      IdsSlice(cache, n, |cache|);
      assert cache[n..] == cache[n..|cache|] && Ids(cache)[n..] == Ids(cache)[n..|cache|];
    }
  }

  lemma {:induction false} IdsAppend(a: Deque, b: Deque)
    ensures Ids(a + b) == Ids(a) + Ids(b)
  {
    hide Ids;
    IdsAt(a);
    IdsAt(b);
    IdsAt(a + b);
  }

  lemma {:induction false} IdsSlice(cache: Deque, lo: nat, hi: nat)
    requires lo <= hi <= |cache|
    ensures Ids(cache[lo..hi]) == Ids(cache)[lo..hi]
  {
    hide Ids;
    IdsAt(cache);
    IdsAt(cache[lo..hi]);
  }

  lemma {:induction false} HitTouches(cache: Deque, k: nat)
    requires Distinct(Ids(cache)) && k < |cache|
    ensures Ids(cache[..k] + cache[k + 1..] + [cache[k]]) == Without(Ids(cache), cache[k].0) + [cache[k].0]
  {
    hide Ids, Without, Distinct;
    var ids := Ids(cache);
    assert ids[k] == cache[k].0 by { IdsAt(cache); }
    WithoutAt(ids, k);
    IdsSlice(cache, 0, k);
    IdsSlice(cache, k + 1, |cache|);
    assert cache[0..k] == cache[..k] && ids[0..k] == ids[..k];
    assert cache[k + 1..|cache|] == cache[k + 1..] && ids[k + 1..|cache|] == ids[k + 1..];
    IdsAppend(cache[..k], cache[k + 1..]);
    SnocIds(cache[..k] + cache[k + 1..], cache[k]);
  }

  lemma {:induction false} SnocIds(cache: Deque, entry: (ClassId, Matrix))
    ensures Ids(cache + [entry]) == Ids(cache) + [entry.0]
  {
    assert (cache + [entry])[..|cache|] == cache;
  }

  lemma {:induction false} Resident(cache: Deque, c: ClassId)
    ensures c in Ids(cache) <==> Position(cache, c) < |cache|
  {
    hide Ids;
    IdsAt(cache);
    var k := Position(cache, c);
    if k < |cache| { assert Ids(cache)[k] == c; }
  }

  /** A load succeeds when the class is resident or admitted; then it touches the ids, and
      otherwise nothing changes. */
  lemma {:induction false} LoadTouches(cache: Deque, c: ClassId, admitted: Option<Matrix>)
    requires Distinct(Ids(cache))
    ensures var (next, result) := Load(cache, c, admitted);
            && (result.Some? <==> c in Ids(cache) || admitted.Some?)
            && (if result.Some? then Ids(next) == Touch(Ids(cache), c, MATRIX_CACHE_CAPACITY) else next == cache)
  {
    hide Ids, Without, Newest, Position;
    var k := Position(cache, c);
    Resident(cache, c);
    if k < |cache| {
      HitTouches(cache, k);
    } else if admitted.Some? {
      var entry := (c, admitted.value);
      NewestIds(cache + [entry], MATRIX_CACHE_CAPACITY);
      SnocIds(cache, entry);
    }
  }

  // ---------------------------------------------------------------------- runs

  datatype Request = Request(id: ClassId, admitted: Option<Matrix>)

  function Run(cache: Deque, requests: seq<Request>): (Deque, seq<Option<Matrix>>)
    decreases |requests|
  {
    if requests == [] then (cache, [])
    else
      var (before, results) := Run(cache, requests[..|requests| - 1]);
      var last := requests[|requests| - 1];
      var (next, result) := Load(before, last.id, last.admitted);
      (next, results + [result])
  }

  /** The classes whose load succeeded, in order. */
  function Loads(requests: seq<Request>, results: seq<Option<Matrix>>): seq<ClassId>
    requires |results| == |requests|
  {
    if requests == [] then []
    else
      var n := |requests| - 1;
      Loads(requests[..n], results[..n]) + if results[n].Some? then [requests[n].id] else []
  }

  lemma {:induction false} RunLength(cache: Deque, requests: seq<Request>)
    ensures |Run(cache, requests).1| == |requests|
    decreases |requests|
  {
    hide Load;
    if requests != [] { RunLength(cache, requests[..|requests| - 1]); }
  }

  lemma {:induction false} RecentDistinct(loads: seq<ClassId>, capacity: nat)
    ensures Distinct(Recent(loads, capacity))
    decreases capacity
  {
    if loads != [] && capacity > 0 {
      var last := loads[|loads| - 1];
      RecentDistinct(Without(loads, last), capacity - 1);
      RecentShape(Without(loads, last), capacity - 1);
      WithoutMembers(loads, last);
      var inner := Recent(Without(loads, last), capacity - 1);
      assert forall i :: 0 <= i < |inner| ==> inner[i] in Without(loads, last);
    }
  }

  lemma {:induction false} NoIds()
    ensures Ids([]) == [] && Recent([], MATRIX_CACHE_CAPACITY) == []
  {
  }

  /** After every run from the empty cache the deque holds exactly the most recently loaded
      distinct classes, at most two, oldest first; failed loads do not count. */
  lemma {:induction false} RunIsRecent(requests: seq<Request>)
    ensures |Run([], requests).1| == |requests|
    ensures Ids(Run([], requests).0) == Recent(Loads(requests, Run([], requests).1), MATRIX_CACHE_CAPACITY)
    decreases |requests|
  {
    hide Load, Ids, Recent, Touch;
    RunLength([], requests);
    if requests == [] {
      NoIds();
    } else {
      var n := |requests| - 1;
      var (before, results) := Run([], requests[..n]);
      RunIsRecent(requests[..n]);
      var loads := Loads(requests[..n], results);
      RecentDistinct(loads, MATRIX_CACHE_CAPACITY);
      LoadTouches(before, requests[n].id, requests[n].admitted);
      TouchIsRecent(loads, requests[n].id, MATRIX_CACHE_CAPACITY);
      var all := Run([], requests).1;
      assert loads + [] == loads;
      assert all[..n] == results && all[n] == Load(before, requests[n].id, requests[n].admitted).1;
    }
  }

  /** Whatever is resident was admitted under that class by an earlier request. */
  ghost predicate Admitted(cache: Deque, requests: seq<Request>) {
    forall i :: 0 <= i < |cache| ==>
      exists j :: 0 <= j < |requests| && requests[j] == Request(cache[i].0, Some(cache[i].1))
  }

  lemma {:induction false} LoadKeepsAdmitted(cache: Deque, requests: seq<Request>, last: Request)
    requires Admitted(cache, requests)
    ensures var (next, result) := Load(cache, last.id, last.admitted);
            && Admitted(next, requests + [last])
            && (result.Some? ==> Request(last.id, result) in requests + [last])
  {
    var (next, result) := Load(cache, last.id, last.admitted);
    var all := requests + [last];
    forall i | 0 <= i < |next| ensures exists j :: 0 <= j < |all| && all[j] == Request(next[i].0, Some(next[i].1)) {
      if next[i] in cache {
        var k :| 0 <= k < |cache| && cache[k] == next[i];
        var j :| 0 <= j < |requests| && requests[j] == Request(cache[k].0, Some(cache[k].1));
        assert all[j] == requests[j];
      } else {
        assert all[|requests|] == last;
      }
    }
    var k := Position(cache, last.id);
    if k < |cache| {
      var j :| 0 <= j < |requests| && requests[j] == Request(cache[k].0, Some(cache[k].1));
      assert all[j] == requests[j];
    } else {
      assert all[|requests|] == last;
    }
  }

  /** Every matrix ever returned for a class is one that admission produced for that class. */
  lemma {:induction false} RunReturnsAdmitted(requests: seq<Request>)
    ensures Admitted(Run([], requests).0, requests)
    ensures |Run([], requests).1| == |requests|
    ensures forall i :: 0 <= i < |requests| && Run([], requests).1[i].Some? ==>
                          Request(requests[i].id, Run([], requests).1[i]) in requests[..i + 1]
    decreases |requests|
  {
    hide Load;
    RunLength([], requests);
    if requests != [] {
      var n := |requests| - 1;
      var (before, results) := Run([], requests[..n]);
      RunReturnsAdmitted(requests[..n]);
      LoadKeepsAdmitted(before, requests[..n], requests[n]);
      assert requests[..n] + [requests[n]] == requests;
      forall i | 0 <= i < |requests| && Run([], requests).1[i].Some?
        ensures Request(requests[i].id, Run([], requests).1[i]) in requests[..i + 1]
      {
        if i < n {
          assert requests[..n][..i + 1] == requests[..i + 1];
        } else {
          assert requests[..i + 1] == requests;
        }
      }
    }
  }

  /** A matrix stays the same object's value for as long as its class stays resident. */
  lemma {:induction false} ResidentStable(cache: Deque, c: ClassId, admitted: Option<Matrix>, i: nat, j: nat)
    requires Distinct(Ids(cache)) && i < |cache| && j < |Load(cache, c, admitted).0|
    requires cache[i].0 == Load(cache, c, admitted).0[j].0
    ensures cache[i] == Load(cache, c, admitted).0[j]
  {
    hide Ids;
    IdsAt(cache);
    var next := Load(cache, c, admitted).0;
    if next[j] in cache {
      var k :| 0 <= k < |cache| && cache[k] == next[j];
      assert Ids(cache)[k] == Ids(cache)[i];
    }
  }

  /** Loading one class and then another leaves exactly those two resident, from every starting state. */
  lemma {:induction false} TwoLoadsStay(cache: Deque, a: Request, b: Request)
    requires Distinct(Ids(cache)) && |cache| <= MATRIX_CACHE_CAPACITY && a.id != b.id
    requires Load(cache, a.id, a.admitted).1.Some?
    requires Load(Load(cache, a.id, a.admitted).0, b.id, b.admitted).1.Some?
    ensures Ids(Load(Load(cache, a.id, a.admitted).0, b.id, b.admitted).0) == [a.id, b.id]
  {
    hide Ids, Load, Distinct, Touch;
    var once := Load(cache, a.id, a.admitted).0;
    var ids := Ids(cache);
    LoadTouches(cache, a.id, a.admitted);
    TouchLast(ids, a.id);
    LoadTouches(once, b.id, b.admitted);
    TouchTwice(Ids(once), a.id, b.id);
  }

  lemma {:induction false} TouchLast(ids: seq<ClassId>, c: ClassId)
    requires Distinct(ids) && |ids| <= 2
    ensures var next := Touch(ids, c, 2);
            Distinct(next) && 1 <= |next| <= 2 && next[|next| - 1] == c && (c !in ids && ids != [] ==> |next| == 2)
  {
    hide Without;
    if c in ids {
      var k :| 0 <= k < |ids| && ids[k] == c;
      WithoutAt(ids, k);
    }
  }

  lemma {:induction false} TouchTwice(ids: seq<ClassId>, a: ClassId, b: ClassId)
    requires Distinct(ids) && 1 <= |ids| <= 2 && ids[|ids| - 1] == a && a != b
    ensures Touch(ids, b, 2) == [a, b]
  {
    if b in ids { WithoutAt(ids, 0); }
  }
}
