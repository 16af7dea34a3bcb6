/**
 The sliding-window rate limiter. A window is a Redis sorted set of request identifiers scored by the
 millisecond they were admitted at; one script purges, counts and adds atomically.
 */
module SlidingWindow {

  // The member of the sorted set that stands for one request.
  datatype RequestId = RequestId(id: string)

  type Scores = map<RequestId, int>

  datatype Reply = Reply(allowed: bool, count: nat, resetMs: int)

  // ZREMRANGEBYSCORE key -inf cutoff
  function Purge(z: Scores, cutoff: int): Scores {
    map m | m in z && z[m] > cutoff :: z[m]
  }

  ghost predicate IsOldest(z: Scores, m: RequestId) {
    m in z && forall o :: o in z ==> z[m] <= z[o]
  }

  lemma {:induction false} HasOldest(z: Scores)
    requires z != map[]
    ensures exists m :: IsOldest(z, m)
    decreases |z|
  {
    var m :| m in z;
    var rest := z - {m};
    if rest == map[] {
      assert forall o :: o in z && o != m ==> o in rest;
      assert IsOldest(z, m);
    } else {
      assert |rest.Keys| < |z.Keys| by { assert rest.Keys == z.Keys - {m}; }
      HasOldest(rest);
      var o :| IsOldest(rest, o);
      assert forall x :: x in z ==> x == m || x in rest;
      if z[m] <= z[o] {
        assert IsOldest(z, m);
      } else {
        assert IsOldest(z, o);
      }
    }
  }

  ghost function OldestScore(z: Scores): int
    requires z != map[]
  {
    HasOldest(z);
    var m :| IsOldest(z, m);
    z[m]
  }

  // Milliseconds until the oldest entry leaves the window.
  ghost function ResetMs(z: Scores, now: int, window: int): int {
    if z == map[] then window
    else
      var ms := OldestScore(z) + window - now;
      if ms < 0 then 0 else ms
  }

  predicate Allows(z: Scores, now: int, window: int, max: int) {
    |Purge(z, now - window)| < max
  }

  function Updated(z: Scores, now: int, window: int, max: int, member: RequestId): Scores {
    var p := Purge(z, now - window);
    if |p| < max then p[member := now] else p
  }

  // The script: the new sorted set and the reply.
  ghost function Check(z: Scores, now: int, window: int, max: int, member: RequestId): (r: (Scores, Reply)) {
    var p, q := Purge(z, now - window), Updated(z, now, window, max, member);
    if Allows(z, now, window, max) then (q, Reply(true, |p| + 1, ResetMs(q, now, window)))
    else (q, Reply(false, |p|, ResetMs(q, now, window)))
  }

  // The script once it has purged.
  ghost function Conclude(p: Scores, now: int, window: int, max: int, member: RequestId): (Scores, Reply) {
    if |p| < max then (p[member := now], Reply(true, |p| + 1, ResetMs(p[member := now], now, window)))
    else (p, Reply(false, |p|, ResetMs(p, now, window)))
  }

  lemma CheckConcludes(z: Scores, now: int, window: int, max: int, member: RequestId)
    ensures Check(z, now, window, max, member) == Conclude(Purge(z, now - window), now, window, max, member)
  {
  }

  // --- runs of calls on one key ---

  datatype Call = Call(now: int, limit: int, member: RequestId)

  // The sorted set after a run of calls on an empty key, and which of them were admitted.
  ghost function Run(calls: seq<Call>, window: int): (r: (Scores, seq<bool>))
    ensures |r.1| == |calls|
  {
    if calls == [] then (map[], [])
    else
      var n := |calls| - 1;
      var before := Run(calls[..n], window);
      (Updated(before.0, calls[n].now, window, calls[n].limit, calls[n].member),
       before.1 + [Allows(before.0, calls[n].now, window, calls[n].limit)])
  }

  predicate Before(i: int, j: int) {
    0 <= i < j
  }

  // The clock never goes back.
  ghost predicate Ordered(calls: seq<Call>) {
    forall i, j {:trigger Before(i, j)} :: Before(i, j) && j < |calls| ==> calls[i].now <= calls[j].now
  }

  // Every call has its own identifier.
  ghost predicate OwnIdentifiers(calls: seq<Call>) {
    forall i, j {:trigger Before(i, j)} :: Before(i, j) && j < |calls| ==> calls[i].member != calls[j].member
  }

  ghost function IdentifiersOf(calls: seq<Call>, idx: set<nat>): set<RequestId>
    requires forall i :: i in idx ==> i < |calls|
  {
    set i | i in idx :: calls[i].member
  }

  // The admissions among the first n calls made after time `from`.
  ghost function Since(calls: seq<Call>, admitted: seq<bool>, n: nat, from: int): (idx: set<nat>)
    requires n <= |calls| && n <= |admitted|
    ensures forall i :: i in idx ==> i < |calls|
  {
    set i: nat | i < n && admitted[i] && calls[i].now > from
  }

  lemma SincePrefix(calls: seq<Call>, admitted: seq<bool>, k: nat, n: nat, from: int)
    requires n <= k <= |calls| && k <= |admitted|
    ensures Since(calls[..k], admitted[..k], n, from) == Since(calls, admitted, n, from)
  {
  }

  // The sorted set holding exactly those: who was admitted, each with the time of its latest admission.
  ghost function Kept(calls: seq<Call>, admitted: seq<bool>, n: nat, from: int): Scores
    requires n <= |calls| && n <= |admitted|
  {
    if n == 0 then map[]
    else
      var z := Kept(calls, admitted, n - 1, from);
      if admitted[n - 1] && calls[n - 1].now > from then z[calls[n - 1].member := calls[n - 1].now] else z
  }

  lemma {:induction false} KeptPrefix(calls: seq<Call>, admitted: seq<bool>, k: nat, n: nat, from: int)
    requires n <= k <= |calls| && k <= |admitted|
    ensures Kept(calls[..k], admitted[..k], n, from) == Kept(calls, admitted, n, from)
  {
    if n > 0 {
      KeptPrefix(calls, admitted, k, n - 1, from);
    }
  }

  lemma SinceOneMore(calls: seq<Call>, admitted: seq<bool>, n: nat, from: int)
    requires n < |calls| && n < |admitted|
    ensures Since(calls, admitted, n + 1, from)
         == Since(calls, admitted, n, from) + if admitted[n] && calls[n].now > from then {n} else {}
  {
  }

  lemma {:induction false} KeptIdentifiers(calls: seq<Call>, admitted: seq<bool>, n: nat, from: int)
    requires n <= |calls| && n <= |admitted|
    ensures Kept(calls, admitted, n, from).Keys == IdentifiersOf(calls, Since(calls, admitted, n, from))
  {
    if n == 0 {
      assert Since(calls, admitted, 0, from) == {};
    } else {
      KeptIdentifiers(calls, admitted, n - 1, from);
      SinceOneMore(calls, admitted, n - 1, from);
      IdentifiersOneMore(calls, Since(calls, admitted, n - 1, from), n - 1);
    }
  }

  lemma IdentifiersOneMore(calls: seq<Call>, idx: set<nat>, n: nat)
    requires n < |calls| && forall i :: i in idx ==> i < |calls|
    ensures IdentifiersOf(calls, idx + {n}) == IdentifiersOf(calls, idx) + {calls[n].member}
    ensures IdentifiersOf(calls, idx + {}) == IdentifiersOf(calls, idx)
  {
    assert idx + {} == idx;
  }

  // Nothing kept is later than the last call.
  lemma {:induction false} KeptIsPast(calls: seq<Call>, admitted: seq<bool>, n: nat, from: int, now: int)
    requires n <= |calls| && n <= |admitted| && forall i :: 0 <= i < n ==> calls[i].now <= now
    ensures forall m {:trigger m in Kept(calls, admitted, n, from)} ::
              m in Kept(calls, admitted, n, from) ==> Kept(calls, admitted, n, from)[m] <= now
  {
    if n > 0 {
      KeptIsPast(calls, admitted, n - 1, from, now);
    }
  }

  lemma {:induction false} PurgeKept(calls: seq<Call>, admitted: seq<bool>, n: nat, from: int, cutoff: int)
    requires Ordered(calls) && n <= |calls| && n <= |admitted| && from <= cutoff
    ensures Purge(Kept(calls, admitted, n, from), cutoff) == Kept(calls, admitted, n, cutoff)
  {
    if n > 0 {
      PurgeKept(calls, admitted, n - 1, from, cutoff);
      forall i | 0 <= i < n ensures calls[i].now <= calls[n - 1].now {
        assert i < n - 1 ==> Before(i, n - 1);
      }
      KeptIsPast(calls, admitted, n - 1, from, calls[n - 1].now);
    }
  }

  // A call is admitted exactly when the window ending at it holds fewer identifiers than its limit.
  ghost predicate Decided(calls: seq<Call>, admitted: seq<bool>, window: int, n: nat)
    requires n < |calls| && n < |admitted|
  {
    admitted[n] <==> |IdentifiersOf(calls, Since(calls, admitted, n, calls[n].now - window))| < calls[n].limit
  }

  ghost predicate Exact(calls: seq<Call>, admitted: seq<bool>, window: int) {
    |admitted| == |calls| &&
    forall n: nat {:trigger Decided(calls, admitted, window, n)} :: n < |calls| ==> Decided(calls, admitted, window, n)
  }

  lemma ExactExtends(calls: seq<Call>, admitted: seq<bool>, window: int, k: nat)
    requires |admitted| == |calls| == k + 1 && Exact(calls[..k], admitted[..k], window)
    requires Decided(calls, admitted, window, k)
    ensures Exact(calls, admitted, window)
  {
    forall n: nat | n < k ensures Decided(calls, admitted, window, n) {
      assert Decided(calls[..k], admitted[..k], window, n);
      SincePrefix(calls, admitted, k, n, calls[n].now - window);
      var idx := Since(calls, admitted, n, calls[n].now - window);
      assert IdentifiersOf(calls[..k], idx) == IdentifiersOf(calls, idx);
    }
  }

  // When the latest of the calls was made, less the window.
  ghost function Horizon(calls: seq<Call>, window: int): int {
    if calls == [] then 0 else calls[|calls| - 1].now - window
  }

  /**
   A call is denied exactly when the window ending at it already holds as many admitted identifiers as its limit,
   and the sorted set is at any time exactly those of the last window. Identifiers may repeat and limits may differ.
   */
  lemma {:induction false} DeniedIffFull(calls: seq<Call>, window: int)
    requires Ordered(calls) && window > 0
    ensures
      var (z, admitted) := Run(calls, window);
      z == Kept(calls, admitted, |calls|, Horizon(calls, window)) && Exact(calls, admitted, window)
  {
    if calls != [] {
      var k := |calls| - 1;
      DeniedIffFull(calls[..k], window);
      var (z, before) := Run(calls[..k], window);
      var admitted := Run(calls, window).1;
      assert admitted[..k] == before;
      KeptPrefix(calls, admitted, k, k, Horizon(calls[..k], window));
      FoundAt(calls, admitted, window, z, k);
      assert Kept(calls, admitted, k + 1, Horizon(calls, window)) == Run(calls, window).0;
      ExactExtends(calls, admitted, window, k);
    }
  }

  // What the script finds at the call after the first k.
  lemma FoundAt(calls: seq<Call>, admitted: seq<bool>, window: int, z: Scores, k: nat)
    requires Ordered(calls) && k < |calls| && k <= |admitted| && window > 0
    requires z == Kept(calls, admitted, k, Horizon(calls[..k], window))
    ensures Purge(z, calls[k].now - window) == Kept(calls, admitted, k, calls[k].now - window)
    ensures |Purge(z, calls[k].now - window)|
         == |IdentifiersOf(calls, Since(calls, admitted, k, calls[k].now - window))|
  {
    var p := Kept(calls, admitted, k, calls[k].now - window);
    if k > 0 {
      assert Before(k - 1, k);
      PurgeKept(calls, admitted, k, Horizon(calls[..k], window), calls[k].now - window);
    }
    KeptIdentifiers(calls, admitted, k, calls[k].now - window);
    assert |p| == |p.Keys|;
  }

  lemma {:induction false} LatestOf(idx: set<nat>)
    requires idx != {}
    ensures exists k :: k in idx && forall i :: i in idx ==> i <= k
    decreases idx
  {
    var i :| i in idx;
    if idx != {i} {
      LatestOf(idx - {i});
      var k :| k in idx - {i} && forall j :: j in idx - {i} ==> j <= k;
      var best := if k < i then i else k;
      assert best in idx && forall j :: j in idx ==> j == i || j in idx - {i};
    } else {
      assert i in idx && forall j :: j in idx ==> j <= i;
    }
  }

  lemma SubsetSize<T>(a: set<T>, b: set<T>)
    requires a <= b
    ensures |a| <= |b|
  {
    if a != {} {
      var x :| x in a;
      SubsetSize(a - {x}, b - {x});
    }
  }

  // Calls with identifiers of their own are as many as their identifiers.
  lemma {:induction false} OwnIdentifiersCount(calls: seq<Call>, idx: set<nat>)
    requires OwnIdentifiers(calls) && forall i :: i in idx ==> i < |calls|
    ensures |IdentifiersOf(calls, idx)| == |idx|
    decreases |idx|
  {
    if idx != {} {
      var i :| i in idx;
      OwnIdentifiersCount(calls, idx - {i});
      forall j | j in idx - {i} ensures calls[j].member != calls[i].member {
        assert Before(i, j) || Before(j, i);
      }
      assert IdentifiersOf(calls, idx) == IdentifiersOf(calls, idx - {i}) + {calls[i].member};
    } else {
      assert IdentifiersOf(calls, idx) == {};
    }
  }

  // The admissions in the interval (t - window, t] of calls with no higher limit.
  ghost function InWindow(calls: seq<Call>, admitted: seq<bool>, window: int, max: int, t: int): (idx: set<nat>)
    requires |admitted| == |calls|
    ensures forall i :: i in idx ==> i < |calls|
  {
    set i: nat | i < |calls| && admitted[i] && calls[i].limit <= max && t - window < calls[i].now <= t
  }

  /**
   Every window-long interval, wherever it starts, holds at most the limit of admitted identifiers, so at most
   the limit of admissions when every call has its own.
   */
  lemma NeverOverLimit(calls: seq<Call>, window: int, max: int, t: int)
    requires Ordered(calls) && window > 0
    ensures
      var idx, bound := InWindow(calls, Run(calls, window).1, window, max, t), if max < 0 then 0 else max;
      |IdentifiersOf(calls, idx)| <= bound && (OwnIdentifiers(calls) ==> |idx| <= bound)
  {
    DeniedIffFull(calls, window);
    var admitted := Run(calls, window).1;
    ExactIsBounded(calls, admitted, window, max, t);
    if OwnIdentifiers(calls) {
      OwnIdentifiersCount(calls, InWindow(calls, admitted, window, max, t));
    }
  }

  lemma ExactIsBounded(calls: seq<Call>, admitted: seq<bool>, window: int, max: int, t: int)
    requires Ordered(calls) && Exact(calls, admitted, window)
    ensures |IdentifiersOf(calls, InWindow(calls, admitted, window, max, t))| <= if max < 0 then 0 else max
  {
    var idx := InWindow(calls, admitted, window, max, t);
    if idx != {} {
      LatestOf(idx);
      var k :| k in idx && forall i :: i in idx ==> i <= k;
      assert Decided(calls, admitted, window, k);
      var earlier := Since(calls, admitted, k, calls[k].now - window);
      forall i | i in idx && i != k ensures i in earlier {
        assert Before(i, k);
      }
      var found := IdentifiersOf(calls, earlier);
      SubsetSize(IdentifiersOf(calls, idx), found + {calls[k].member});
      assert |found + {calls[k].member}| <= |found| + 1;
    } else {
      assert IdentifiersOf(calls, idx) == {};
    }
  }

  /**
   With one identifier for every request a limit above one never denies. The identifier is the client's own X-Request-Id
   header whenever there is one.
   */
  lemma {:induction false} SharedMemberEscapes(calls: seq<Call>, window: int, member: RequestId)
    requires forall c :: c in calls ==> c.member == member && c.limit >= 2
    ensures
      var (z, admitted) := Run(calls, window);
      z.Keys <= {member} && forall i :: 0 <= i < |calls| ==> admitted[i]
  {
    if calls != [] {
      var n := |calls| - 1;
      SharedMemberEscapes(calls[..n], window, member);
      var p := Purge(Run(calls[..n], window).0, calls[n].now - window);
      SubsetSize(p.Keys, {member});
      assert |p| == |p.Keys|;
      assert calls[n] in calls;
    }
  }

  // --- which identifiers escape the limit ---

  // One call for each of the identifiers, all under one limit.
  ghost predicate MadeBy(calls: seq<Call>, ids: seq<RequestId>, max: nat) {
    |calls| == |ids| &&
    forall i {:trigger calls[i]} :: 0 <= i < |calls| ==> calls[i].member == ids[i] && calls[i].limit == max
  }

  // No identifier but the last repeats an earlier one.
  ghost predicate OnlyLastRepeats(ids: seq<RequestId>) {
    forall i, j {:trigger ids[i], ids[j]} :: 0 <= i < j < |ids| - 1 ==> ids[i] != ids[j]
  }

  ghost predicate Bounded(calls: seq<Call>, window: int, max: nat, t: int) {
    |InWindow(calls, Run(calls, window).1, window, max, t)| <= max
  }

  // However these identifiers are spread over time, no window holds more of their requests than the limit.
  ghost predicate LimitHolds(ids: seq<RequestId>) {
    forall calls, window, max: nat, t {:trigger MadeBy(calls, ids, max), Bounded(calls, window, max, t)} ::
      MadeBy(calls, ids, max) && Ordered(calls) && window > 0 ==> Bounded(calls, window, max, t)
  }

  // Before the last call every identifier counts for itself.
  lemma EarlierCount(calls: seq<Call>, ids: seq<RequestId>, max: nat, idx: set<nat>)
    requires MadeBy(calls, ids, max) && OnlyLastRepeats(ids) && forall i :: i in idx ==> i < |calls| - 1
    ensures |IdentifiersOf(calls, idx)| == |idx|
  {
    if calls != [] {
      var before := calls[..|calls| - 1];
      assert forall i :: 0 <= i < |before| ==> before[i] == calls[i];
      assert forall i, j | Before(i, j) && j < |before| :: ids[i] != ids[j];
      OwnIdentifiersCount(before, idx);
      assert IdentifiersOf(before, idx) == IdentifiersOf(calls, idx);
    } else {
      assert idx == {} && IdentifiersOf(calls, idx) == {};
    }
  }

  lemma OnlyLastIsBounded(calls: seq<Call>, ids: seq<RequestId>, window: int, max: nat, t: int)
    requires MadeBy(calls, ids, max) && OnlyLastRepeats(ids) && Ordered(calls) && window > 0
    ensures Bounded(calls, window, max, t)
  {
    DeniedIffFull(calls, window);
    var admitted := Run(calls, window).1;
    var idx := InWindow(calls, admitted, window, max, t);
    if idx != {} {
      LatestOf(idx);
      var k :| k in idx && forall i :: i in idx ==> i <= k;
      EarlierFit(calls, ids, admitted, window, max, t, k);
      assert |idx - {k}| == |idx| - 1;
    }
  }

  // The admissions of the window before its latest one.
  lemma EarlierFit(calls: seq<Call>, ids: seq<RequestId>, admitted: seq<bool>, window: int, max: nat, t: int, k: nat)
    requires MadeBy(calls, ids, max) && OnlyLastRepeats(ids) && Ordered(calls) && Exact(calls, admitted, window)
    requires
      var idx := InWindow(calls, admitted, window, max, t);
      k in idx && forall i :: i in idx ==> i <= k
    ensures |InWindow(calls, admitted, window, max, t) - {k}| < max
  {
    var idx, earlier := InWindow(calls, admitted, window, max, t), Since(calls, admitted, k, calls[k].now - window);
    assert Decided(calls, admitted, window, k);
    forall i | i in idx - {k} ensures i in earlier {
      assert Before(i, k);
    }
    SubsetSize(idx - {k}, earlier);
    EarlierCount(calls, ids, max, earlier);
  }

  // The identifiers all at once.
  function Burst(ids: seq<RequestId>, max: nat): (calls: seq<Call>)
    ensures |calls| == |ids|
  {
    seq(|ids|, i requires 0 <= i < |ids| => Call(0, max, ids[i]))
  }

  function Members(ids: seq<RequestId>): (m: set<RequestId>)
    ensures |m| <= |ids|
  {
    if ids == [] then {} else Members(ids[..|ids| - 1]) + {ids[|ids| - 1]}
  }

  lemma {:induction false} IsMember(ids: seq<RequestId>, i: nat)
    requires i < |ids|
    ensures ids[i] in Members(ids)
  {
    if i < |ids| - 1 {
      IsMember(ids[..|ids| - 1], i);
    }
  }

  lemma {:induction false} RepeatIsFewer(ids: seq<RequestId>, i: nat, j: nat)
    requires i < j < |ids| && ids[i] == ids[j]
    ensures |Members(ids)| < |ids|
  {
    var before := ids[..|ids| - 1];
    if j < |before| {
      RepeatIsFewer(before, i, j);
    } else {
      IsMember(before, i);
      assert Members(ids) == Members(before);
    }
  }

  // A burst is admitted whole as long as fewer identifiers than the limit came before each call.
  lemma {:induction false} BurstPasses(ids: seq<RequestId>, max: nat)
    requires forall n: nat {:trigger ids[..n]} :: n < |ids| ==> |Members(ids[..n])| < max
    ensures Run(Burst(ids, max), 1).0.Keys <= Members(ids)
    ensures forall i :: 0 <= i < |ids| ==> Run(Burst(ids, max), 1).1[i]
  {
    if ids != [] {
      var before, calls := ids[..|ids| - 1], Burst(ids, max);
      forall n: nat | n < |before| ensures |Members(before[..n])| < max {
        assert before[..n] == ids[..n];
      }
      BurstPasses(before, max);
      assert calls[..|calls| - 1] == Burst(before, max);
      LastPasses(Run(Burst(before, max), 1).0, Members(before), max);
    }
  }

  lemma LastPasses(z: Scores, members: set<RequestId>, max: nat)
    requires z.Keys <= members && |members| < max
    ensures Purge(z, -1).Keys <= members && |Purge(z, -1)| < max
  {
    SubsetSize(Purge(z, -1).Keys, members);
    assert |Purge(z, -1)| == |Purge(z, -1).Keys|;
  }

  lemma RepeatEscapes(ids: seq<RequestId>, i: nat, j: nat)
    requires i < j < |ids| - 1 && ids[i] == ids[j]
    ensures !LimitHolds(ids)
  {
    var max := |ids| - 1;
    var calls := Burst(ids, max);
    forall n: nat | n < |ids| ensures |Members(ids[..n])| < max {
      if n == max {
        RepeatIsFewer(ids[..n], i, j);
      }
    }
    BurstPasses(ids, max);
    WholeBurst(ids, max);
    assert MadeBy(calls, ids, max) && Ordered(calls) && !Bounded(calls, 1, max, 0);
  }

  lemma WholeBurst(ids: seq<RequestId>, max: nat)
    requires forall i :: 0 <= i < |ids| ==> Run(Burst(ids, max), 1).1[i]
    ensures |InWindow(Burst(ids, max), Run(Burst(ids, max), 1).1, 1, max, 0)| == |ids|
  {
    var calls := Burst(ids, max);
    assert InWindow(calls, Run(calls, 1).1, 1, max, 0) == FirstNumbers(|ids|);
  }

  function FirstNumbers(n: nat): (s: set<nat>)
    ensures |s| == n && forall i: nat :: i in s <==> i < n
  {
    if n == 0 then {} else FirstNumbers(n - 1) + {n - 1}
  }

  /**
   The window bounds the requests themselves, whatever the limit and the times, exactly when no identifier but the last
   repeats an earlier one.
   */
  lemma LimitHoldsExactly(ids: seq<RequestId>)
    ensures LimitHolds(ids) <==> OnlyLastRepeats(ids)
  {
    if OnlyLastRepeats(ids) {
      forall calls, window, max: nat, t | MadeBy(calls, ids, max) && Ordered(calls) && window > 0
        ensures Bounded(calls, window, max, t)
      {
        OnlyLastIsBounded(calls, ids, window, max, t);
      }
    } else {
      var i, j :| 0 <= i < j < |ids| - 1 && ids[i] == ids[j];
      RepeatEscapes(ids, i, j);
    }
  }

  // --- Retry-After ---

  // The seconds reported to the client: rounded up, never below one.
  function RetryAfterSec(resetMs: int): nat {
    var rs := (resetMs + 999) / 1000;
    if rs < 1 then 1 else rs
  }

  /** Until resetMs has passed a denied caller stays denied, and asking again does not push the deadline back. */
  lemma RetryTooEarly(z: Scores, now: int, window: int, max: int, member: RequestId, later: int, member': RequestId)
    requires window > 0 && Purge(z, now - window) != map[]
    requires !Check(z, now, window, max, member).1.allowed
    requires now <= later < now + Check(z, now, window, max, member).1.resetMs
    ensures
      var (p, first) := Check(z, now, window, max, member);
      var (q, again) := Check(p, later, window, max, member');
      q == p && !again.allowed && again.count == first.count && later + again.resetMs == now + first.resetMs
  {
    var p := Purge(z, now - window);
    HasOldest(p);
    var m :| IsOldest(p, m);
    assert OldestScore(p) == p[m];
    assert Purge(p, later - window) == p;
  }

  // From index k on no call of the run was admitted.
  ghost predicate DeniedFrom(calls: seq<Call>, window: int, k: nat) {
    forall i :: k <= i < |calls| ==> !Run(calls, window).1[i]
  }

  /**
   Once the reported seconds have passed since a denial a retry is admitted, however often the caller
   has retried too early in between, if no limit on the key is higher than its own.
   */
  lemma RetryOnTime(calls: seq<Call>, call: Call, retries: seq<Call>, window: int, later: int)
    requires Ordered(calls + [call]) && window > 0 && call.limit > 0 && forall c :: c in calls ==> c.limit <= call.limit
    requires DeniedFrom(calls + [call] + retries, window, |calls|)
    requires
      var reply := Check(Run(calls, window).0, call.now, window, call.limit, call.member).1;
      later >= call.now + 1000 * RetryAfterSec(reply.resetMs)
    ensures Allows(Run(calls + [call] + retries, window).0, later, window, call.limit)
  {
    DeniedShrinks(calls + [call], retries, window);
    DeniedPurges(calls, call, retries, window);
    AtMostLimit(calls, window, call);
    DeadlinePasses(Run(calls, window).0, call.now, window, call.limit, call.member, later);
    FewerKept(Run(calls + [call] + retries, window).0, Purge(Run(calls, window).0, call.now - window), later - window);
  }

  // z is part of the set.
  ghost predicate PartOf(z: Scores, whole: Scores) {
    forall m {:trigger m in z} :: m in z ==> m in whole && z[m] == whole[m]
  }

  lemma FewerKept(z: Scores, whole: Scores, cutoff: int)
    requires PartOf(z, whole)
    ensures |Purge(z, cutoff)| <= |Purge(whole, cutoff)|
  {
    var some, all := Purge(z, cutoff), Purge(whole, cutoff);
    SubsetSize(some.Keys, all.Keys);
    assert |some| == |some.Keys| && |all| == |all.Keys|;
  }

  // The denied call itself only purges.
  lemma DeniedPurges(calls: seq<Call>, call: Call, retries: seq<Call>, window: int)
    requires DeniedFrom(calls + [call] + retries, window, |calls|)
    requires Run(calls + [call] + retries, window).1[..|calls| + 1] == Run(calls + [call], window).1
    ensures !Allows(Run(calls, window).0, call.now, window, call.limit)
    ensures Run(calls + [call], window).0 == Purge(Run(calls, window).0, call.now - window)
  {
    assert (calls + [call])[..|calls|] == calls;
    assert !Run(calls + [call] + retries, window).1[|calls|];
    assert Run(calls + [call], window).1[|calls|] == Run(calls + [call] + retries, window).1[|calls|];
  }

  // Denied calls add nothing, and change no earlier answer.
  lemma {:induction false} DeniedShrinks(calls: seq<Call>, retries: seq<Call>, window: int)
    requires DeniedFrom(calls + retries, window, |calls|)
    ensures PartOf(Run(calls + retries, window).0, Run(calls, window).0)
    ensures Run(calls + retries, window).1[..|calls|] == Run(calls, window).1
  {
    if retries == [] {
      assert calls + retries == calls;
    } else {
      var before, all := retries[..|retries| - 1], calls + retries;
      assert all[..|all| - 1] == calls + before;
      forall i | |calls| <= i < |calls + before| ensures !Run(calls + before, window).1[i] {
        assert Run(all, window).1[i] == Run(calls + before, window).1[i];
      }
      DeniedShrinks(calls, before, window);
      assert !Run(all, window).1[|all| - 1];
    }
  }

  // A set that is exactly full has room once its oldest member has left the window.
  lemma DeadlinePasses(z: Scores, now: int, window: int, max: int, member: RequestId, later: int)
    requires window > 0 && max > 0 && |Purge(z, now - window)| <= max
    requires
      var reply := Check(z, now, window, max, member).1;
      !reply.allowed && later >= now + 1000 * RetryAfterSec(reply.resetMs)
    ensures |Purge(Purge(z, now - window), later - window)| < max
  {
    var p := Purge(z, now - window);
    HasOldest(p);
    var m :| IsOldest(p, m);
    assert OldestScore(p) == p[m];
    assert p[m] + window <= later;
    OldestLeaves(p, m, later - window);
  }

  lemma OldestLeaves(p: Scores, m: RequestId, cutoff: int)
    requires m in p && p[m] <= cutoff
    ensures |Purge(p, cutoff)| < |p|
  {
    var q := Purge(p, cutoff);
    assert q.Keys <= p.Keys - {m};
    SubsetSize(q.Keys, p.Keys - {m});
    assert |q| == |q.Keys| && |p| == |p.Keys|;
  }

  // A reachable window never holds more than the highest limit.
  lemma AtMostLimit(calls: seq<Call>, window: int, call: Call)
    requires Ordered(calls + [call]) && window > 0 && call.limit >= 0
    requires forall c :: c in calls ==> c.limit <= call.limit
    ensures |Purge(Run(calls, window).0, call.now - window)| <= call.limit
  {
    OrderedPrefix(calls, call);
    DeniedIffFull(calls, window);
    var (z, admitted) := Run(calls, window);
    FoundNext(calls, call, admitted, window, z);
    SinceInWindow(calls, call, admitted, window);
    ExactIsBounded(calls, admitted, window, call.limit, call.now);
  }

  // What the script would find at one more call.
  lemma FoundNext(calls: seq<Call>, call: Call, admitted: seq<bool>, window: int, z: Scores)
    requires Ordered(calls + [call]) && |admitted| == |calls| && window > 0
    requires z == Kept(calls, admitted, |calls|, Horizon(calls, window))
    ensures |Purge(z, call.now - window)|
         == |IdentifiersOf(calls + [call], Since(calls + [call], admitted, |calls|, call.now - window))|
  {
    var all, k := calls + [call], |calls|;
    assert all[..k] == calls && admitted[..k] == admitted;
    KeptPrefix(all, admitted, k, k, Horizon(calls, window));
    FoundAt(all, admitted, window, z, k);
  }

  lemma OrderedPrefix(calls: seq<Call>, call: Call)
    requires Ordered(calls + [call])
    ensures Ordered(calls)
  {
    var all := calls + [call];
    forall i, j | Before(i, j) && j < |calls| ensures calls[i].now <= calls[j].now {
      assert all[i] == calls[i] && all[j] == calls[j];
    }
  }

  lemma SinceInWindow(calls: seq<Call>, call: Call, admitted: seq<bool>, window: int)
    requires Ordered(calls + [call]) && |admitted| == |calls| && forall c :: c in calls ==> c.limit <= call.limit
    ensures |IdentifiersOf(calls + [call], Since(calls + [call], admitted, |calls|, call.now - window))|
         <= |IdentifiersOf(calls, InWindow(calls, admitted, window, call.limit, call.now))|
  {
    var all := calls + [call];
    var idx := Since(all, admitted, |calls|, call.now - window);
    var inside := InWindow(calls, admitted, window, call.limit, call.now);
    forall i | i in idx ensures i in inside && all[i] == calls[i] {
      assert Before(i, |calls|) && calls[i] in calls;
    }
    SubsetSize(IdentifiersOf(all, idx), IdentifiersOf(calls, inside));
  }
}

/** Every tier of a request, checked one after the other against Redis. */
module RateLimiter {
  import opened GoStrings
  import opened RateLimitTier
  import opened SlidingWindow
  import Decimal

  function RateLimitKey(userID: string, packageID: string, serviceID: string, resourcePath: string,
                        windowSec: int): string
  {
    "ratelimit:" + userID + ":" + packageID + ":" + serviceID + ":" + resourcePath + ":" + Decimal.FormatInt(windowSec)
  }

  lemma {:induction false} LastIndexAt(p: string, d: string, c: char)
    requires c !in d
    ensures LastIndex(p + [c] + d, c) == |p|
  {
    var s := p + [c] + d;
    if d == "" {
      assert s == p + [c];
    } else {
      assert d[|d| - 1] in d && s[..|s| - 1] == p + [c] + d[..|d| - 1];
      LastIndexAt(p, d[..|d| - 1], c);
    }
  }

  // The window a key was made for, in milliseconds: what follows its last colon.
  function KeyWindow(key: string): int {
    match Decimal.ParseInt(key[LastIndex(key, ':') + 1..])
    case Some(w) => 1000 * w
    case None => 0
  }

  /** Whatever the ids contain, a key tells its window, so tiers with different windows never share one. */
  lemma KeyTellsWindow(u: string, p: string, s: string, r: string, w: int)
    requires Decimal.InInt64(w)
    ensures KeyWindow(RateLimitKey(u, p, s, r, w)) == 1000 * w
  {
    Decimal.ParseFormatInt(w);
    var before := "ratelimit:" + u + ":" + p + ":" + s + ":" + r;
    var d := Decimal.FormatInt(w);
    LastIndexAt(before, d, ':');
    assert RateLimitKey(u, p, s, r, w) == before + [':'] + d;
    assert (before + [':'] + d)[|before| + 1..] == d;
  }

  ghost predicate Within(z: Scores, bound: int) {
    forall m {:trigger m in z} :: m in z ==> z[m] <= bound
  }

  lemma PurgeAll(z: Scores, cutoff: int)
    requires Within(z, cutoff)
    ensures Purge(z, cutoff) == map[]
  {
  }

  function ScoresAt(zs: map<string, Scores>, key: string): Scores {
    if key in zs then zs[key] else map[]
  }

  // Whose requests, and to what, a limit counts.
  datatype Caller = Caller(userID: string, packageID: string, serviceID: string, resourcePath: string)

  function KeyOf(who: Caller, windowSec: int): string {
    RateLimitKey(who.userID, who.packageID, who.serviceID, who.resourcePath, windowSec)
  }

  function KeysOf(who: Caller, tiers: seq<Tier>): (keys: seq<string>)
    ensures |keys| == |tiers|
  {
    seq(|tiers|, i requires 0 <= i < |tiers| => KeyOf(who, tiers[i].windowSec))
  }

  // The request's own identifier, or a stand-in made of the time and the user.
  function MemberOf(who: Caller, memberHint: string, now: int): RequestId {
    RequestId(if memberHint == "" then Decimal.FormatInt(now) + ":" + who.userID else memberHint)
  }

  // One request: its identifier, the clock as read at each tier and which tiers Redis failed on.
  datatype Request = Request(member: RequestId, clocks: seq<int>, failing: seq<bool>)

  datatype Decision =
    Decision(allowed: bool, limit: int, remaining: int, retryAfterSec: nat, resetSec: nat, failed: bool)

  // The decision and the sorted sets it leaves, from tier i on, with the tightest tier seen so far.
  ghost function CheckTiers(zs: map<string, Scores>, keys: seq<string>, tiers: seq<Tier>, q: Request, i: nat,
                            limit: int, remaining: int, resetSec: nat): (map<string, Scores>, Decision)
    requires i <= |tiers| && |q.clocks| == |q.failing| == |keys| == |tiers|
    decreases |tiers| - i
  {
    if |tiers| == 0 then (zs, Decision(true, 0, 0, 0, 0, false))
    else if i == |tiers| then (zs, Decision(true, limit, remaining, 0, resetSec, false))
    else if q.failing[i] then (zs, Decision(true, 0, 0, 0, 0, true))
    else
      var key := keys[i];
      var (z, reply) := Check(ScoresAt(zs, key), q.clocks[i], tiers[i].windowSec * 1000, tiers[i].limit, q.member);
      var rs, rem := RetryAfterSec(reply.resetMs), tiers[i].limit - reply.count;
      if !reply.allowed then (zs[key := z], Decision(false, tiers[i].limit, 0, rs, rs, false))
      else if limit == 0 || rem < remaining then
        CheckTiers(zs[key := z], keys, tiers, q, i + 1, tiers[i].limit, rem, rs)
      else CheckTiers(zs[key := z], keys, tiers, q, i + 1, limit, remaining, resetSec)
  }

  // One turn of the walk, with the script's answer given.
  lemma CheckTiersStep(zs: map<string, Scores>, keys: seq<string>, tiers: seq<Tier>, q: Request, i: nat,
                       limit: int, remaining: int, resetSec: nat, z: Scores, reply: Reply)
    requires i < |tiers| == |q.clocks| == |q.failing| == |keys| && !q.failing[i]
    requires (z, reply) ==
      Check(ScoresAt(zs, keys[i]), q.clocks[i], tiers[i].windowSec * 1000, tiers[i].limit, q.member)
    ensures
      var next, rs, rem := zs[keys[i] := z], RetryAfterSec(reply.resetMs), tiers[i].limit - reply.count;
      CheckTiers(zs, keys, tiers, q, i, limit, remaining, resetSec) ==
      if !reply.allowed then (next, Decision(false, tiers[i].limit, 0, rs, rs, false))
      else if limit == 0 || rem < remaining then CheckTiers(next, keys, tiers, q, i + 1, tiers[i].limit, rem, rs)
      else CheckTiers(next, keys, tiers, q, i + 1, limit, remaining, resetSec)
  {
  }

  // One run of the script on a key: the new sorted sets and the reply.
  ghost function CheckAt(zs: map<string, Scores>, key: string, now: int, window: int, max: int, member: RequestId)
    : (map<string, Scores>, Reply)
  {
    var (z, reply) := Check(ScoresAt(zs, key), now, window, max, member);
    (zs[key := z], reply)
  }

  ghost function ConcludeAt(zs: map<string, Scores>, key: string, p: Scores, now: int, window: int, max: int,
                            member: RequestId): (map<string, Scores>, Reply)
  {
    var (z, reply) := Conclude(p, now, window, max, member);
    (zs[key := z], reply)
  }

  lemma CheckAtConcludes(zs: map<string, Scores>, key: string, now: int, window: int, max: int, member: RequestId,
                         p: Scores)
    requires p == Purge(ScoresAt(zs, key), now - window)
    ensures CheckAt(zs, key, now, window, max, member) == ConcludeAt(zs, key, p, now, window, max, member)
  {
    CheckConcludes(ScoresAt(zs, key), now, window, max, member);
  }

  function Expired(deadlines: map<string, int>, now: int): set<string> {
    set k | k in deadlines && deadlines[k] <= now
  }

  // When a key written now is to expire: EXPIRE takes whole seconds, one more than the window.
  function Deadline(now: int, window: int): (deadline: int)
    ensures window % 1000 == 0 ==> deadline == now + window + 1000
  {
    now + ((window + 999) / 1000 + 1) * 1000
  }

  /** The sorted sets in Redis with their expiry deadlines, in milliseconds. */
  class RateLimitStore {
    var zsets: map<string, Scores>
    var deadlines: map<string, int>

    // The sorted sets as they would be if keys never expired, and the latest time seen.
    ghost var ideal: map<string, Scores>
    ghost var clock: int

    ghost predicate Valid()
      reads this
    {
      zsets.Keys == deadlines.Keys && zsets.Keys <= ideal.Keys &&
      forall k {:trigger Kept(k)} :: k in ideal ==> Kept(k)
    }

    // A stored set is the ideal one; a missing one had left its window before it was dropped.
    ghost predicate Kept(k: string)
      requires k in ideal && zsets.Keys == deadlines.Keys
      reads this
    {
      KeyWindow(k) > 0 && Within(ideal[k], clock) &&
      if k in zsets then zsets[k] == ideal[k] && Within(ideal[k], deadlines[k] - KeyWindow(k) - 1000)
      else Within(ideal[k], clock - KeyWindow(k))
    }

    constructor ()
      ensures Valid() && ideal == map[]
    {
      zsets, deadlines, ideal, clock := map[], map[], map[], 0;
    }

    // Redis drops the keys whose deadline has passed.
    method Expire(now: int)
      requires Valid() && clock <= now
      modifies this
      ensures Valid() && clock == now && ideal == old(ideal)
      ensures zsets == old(zsets) - Expired(old(deadlines), now)
      ensures deadlines == old(deadlines) - Expired(old(deadlines), now)
    {
      var gone := Expired(deadlines, now);
      zsets, deadlines := zsets - gone, deadlines - gone;
      clock := now;
      forall k | k in ideal ensures Kept(k) {
        assert old(Kept(k));
      }
    }

    method ResetOf(z: Scores, now: int, window: int) returns (ms: int)
      ensures ms == ResetMs(z, now, window)
    {
      if z == map[] {
        return window;
      }
      HasOldest(z);
      var m :| m in z && forall o :: o in z ==> z[m] <= z[o];
      assert IsOldest(z, m);
      ms := z[m] + window - now;
      if ms < 0 {
        ms := 0;
      }
    }

    // What the script can still see of a key is the same as if the key had never expired.
    lemma StoredIsIdeal(key: string, window: int, now: int, z: Scores)
      requires Valid() && window == KeyWindow(key) && now == clock && z == Purge(ScoresAt(zsets, key), now - window)
      ensures z == Purge(ScoresAt(ideal, key), now - window) && Within(z, now)
    {
      if key in ideal {
        assert Kept(key);
        if key !in zsets {
          PurgeAll(ideal[key], now - window);
        }
      }
    }

    /** One run of the script; the expiry of keys never changes an answer. */
    method AllowRequest(key: string, limit: int, windowSec: int, member: RequestId, now: int)
      returns (allowed: bool, current: nat, resetMs: int)
      requires Valid() && clock <= now && windowSec > 0 && KeyWindow(key) == 1000 * windowSec
      modifies this
      ensures Valid() && clock == now
      ensures (ideal, Reply(allowed, current, resetMs)) ==
        CheckAt(old(ideal), key, now, windowSec * 1000, limit, member)
      ensures ideal[key] != map[] ==> key in deadlines && deadlines[key] == Deadline(now, windowSec * 1000)
    {
      Expire(now);
      var window := windowSec * 1000;
      var z := Purge(ScoresAt(zsets, key), now - window);
      StoredIsIdeal(key, window, now, z);
      CheckAtConcludes(ideal, key, now, window, limit, member, z);
      allowed, current, resetMs := CountAndAdd(key, z, limit, window, member, now);
    }

    method CountAndAdd(key: string, z: Scores, limit: int, window: int, member: RequestId, now: int)
      returns (allowed: bool, current: nat, resetMs: int)
      requires Valid() && clock == now && window > 0 && window % 1000 == 0
      requires Within(z, now) && window == KeyWindow(key)
      modifies this
      ensures Valid() && clock == now
      ensures (ideal, Reply(allowed, current, resetMs)) == ConcludeAt(old(ideal), key, z, now, window, limit, member)
      ensures ideal[key] != map[] ==> key in deadlines && deadlines[key] == Deadline(now, window)
    {
      var count := |z|;
      if count >= limit {
        resetMs := ResetOf(z, now, window);
        Store(key, z, now, window);
        return false, count, resetMs;
      }
      var more := z[member := now];
      resetMs := ResetOf(more, now, window);
      Store(key, more, now, window);
      return true, count + 1, resetMs;
    }

    // Writes the set back and renews its expiry; Redis keeps no empty set.
    method Store(key: string, z: Scores, now: int, window: int)
      requires Valid() && clock == now && window > 0 && window % 1000 == 0
      requires Within(z, now) && window == KeyWindow(key)
      modifies this
      ensures Valid() && clock == now
      ensures ideal == old(ideal)[key := z]
      ensures zsets == if z == map[] then old(zsets) - {key} else old(zsets)[key := z]
      ensures deadlines == if z == map[] then old(deadlines) - {key} else old(deadlines)[key := Deadline(now, window)]
    {
      if z == map[] {
        zsets, deadlines := zsets - {key}, deadlines - {key};
      } else {
        zsets, deadlines := zsets[key := z], deadlines[key := Deadline(now, window)];
      }
      ideal := ideal[key := z];
      forall k | k in ideal ensures Kept(k) {
        if k != key {
          assert old(Kept(k));
        }
      }
    }

    /** Checks every tier in turn and denies at the first one over its limit. */
    method Allow(who: Caller, memberHint: string, hintClock: int, tiers: seq<Tier>, clocks: seq<int>,
                 failing: seq<bool>)
      returns (r: Decision)
      requires Valid() && |clocks| == |failing| == |tiers|
      requires forall i :: 0 <= i < |tiers| ==> tiers[i].windowSec > 0 && Decimal.InInt64(tiers[i].windowSec)
      requires forall i :: 0 <= i < |clocks| ==> clock <= clocks[i]
      requires forall i, j :: 0 <= i < j < |clocks| ==> clocks[i] <= clocks[j]
      modifies this
      ensures Valid()
      ensures (ideal, r) ==
        CheckTiers(old(ideal), KeysOf(who, tiers), tiers, Request(MemberOf(who, memberHint, hintClock), clocks,
          failing),
                   0, 0, 0, 0)
    {
      if |tiers| == 0 {
        return Decision(true, 0, 0, 0, 0, false);
      }
      r := CheckEach(who, MemberOf(who, memberHint, hintClock), tiers, clocks, failing, KeysOf(who, tiers));
    }

    // The loop over the tiers.
    method CheckEach(who: Caller, member: RequestId, tiers: seq<Tier>, clocks: seq<int>, failing: seq<bool>,
                     ghost keys: seq<string>)
      returns (r: Decision)
      requires Valid() && |clocks| == |failing| == |tiers| > 0 && keys == KeysOf(who, tiers)
      requires forall i :: 0 <= i < |tiers| ==> tiers[i].windowSec > 0 && Decimal.InInt64(tiers[i].windowSec)
      requires forall i :: 0 <= i < |clocks| ==> clock <= clocks[i]
      requires forall i, j :: 0 <= i < j < |clocks| ==> clocks[i] <= clocks[j]
      modifies this
      ensures Valid()
      ensures (ideal, r) == CheckTiers(old(ideal), keys, tiers, Request(member, clocks, failing), 0, 0, 0, 0)
    {
      var q := Request(member, clocks, failing);
      ghost var all := CheckTiers(ideal, keys, tiers, q, 0, 0, 0, 0);
      var limit, remaining, resetSec := 0, 0, 0;
      for i := 0 to |tiers|
        invariant Valid() && (i < |tiers| ==> clock <= clocks[i])
        invariant CheckTiers(ideal, keys, tiers, q, i, limit, remaining, resetSec) == all
      {
        var done: Option<Decision>;
        done, limit, remaining, resetSec := CheckTier(who, tiers, i, q, keys, all, limit, remaining, resetSec);
        if done.Some? {
          return done.value;
        }
      }
      return Decision(true, limit, remaining, 0, resetSec, false);
    }

    // One turn of the loop: a decision, or what is reported so far.
    method CheckTier(who: Caller, tiers: seq<Tier>, i: nat, q: Request, ghost keys: seq<string>,
                     ghost all: (map<string, Scores>, Decision), limit: int, remaining: int, resetSec: nat)
      returns (done: Option<Decision>, limit': int, remaining': int, resetSec': nat)
      requires Valid() && i < |tiers| == |q.clocks| == |q.failing| && keys == KeysOf(who, tiers)
      requires clock <= q.clocks[i] && tiers[i].windowSec > 0 && Decimal.InInt64(tiers[i].windowSec)
      requires CheckTiers(ideal, keys, tiers, q, i, limit, remaining, resetSec) == all
      modifies this
      ensures Valid() && clock <= q.clocks[i]
      ensures
        match done
        case Some(d) => all == (ideal, d)
        case None => all == CheckTiers(ideal, keys, tiers, q, i + 1, limit', remaining', resetSec')
    {
      limit', remaining', resetSec' := limit, remaining, resetSec;
      if q.failing[i] {
        return Some(Decision(true, 0, 0, 0, 0, true)), limit, remaining, resetSec;
      }
      ghost var zs := ideal;
      var ok, current, resetMs := CheckOne(who, tiers, i, q.member, q.clocks[i], keys);
      CheckTiersStep(zs, keys, tiers, q, i, limit, remaining, resetSec, ideal[keys[i]], Reply(ok, current, resetMs));
      var rs := RetryAfterSec(resetMs);
      if !ok {
        return Some(Decision(false, tiers[i].limit, 0, rs, rs, false)), limit, remaining, resetSec;
      }
      done := None;
      var rem := tiers[i].limit - current;
      if limit == 0 || rem < remaining {
        limit', remaining', resetSec' := tiers[i].limit, rem, rs;
      }
    }

    method CheckOne(who: Caller, tiers: seq<Tier>, i: nat, member: RequestId, now: int, ghost keys: seq<string>)
      returns (allowed: bool, current: nat, resetMs: int)
      requires Valid() && i < |tiers| && keys == KeysOf(who, tiers)
      requires clock <= now && tiers[i].windowSec > 0 && Decimal.InInt64(tiers[i].windowSec)
      modifies this
      ensures Valid() && clock == now
      ensures
        var (z, reply) := Check(ScoresAt(old(ideal), keys[i]), now, tiers[i].windowSec * 1000, tiers[i].limit, member);
        ideal == old(ideal)[keys[i] := z] && reply == Reply(allowed, current, resetMs)
    {
      KeyTellsWindow(who.userID, who.packageID, who.serviceID, who.resourcePath, tiers[i].windowSec);
      allowed, current, resetMs :=
        AllowRequest(KeyOf(who, tiers[i].windowSec), tiers[i].limit, tiers[i].windowSec, member, now);
    }
  }
}
