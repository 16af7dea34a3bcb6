/** What a request that is checked against several tiers is promised. */
module RateLimitLaws {
  import opened RateLimitTier
  import opened SlidingWindow
  import opened RateLimiter
  import Decimal

  // Where the least of the first n numbers is first found.
  function ArgMin(xs: seq<int>, n: nat): (t: nat)
    requires 0 < n <= |xs|
    ensures t < n
  {
    if n == 1 then 0
    else
      var t := ArgMin(xs, n - 1);
      if xs[n - 1] < xs[t] then n - 1 else t
  }

  lemma {:induction false} ArgMinIsLeast(xs: seq<int>, n: nat)
    requires 0 < n <= |xs|
    ensures forall k :: 0 <= k < n ==> xs[ArgMin(xs, n)] <= xs[k]
    ensures forall k :: 0 <= k < ArgMin(xs, n) ==> xs[ArgMin(xs, n)] < xs[k]
  {
    if n > 1 {
      ArgMinIsLeast(xs, n - 1);
    }
  }

  // One request meeting the tiers: the sorted sets as it found them, and what each tier answers on its own.
  datatype Round =
    Round(zs: map<string, Scores>, keys: seq<string>, tiers: seq<Tier>, q: Request,
          left: seq<Scores>, replies: seq<Reply>, remaining: seq<int>, resetSec: seq<nat>)
  {
    // Every tier has a key of its own and Redis answers every time.
    ghost predicate Proper() {
      |keys| == |tiers| == |q.clocks| == |q.failing| == |left| == |replies| == |remaining| == |resetSec| > 0 &&
      (forall i, j {:trigger keys[i], keys[j]} :: 0 <= i < j < |keys| ==> keys[i] != keys[j]) &&
      (forall i :: 0 <= i < |q.failing| ==> !q.failing[i]) &&
      (forall i {:trigger Answers(i)} :: 0 <= i < |tiers| ==> Answers(i))
    }

    ghost predicate Answers(i: int)
      requires 0 <= i < |keys| == |tiers| == |q.clocks| == |left| == |replies| == |remaining| == |resetSec|
    {
      (left[i], replies[i]) ==
        Check(ScoresAt(zs, keys[i]), q.clocks[i], tiers[i].windowSec * 1000, tiers[i].limit, q.member) &&
      remaining[i] == tiers[i].limit - replies[i].count && resetSec[i] == RetryAfterSec(replies[i].resetMs) &&
      (replies[i].allowed ==> tiers[i].limit > 0)
    }

    // The first tier from i on that denies the request, or the number of tiers.
    ghost function FirstDenial(i: nat): (d: nat)
      requires i <= |replies|
      ensures i <= d <= |replies|
      ensures forall k :: i <= k < d ==> replies[k].allowed
      ensures d < |replies| ==> !replies[d].allowed
      decreases |replies| - i
    {
      if i < |replies| && replies[i].allowed then FirstDenial(i + 1) else i
    }

    // (limit, remaining, reset) are those of the first tier below n with the least left.
    ghost predicate Reports(n: nat, limit: int, rem: int, reset: nat)
      requires n <= |tiers| == |remaining| == |resetSec|
    {
      if n == 0 then limit == 0
      else
        var t := ArgMin(remaining, n);
        limit == tiers[t].limit > 0 && rem == remaining[t] && reset == resetSec[t]
    }

    // after is zs with the tiers below n charged and nothing else changed.
    ghost predicate ChargedUpTo(after: map<string, Scores>, n: nat)
      requires n <= |keys| == |left|
    {
      (forall k {:trigger keys[k]} :: 0 <= k < |keys| ==>
        ScoresAt(after, keys[k]) == if k < n then left[k] else ScoresAt(zs, keys[k])) &&
      (forall key {:trigger ScoresAt(after, key)} :: key !in keys ==> ScoresAt(after, key) == ScoresAt(zs, key))
    }

    lemma ChargeOne(after: map<string, Scores>, i: nat)
      requires Proper() && i < |tiers| && ChargedUpTo(after, i)
      ensures ChargedUpTo(after[keys[i] := left[i]], i + 1)
    {
      var next := after[keys[i] := left[i]];
      forall k | 0 <= k < |tiers|
        ensures ScoresAt(next, keys[k]) == if k < i + 1 then left[k] else ScoresAt(zs, keys[k])
      {
        if k != i {
          assert keys[k] != keys[i];
          assert ScoresAt(next, keys[k]) == ScoresAt(after, keys[k]);
        }
      }
      forall key | key !in keys ensures ScoresAt(next, key) == ScoresAt(zs, key) {
        assert ScoresAt(after, key) == ScoresAt(zs, key);
      }
    }

    // The outcome of a round denied first by tier d, or by none.
    ghost predicate Decides(result: (map<string, Scores>, Decision), d: nat)
      requires Proper() && d <= |tiers|
    {
      var (after, r) := result;
      (r.allowed <==> d == |tiers|) && !r.failed &&
      if d == |tiers| then ChargedUpTo(after, |tiers|) && Reports(|tiers|, r.limit, r.remaining, r.resetSec)
      else
        ChargedUpTo(after, d + 1) && r.limit == tiers[d].limit && r.remaining == 0 &&
        r.retryAfterSec == r.resetSec == resetSec[d]
    }

    // An admitting tier with less left takes over the report.
    lemma ReportsNext(i: nat, limit: int, rem: int, reset: nat)
      requires Proper() && i < |tiers| && Reports(i, limit, rem, reset) && replies[i].allowed
      ensures
        if limit == 0 || remaining[i] < rem then Reports(i + 1, tiers[i].limit, remaining[i], resetSec[i])
        else Reports(i + 1, limit, rem, reset)
    {
      assert Answers(i);
    }

    lemma DenialDecides(after: map<string, Scores>, i: nat)
      requires Proper() && i < |tiers| && ChargedUpTo(after, i) && !replies[i].allowed
      ensures
        var denial := Decision(false, tiers[i].limit, 0, resetSec[i], resetSec[i], false);
        Decides((after[keys[i] := left[i]], denial), i)
    {
      ChargeOne(after, i);
    }

    // One turn of the walk over the tiers, with the tier's own answer.
    lemma CheckStep(after: map<string, Scores>, i: nat, limit: int, rem: int, reset: nat)
      requires Proper() && i < |tiers| && ChargedUpTo(after, i)
      ensures
        var next := after[keys[i] := left[i]];
        CheckTiers(after, keys, tiers, q, i, limit, rem, reset) ==
        if !replies[i].allowed then (next, Decision(false, tiers[i].limit, 0, resetSec[i], resetSec[i], false))
        else if limit == 0 || remaining[i] < rem then
          CheckTiers(next, keys, tiers, q, i + 1, tiers[i].limit, remaining[i], resetSec[i])
        else CheckTiers(next, keys, tiers, q, i + 1, limit, rem, reset)
    {
      assert Answers(i) && ScoresAt(after, keys[i]) == ScoresAt(zs, keys[i]);
      CheckTiersStep(after, keys, tiers, q, i, limit, rem, reset, left[i], replies[i]);
    }

    // The walk over the tiers with each tier's answer given.
    ghost function Play(after: map<string, Scores>, i: nat, limit: int, rem: int, reset: nat)
      : (map<string, Scores>, Decision)
      requires i <= |tiers| == |keys| == |left| == |replies| == |remaining| == |resetSec|
      decreases |tiers| - i
    {
      if i == |tiers| then (after, Decision(true, limit, rem, 0, reset, false))
      else
        var next := after[keys[i] := left[i]];
        if !replies[i].allowed then (next, Decision(false, tiers[i].limit, 0, resetSec[i], resetSec[i], false))
        else if limit == 0 || remaining[i] < rem then Play(next, i + 1, tiers[i].limit, remaining[i], resetSec[i])
        else Play(next, i + 1, limit, rem, reset)
    }

    // One turn of the two walks: over, or both go on alike.
    lemma TurnAlike(after: map<string, Scores>, i: nat, limit: int, rem: int, reset: nat)
      returns (next: map<string, Scores>, limit': int, rem': int, reset': nat)
      requires Proper() && i < |tiers| && ChargedUpTo(after, i) && replies[i].allowed
      ensures ChargedUpTo(next, i + 1)
      ensures CheckTiers(after, keys, tiers, q, i, limit, rem, reset)
           == CheckTiers(next, keys, tiers, q, i + 1, limit', rem', reset')
      ensures Play(after, i, limit, rem, reset) == Play(next, i + 1, limit', rem', reset')
    {
      CheckStep(after, i, limit, rem, reset);
      ChargeOne(after, i);
      next, limit', rem', reset' := after[keys[i] := left[i]], limit, rem, reset;
      if limit == 0 || remaining[i] < rem {
        limit', rem', reset' := tiers[i].limit, remaining[i], resetSec[i];
      }
    }

    lemma {:induction false} CheckIsPlay(after: map<string, Scores>, i: nat, limit: int, rem: int, reset: nat)
      requires Proper() && i <= |tiers| && ChargedUpTo(after, i)
      ensures CheckTiers(after, keys, tiers, q, i, limit, rem, reset) == Play(after, i, limit, rem, reset)
      decreases |tiers| - i
    {
      if i < |tiers| {
        if replies[i].allowed {
          var next, l, m, s := TurnAlike(after, i, limit, rem, reset);
          CheckIsPlay(next, i + 1, l, m, s);
        } else {
          CheckStep(after, i, limit, rem, reset);
        }
      }
    }

    lemma {:induction false} PlayDecides(after: map<string, Scores>, i: nat, limit: int, rem: int, reset: nat)
      requires Proper() && i <= |tiers|
      requires ChargedUpTo(after, i) && Reports(i, limit, rem, reset)
      ensures Decides(Play(after, i, limit, rem, reset), FirstDenial(i))
      decreases |tiers| - i
    {
      if i < |tiers| {
        if !replies[i].allowed {
          DenialDecides(after, i);
        } else {
          ChargeOne(after, i);
          ReportsNext(i, limit, rem, reset);
          var next := after[keys[i] := left[i]];
          if limit == 0 || remaining[i] < rem {
            PlayDecides(next, i + 1, tiers[i].limit, remaining[i], resetSec[i]);
          } else {
            PlayDecides(next, i + 1, limit, rem, reset);
          }
        }
      }
    }

    /**
     With a key of its own for every tier a request is admitted exactly when every tier admits it, and the
     count reported as remaining is then the least over the tiers. A denied request has charged the tiers
     before the one that denied it, and no later one.
     */
    lemma TierByTier()
      requires Proper()
      ensures Decides(CheckTiers(zs, keys, tiers, q, 0, 0, 0, 0), FirstDenial(0))
    {
      CheckIsPlay(zs, 0, 0, 0, 0);
      PlayDecides(zs, 0, 0, 0, 0);
    }
  }

  ghost function RoundOf(zs: map<string, Scores>, keys: seq<string>, tiers: seq<Tier>, q: Request): Round
    requires |keys| == |tiers| == |q.clocks|
  {
    var outcomes := seq(|tiers|, i requires 0 <= i < |tiers| =>
      Check(ScoresAt(zs, keys[i]), q.clocks[i], tiers[i].windowSec * 1000, tiers[i].limit, q.member));
    Round(zs, keys, tiers, q,
          seq(|tiers|, i requires 0 <= i < |tiers| => outcomes[i].0),
          seq(|tiers|, i requires 0 <= i < |tiers| => outcomes[i].1),
          seq(|tiers|, i requires 0 <= i < |tiers| => tiers[i].limit - outcomes[i].1.count),
          seq(|tiers|, i requires 0 <= i < |tiers| => RetryAfterSec(outcomes[i].1.resetMs)))
  }

  /** So it is for any request that is met by tiers with keys of their own, whatever Redis holds. */
  lemma OwnKeysTierByTier(zs: map<string, Scores>, keys: seq<string>, tiers: seq<Tier>, q: Request)
    requires |keys| == |tiers| == |q.clocks| == |q.failing| > 0
    requires forall i, j {:trigger keys[i], keys[j]} :: 0 <= i < j < |keys| ==> keys[i] != keys[j]
    requires forall i :: 0 <= i < |q.failing| ==> !q.failing[i]
    ensures
      var round := RoundOf(zs, keys, tiers, q);
      round.Proper() && round.Decides(CheckTiers(zs, keys, tiers, q, 0, 0, 0, 0), round.FirstDenial(0))
  {
    RoundOfIsProper(zs, keys, tiers, q);
    RoundOf(zs, keys, tiers, q).TierByTier();
  }

  lemma RoundOfIsProper(zs: map<string, Scores>, keys: seq<string>, tiers: seq<Tier>, q: Request)
    requires |keys| == |tiers| == |q.clocks| == |q.failing| > 0
    requires forall i, j {:trigger keys[i], keys[j]} :: 0 <= i < j < |keys| ==> keys[i] != keys[j]
    requires forall i :: 0 <= i < |q.failing| ==> !q.failing[i]
    ensures RoundOf(zs, keys, tiers, q).Proper()
  {
    var round := RoundOf(zs, keys, tiers, q);
    forall i | 0 <= i < |tiers| ensures round.Answers(i) {
    }
  }

  /** Tiers with different windows have different keys. */
  lemma DistinctWindowsDistinctKeys(who: Caller, tiers: seq<Tier>, i: nat, j: nat)
    requires i < j < |tiers| && tiers[i].windowSec != tiers[j].windowSec
    requires Decimal.InInt64(tiers[i].windowSec) && Decimal.InInt64(tiers[j].windowSec)
    ensures KeysOf(who, tiers)[i] != KeysOf(who, tiers)[j]
  {
    KeyTellsWindow(who.userID, who.packageID, who.serviceID, who.resourcePath, tiers[i].windowSec);
    KeyTellsWindow(who.userID, who.packageID, who.serviceID, who.resourcePath, tiers[j].windowSec);
  }

  // --- histories ---

  // One run of the script.
  datatype Hit = Hit(key: string, window: int, call: Call)

  ghost predicate HasRoom(zs: map<string, Scores>, h: Hit) {
    Allows(ScoresAt(zs, h.key), h.call.now, h.window, h.call.limit)
  }

  ghost function AfterHit(zs: map<string, Scores>, h: Hit): map<string, Scores> {
    zs[h.key := Updated(ScoresAt(zs, h.key), h.call.now, h.window, h.call.limit, h.call.member)]
  }

  // The sorted sets after the script ran these times, for whichever requests, and which of them found room.
  ghost function Replay(hits: seq<Hit>): (r: (map<string, Scores>, seq<bool>))
    ensures |r.1| == |hits|
  {
    if hits == [] then (map[], [])
    else
      var before, h := Replay(hits[..|hits| - 1]), hits[|hits| - 1];
      (AfterHit(before.0, h), before.1 + [HasRoom(before.0, h)])
  }

  lemma ReplayOneMore(hits: seq<Hit>, h: Hit)
    ensures Replay(hits + [h]) == (AfterHit(Replay(hits).0, h), Replay(hits).1 + [HasRoom(Replay(hits).0, h)])
  {
    assert (hits + [h])[..|hits|] == hits;
  }

  // Each run of the script is decided by those before it.
  lemma {:induction false} ReplayAt(hits: seq<Hit>, n: nat, short: seq<Hit>, h: Hit)
    requires n < |hits| && hits[..n] == short && hits[n] == h
    ensures Replay(hits).1[n] == HasRoom(Replay(short).0, h)
  {
    var before := hits[..|hits| - 1];
    if n < |before| {
      assert before[..n] == hits[..n];
      ReplayAt(before, n, short, h);
    }
  }

  // The calls on one key.
  ghost function On(hits: seq<Hit>, key: string): seq<Call> {
    if hits == [] then []
    else
      var before, h := On(hits[..|hits| - 1], key), hits[|hits| - 1];
      if h.key == key then before + [h.call] else before
  }

  // Every key is used for the window it was made for.
  ghost predicate KeysTellWindows(hits: seq<Hit>) {
    forall n {:trigger hits[n]} :: 0 <= n < |hits| ==> hits[n].window == KeyWindow(hits[n].key)
  }

  // A key's sorted set is that of a limiter which sees only the calls on it.
  lemma {:induction false} KeyAlone(hits: seq<Hit>, key: string)
    requires KeysTellWindows(hits)
    ensures ScoresAt(Replay(hits).0, key) == Run(On(hits, key), KeyWindow(key)).0
  {
    if hits != [] {
      var before, h := hits[..|hits| - 1], hits[|hits| - 1];
      assert forall n :: 0 <= n < |before| ==> before[n] == hits[n];
      KeyAlone(before, key);
      assert (On(before, key) + [h.call])[..|On(before, key)|] == On(before, key);
    }
  }

  lemma {:induction false} OnPrefix(hits: seq<Hit>, key: string, n: nat)
    requires n < |hits| && hits[n].key == key
    ensures On(hits[..n], key) + [hits[n].call] <= On(hits, key)
  {
    var before := hits[..|hits| - 1];
    if n < |before| {
      assert before[..n] == hits[..n];
      OnPrefix(before, key, n);
    }
  }

  lemma {:induction false} RunAt(calls: seq<Call>, window: int, j: nat)
    requires j < |calls|
    ensures Run(calls, window).1[j] == Allows(Run(calls[..j], window).0, calls[j].now, window, calls[j].limit)
  {
    var before := calls[..|calls| - 1];
    if j < |before| {
      assert before[..j] == calls[..j];
      RunAt(before, window, j);
    }
  }

  // And so is every answer.
  lemma AnswerAlone(hits: seq<Hit>, n: nat, key: string)
    requires KeysTellWindows(hits) && n < |hits| && hits[n].key == key
    ensures
      var j, calls := |On(hits[..n], key)|, On(hits, key);
      j < |calls| && calls[j] == hits[n].call && Replay(hits).1[n] == Run(calls, KeyWindow(key)).1[j]
  {
    var j := |On(hits[..n], key)|;
    OnPrefix(hits, key, n);
    assert On(hits, key)[..j] == On(hits[..n], key);
    ReplayAt(hits, n, hits[..n], hits[n]);
    RunAt(On(hits, key), KeyWindow(key), j);
    KeyAlone(hits[..n], key);
  }

  // One request: its tiers, and where in a history the script ran for each tier it got to.
  datatype Visit = Visit(keys: seq<string>, tiers: seq<Tier>, q: Request, at: seq<nat>) {

    // The script ran for the tiers in order, and for a next tier only when the one before had room.
    ghost predicate In(hits: seq<Hit>) {
      |at| <= |tiers| == |keys| == |q.clocks| &&
      (forall i {:trigger at[i]} :: 0 <= i < |at| ==> at[i] < |hits| && hits[at[i]] == HitAt(keys, tiers, q, i)) &&
      (forall i {:trigger at[i]} :: 0 <= i < |at| - 1 ==> at[i] < at[i + 1] && Replay(hits).1[at[i]])
    }

    ghost predicate Admitted(hits: seq<Hit>)
      requires In(hits)
    {
      |at| == |tiers| && forall i {:trigger at[i]} :: 0 <= i < |at| ==> Replay(hits).1[at[i]]
    }

    // It is checked against the key under no higher a limit, at a time within (t - window, t].
    ghost predicate Meets(key: string, limit: int, t: int) {
      |tiers| == |keys| == |q.clocks| &&
      exists i {:trigger keys[i]} :: 0 <= i < |tiers| && keys[i] == key && tiers[i].limit <= limit &&
        t - KeyWindow(key) < q.clocks[i] <= t
    }
  }

  ghost function HitAt(keys: seq<string>, tiers: seq<Tier>, q: Request, i: nat): Hit
    requires i < |tiers| == |keys| == |q.clocks|
  {
    Hit(keys[i], tiers[i].windowSec * 1000, Call(q.clocks[i], tiers[i].limit, q.member))
  }

  ghost function HitsOf(keys: seq<string>, tiers: seq<Tier>, q: Request): (all: seq<Hit>)
    requires |tiers| == |keys| == |q.clocks|
    ensures |all| == |tiers|
  {
    seq(|tiers|, i requires 0 <= i < |tiers| => HitAt(keys, tiers, q, i))
  }

  // One turn of the check of the tiers is one run of the script.
  lemma CheckOneTier(zs: map<string, Scores>, keys: seq<string>, tiers: seq<Tier>, q: Request, i: nat,
                     limit: int, remaining: int, resetSec: nat) returns (limit': int, remaining': int, resetSec': nat)
    requires i < |tiers| == |keys| == |q.clocks| == |q.failing| && !q.failing[i]
    ensures
      var h, outcome := HitAt(keys, tiers, q, i), CheckTiers(zs, keys, tiers, q, i, limit, remaining, resetSec);
      if HasRoom(zs, h) then
        outcome == CheckTiers(AfterHit(zs, h), keys, tiers, q, i + 1, limit', remaining', resetSec')
      else outcome.0 == AfterHit(zs, h) && !outcome.1.allowed
  {
    limit', remaining', resetSec' := limit, remaining, resetSec;
    var h := HitAt(keys, tiers, q, i);
    var (z, reply) := Check(ScoresAt(zs, h.key), h.call.now, h.window, h.call.limit, h.call.member);
    CheckTiersStep(zs, keys, tiers, q, i, limit, remaining, resetSec, z, reply);
    if limit == 0 || tiers[i].limit - reply.count < remaining {
      limit', remaining', resetSec' := tiers[i].limit, tiers[i].limit - reply.count, RetryAfterSec(reply.resetMs);
    }
  }

  // All runs of the script from i up to d found room.
  ghost predicate AllRoom(room: seq<bool>, i: int, d: int)
    requires 0 <= i && d <= |room|
  {
    forall k {:trigger room[k]} :: i <= k < d ==> room[k]
  }

  // A decision that left these sorted sets after running the script from i up to d; only a complete check admits.
  ghost predicate Stops(result: (map<string, Scores>, Decision), zs: map<string, Scores>, room: seq<bool>, i: nat,
                        d: nat, complete: bool)
    requires i <= d <= |room|
  {
    result.0 == zs && AllRoom(room, i, d - 1) &&
    (result.1.allowed && !result.1.failed <==> complete && AllRoom(room, i, d))
  }

  lemma WalkOneMore(hits: seq<Hit>, all: seq<Hit>, i: nat)
    requires i < |all|
    ensures
      var (zs, room) := Replay(hits + all[..i]);
      Replay(hits + all[..i + 1]) == (AfterHit(zs, all[i]), room + [HasRoom(zs, all[i])])
  {
    ReplayOneMore(hits + all[..i], all[i]);
    assert hits + all[..i + 1] == hits + all[..i] + [all[i]];
  }

  lemma WalkPrefix(hits: seq<Hit>, all: seq<Hit>, i: nat, d: nat, long: seq<Hit>, short: seq<Hit>)
    requires i < d <= |all| && long == hits + all[..d] && short == hits + all[..i]
    ensures |long| == |hits| + d && Replay(long).1[|hits| + i] == HasRoom(Replay(short).0, all[i])
  {
    LongerWalk(hits, all, i, d, long, short);
    ReplayAt(long, |hits| + i, short, all[i]);
  }

  lemma LongerWalk(hits: seq<Hit>, all: seq<Hit>, i: nat, d: nat, long: seq<Hit>, short: seq<Hit>)
    requires i < d <= |all| && long == hits + all[..d] && short == hits + all[..i]
    ensures |long| == |hits| + d && long[..|hits| + i] == short && long[|hits| + i] == all[i]
  {
  }

  lemma StopsEarlier(result: (map<string, Scores>, Decision), zs: map<string, Scores>, room: seq<bool>, i: nat, d: nat,
                     complete: bool)
    requires i < d <= |room| && room[i] && Stops(result, zs, room, i + 1, d, complete)
    ensures Stops(result, zs, room, i, d, complete)
  {
  }

  lemma StopsHere(result: (map<string, Scores>, Decision), zs: map<string, Scores>, room: seq<bool>, i: nat,
                  complete: bool)
    requires i < |room| && !room[i] && result.0 == zs && !result.1.allowed
    ensures Stops(result, zs, room, i, i + 1, complete)
  {
  }

  ghost predicate StopsAfter(result: (map<string, Scores>, Decision), hits: seq<Hit>, all: seq<Hit>, i: nat, d: nat)
    requires i <= d <= |all|
  {
    Stops(result, Replay(hits + all[..d]).0, Replay(hits + all[..d]).1, |hits| + i, |hits| + d, d == |all|)
  }

  // One more tier in front, that let the request through or not.
  lemma WalkStep(result: (map<string, Scores>, Decision), hits: seq<Hit>, all: seq<Hit>, i: nat, d: nat)
    requires i < d <= |all|
    requires
      var h := HasRoom(Replay(hits + all[..i]).0, all[i]);
      if h then StopsAfter(result, hits, all, i + 1, d)
      else d == i + 1 && result.0 == Replay(hits + all[..d]).0 && !result.1.allowed
    ensures StopsAfter(result, hits, all, i, d)
  {
    WalkPrefix(hits, all, i, d, hits + all[..d], hits + all[..i]);
    var (zs, room) := Replay(hits + all[..d]);
    if room[|hits| + i] {
      StopsEarlier(result, zs, room, |hits| + i, |hits| + d, d == |all|);
    } else {
      StopsHere(result, zs, room, |hits| + i, d == |all|);
    }
  }

  lemma {:induction false} CheckIsWalk(hits: seq<Hit>, all: seq<Hit>, keys: seq<string>, tiers: seq<Tier>, q: Request,
                                       i: nat, limit: int, remaining: int, resetSec: nat) returns (d: nat)
    requires i <= |tiers| == |keys| == |q.clocks| == |q.failing| && all == HitsOf(keys, tiers, q)
    ensures i <= d <= |tiers|
    ensures StopsAfter(CheckTiers(Replay(hits + all[..i]).0, keys, tiers, q, i, limit, remaining, resetSec),
                       hits, all, i, d)
    decreases |tiers| - i
  {
    d := i;
    if i < |tiers| && !q.failing[i] {
      var zs := Replay(hits + all[..i]).0;
      var l, rem, rs := CheckOneTier(zs, keys, tiers, q, i, limit, remaining, resetSec);
      WalkOneMore(hits, all, i);
      if HasRoom(zs, all[i]) {
        d := CheckIsWalk(hits, all, keys, tiers, q, i + 1, l, rem, rs);
      } else {
        d := i + 1;
      }
      WalkStep(CheckTiers(zs, keys, tiers, q, i, limit, remaining, resetSec), hits, all, i, d);
    }
  }

  /** A request whose tiers are checked without interruption is a visit, admitted exactly when the decision says so. */
  lemma CheckIsVisit(hits: seq<Hit>, keys: seq<string>, tiers: seq<Tier>, q: Request) returns (more: seq<Hit>, v: Visit)
    requires |tiers| == |keys| == |q.clocks| == |q.failing|
    ensures v.keys == keys && v.tiers == tiers && v.q == q && v.In(hits + more)
    ensures
      var (zs, r) := CheckTiers(Replay(hits).0, keys, tiers, q, 0, 0, 0, 0);
      zs == Replay(hits + more).0 && (v.Admitted(hits + more) <==> r.allowed && !r.failed)
  {
    var all := HitsOf(keys, tiers, q);
    var d := CheckIsWalk(hits, all, keys, tiers, q, 0, 0, 0, 0);
    assert hits + all[..0] == hits;
    more := all[..d];
    v := Visit(keys, tiers, q, seq(d, k requires 0 <= k < d => |hits| + k));
    VisitOf(hits, more, Replay(hits + more).1, v);
  }

  lemma RoomAtAll(room: seq<bool>, at: seq<nat>, n: nat, d: nat)
    requires d <= |at| && n + d <= |room| && forall k {:trigger at[k]} :: 0 <= k < |at| ==> at[k] == n + k
    ensures (forall i {:trigger at[i]} :: 0 <= i < d ==> room[at[i]]) <==> AllRoom(room, n, n + d)
  {
    if forall i {:trigger at[i]} :: 0 <= i < d ==> room[at[i]] {
      forall k | n <= k < n + d ensures room[k] {
        assert at[k - n] == k;
      }
    }
  }

  lemma VisitOf(hits: seq<Hit>, more: seq<Hit>, room: seq<bool>, v: Visit)
    requires |v.at| == |more| <= |v.tiers| == |v.keys| == |v.q.clocks| && more == HitsOf(v.keys, v.tiers, v.q)[..|more|]
    requires forall k {:trigger v.at[k]} :: 0 <= k < |v.at| ==> v.at[k] == |hits| + k
    requires room == Replay(hits + more).1 && AllRoom(room, |hits|, |hits| + |more| - 1)
    ensures v.In(hits + more)
    ensures v.Admitted(hits + more) <==> |more| == |v.tiers| && AllRoom(room, |hits|, |hits| + |more|)
  {
    if more != [] {
      RoomAtAll(room, v.at, |hits|, |more| - 1);
    }
    RoomAtAll(room, v.at, |hits|, |more|);
    forall i | 0 <= i < |v.at| ensures (hits + more)[v.at[i]] == HitAt(v.keys, v.tiers, v.q, i) {
      assert (hits + more)[|hits| + i] == more[i];
    }
  }

  /**
   However the requests of all callers interleave, no interval as long as a tier's window holds more admitted
   requests checked against that tier than its limit. Requests are told apart by their identifiers.
   */
  lemma EveryTierHolds(hits: seq<Hit>, requests: map<RequestId, Visit>, key: string, limit: int, t: int)
    requires KeysTellWindows(hits) && KeyWindow(key) > 0 && Ordered(On(hits, key))
    requires forall m {:trigger requests[m]} | m in requests ::
      requests[m].q.member == m && requests[m].In(hits) && requests[m].Admitted(hits) &&
      requests[m].Meets(key, limit, t)
    ensures |requests| <= if limit < 0 then 0 else limit
  {
    var calls := On(hits, key);
    var idx := InWindow(calls, Run(calls, KeyWindow(key)).1, KeyWindow(key), limit, t);
    forall m | m in requests ensures m in IdentifiersOf(calls, idx) {
      var j := MetIsCounted(hits, requests[m], key, limit, t);
      assert j in idx;
    }
    SubsetSize(requests.Keys, IdentifiersOf(calls, idx));
    NeverOverLimit(calls, KeyWindow(key), limit, t);
    assert |requests| == |requests.Keys|;
  }

  // An admitted request is among the admissions on each of its keys.
  lemma MetIsCounted(hits: seq<Hit>, v: Visit, key: string, limit: int, t: int) returns (j: nat)
    requires KeysTellWindows(hits) && v.In(hits) && v.Admitted(hits) && v.Meets(key, limit, t)
    ensures
      var calls := On(hits, key);
      j < |calls| && j in InWindow(calls, Run(calls, KeyWindow(key)).1, KeyWindow(key), limit, t) &&
      calls[j].member == v.q.member
  {
    var i :|
      0 <= i < |v.tiers| && v.keys[i] == key && v.tiers[i].limit <= limit && t - KeyWindow(key) < v.q.clocks[i] <= t;
    assert Replay(hits).1[v.at[i]] && hits[v.at[i]] == HitAt(v.keys, v.tiers, v.q, i);
    AnswerAlone(hits, v.at[i], key);
    j := |On(hits[..v.at[i]], key)|;
  }
}
