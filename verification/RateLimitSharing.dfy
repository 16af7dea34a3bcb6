/** What happens when several tiers of one request share a key. */
module RateLimitSharing {
  import opened GoStrings
  import opened RateLimitTier
  import opened SlidingWindow
  import opened RateLimiter

  // A request that is checked against some tiers.
  datatype Ask = Ask(keys: seq<string>, tiers: seq<Tier>, q: Request) {

    function Window(i: nat): int
      requires i < |tiers|
    {
      tiers[i].windowSec * 1000
    }

    // Tiers on one key have one window. Redis answers every time, and the whole check takes less than any window.
    ghost predicate Proper() {
      |keys| == |tiers| == |q.clocks| == |q.failing| > 0 &&
      (forall i :: 0 <= i < |tiers| ==> tiers[i].windowSec > 0 && !q.failing[i]) &&
      (forall i, j, k {:trigger Soon(i, j, k)} :: 0 <= i <= j < |keys| && 0 <= k < |keys| ==> Soon(i, j, k))
    }

    ghost predicate Soon(i: int, j: int, k: int)
      requires 0 <= i < |keys| == |tiers| == |q.clocks| && 0 <= j < |keys| && 0 <= k < |keys|
    {
      q.clocks[i] <= q.clocks[j] < q.clocks[i] + Window(k) && (keys[i] == keys[j] ==> Window(i) == Window(j))
    }

    // The tier's window as the request would find it, were it the only tier.
    ghost function Found(zs: map<string, Scores>, i: nat): Scores
      requires i < |keys| == |tiers| == |q.clocks|
    {
      Purge(ScoresAt(zs, keys[i]), q.clocks[i] - Window(i))
    }

    ghost predicate Fresh(zs: map<string, Scores>)
      requires |keys| == |tiers| == |q.clocks|
    {
      forall i: nat {:trigger Found(zs, i)} :: i < |keys| ==> q.member !in Found(zs, i)
    }

    // The last of the first n tiers on a key, or -1.
    function LastOn(n: nat, key: string): (j: int)
      requires n <= |keys|
      ensures -1 <= j < n && (j >= 0 ==> keys[j] == key) && (key in keys[..n] ==> j >= 0)
    {
      if n == 0 then -1 else if keys[n - 1] == key then n - 1 else LastOn(n - 1, key)
    }

    // An earlier tier has the same key.
    predicate Repeats(i: nat)
      requires i < |keys|
    {
      LastOn(i, keys[i]) >= 0
    }

    // There is room for the request, which has been counted already if an earlier tier has the key.
    ghost predicate Room(zs: map<string, Scores>, i: nat)
      requires i < |keys| == |tiers| == |q.clocks|
    {
      |Found(zs, i)| + (if Repeats(i) then 1 else 0) < tiers[i].limit
    }

    ghost predicate AllRoom(zs: map<string, Scores>, n: nat)
      requires |keys| == |tiers| == |q.clocks|
    {
      forall k: nat {:trigger Room(zs, k)} :: n <= k < |keys| ==> Room(zs, k)
    }

    // The tier asked alone.
    ghost predicate OwnAnswer(zs: map<string, Scores>, i: nat)
      requires i < |keys| == |tiers| == |q.clocks|
    {
      Allows(ScoresAt(zs, keys[i]), q.clocks[i], Window(i), tiers[i].limit)
    }

    ghost predicate OwnAnswers(zs: map<string, Scores>)
      requires |keys| == |tiers| == |q.clocks|
    {
      forall i: nat {:trigger OwnAnswer(zs, i)} :: i < |keys| ==> OwnAnswer(zs, i)
    }

    ghost predicate JointAnswer(zs: map<string, Scores>)
      requires |keys| == |tiers| == |q.clocks| == |q.failing|
    {
      CheckTiers(zs, keys, tiers, q, 0, 0, 0, 0).1.allowed
    }

    // The request is admitted exactly when every tier on its own admits it.
    ghost predicate Agree(zs: map<string, Scores>)
      requires |keys| == |tiers| == |q.clocks| == |q.failing|
    {
      JointAnswer(zs) <==> OwnAnswers(zs)
    }

    // --- the walk over the tiers ---

    // A key's set once the first n tiers have charged the request.
    ghost function ChargedSet(zs: map<string, Scores>, n: nat, key: string): Scores
      requires n <= |keys| == |tiers| == |q.clocks|
    {
      var j := LastOn(n, key);
      if j < 0 then ScoresAt(zs, key) else Found(zs, j)[q.member := q.clocks[j]]
    }

    ghost predicate Charged(after: map<string, Scores>, zs: map<string, Scores>, n: nat)
      requires n <= |keys| == |tiers| == |q.clocks|
    {
      forall k {:trigger keys[k]} :: 0 <= k < |keys| ==> ScoresAt(after, keys[k]) == ChargedSet(zs, n, keys[k])
    }

    // What the script makes of a charged set: whether there is room, and the set with the request in it.
    ghost predicate Admits(z: Scores, zs: map<string, Scores>, i: nat)
      requires i < |keys| == |tiers| == |q.clocks|
    {
      (Allows(z, q.clocks[i], Window(i), tiers[i].limit) <==> Room(zs, i)) &&
      (Room(zs, i) ==>
         Updated(z, q.clocks[i], Window(i), tiers[i].limit, q.member) == Found(zs, i)[q.member := q.clocks[i]])
    }

    lemma FirstLook(zs: map<string, Scores>, i: nat)
      requires i < |keys| == |tiers| == |q.clocks| && !Repeats(i)
      ensures Admits(ScoresAt(zs, keys[i]), zs, i)
    {
    }

    lemma SecondLook(zs: map<string, Scores>, i: nat)
      requires Proper() && i < |keys| && Repeats(i) && q.member !in Found(zs, i)
      ensures
        var j := LastOn(i, keys[i]);
        Admits(Found(zs, j)[q.member := q.clocks[j]], zs, i)
    {
      var j := LastOn(i, keys[i]);
      assert Soon(j, i, i) && Found(zs, j) == Purge(ScoresAt(zs, keys[i]), q.clocks[j] - Window(i));
      LookAgain(ScoresAt(zs, keys[i]), q.clocks[j], q.clocks[i], Window(i), tiers[i].limit, q.member,
                Found(zs, j)[q.member := q.clocks[j]], Found(zs, i));
    }

    lemma TierTurn(after: map<string, Scores>, zs: map<string, Scores>, i: nat)
      requires Proper() && Fresh(zs) && i < |keys| && Charged(after, zs, i)
      ensures Admits(ScoresAt(after, keys[i]), zs, i)
    {
      assert q.member !in Found(zs, i);
      assert ScoresAt(after, keys[i]) == ChargedSet(zs, i, keys[i]);
      if Repeats(i) {
        SecondLook(zs, i);
      } else {
        FirstLook(zs, i);
      }
    }

    lemma ChargeNext(after: map<string, Scores>, zs: map<string, Scores>, i: nat)
      requires Proper() && i < |keys| && Charged(after, zs, i)
      ensures Charged(after[keys[i] := Found(zs, i)[q.member := q.clocks[i]]], zs, i + 1)
    {
      var next := after[keys[i] := Found(zs, i)[q.member := q.clocks[i]]];
      forall k | 0 <= k < |keys| ensures ScoresAt(next, keys[k]) == ChargedSet(zs, i + 1, keys[k]) {
        assert ScoresAt(after, keys[k]) == ChargedSet(zs, i, keys[k]);
      }
    }

    // One turn of the walk: denied here, or on to the next tier.
    lemma WalkOn(after: map<string, Scores>, zs: map<string, Scores>, i: nat, limit: int, remaining: int, resetSec: nat)
      returns (next: map<string, Scores>, limit': int, remaining': int, resetSec': nat)
      requires Proper() && Fresh(zs) && i < |keys| && Charged(after, zs, i)
      ensures
        var (_, r) := CheckTiers(after, keys, tiers, q, i, limit, remaining, resetSec);
        if Room(zs, i) then r == CheckTiers(next, keys, tiers, q, i + 1, limit', remaining', resetSec').1
        else !r.allowed
      ensures Room(zs, i) ==> Charged(next, zs, i + 1)
    {
      var (z, reply) := Check(ScoresAt(after, keys[i]), q.clocks[i], Window(i), tiers[i].limit, q.member);
      CheckTiersStep(after, keys, tiers, q, i, limit, remaining, resetSec, z, reply);
      TierTurn(after, zs, i);
      ChargeNext(after, zs, i);
      next, limit', remaining', resetSec' := after[keys[i] := z], limit, remaining, resetSec;
      if limit == 0 || tiers[i].limit - reply.count < remaining {
        limit', remaining', resetSec' := tiers[i].limit, tiers[i].limit - reply.count, RetryAfterSec(reply.resetMs);
      }
    }

    lemma AllRoomStep(zs: map<string, Scores>, i: nat)
      requires i <= |keys| == |tiers| == |q.clocks|
      ensures AllRoom(zs, i) <==> i == |keys| || (Room(zs, i) && AllRoom(zs, i + 1))
    {
    }

    lemma AtEnd(after: map<string, Scores>, limit: int, remaining: int, resetSec: nat)
      requires Proper()
      ensures CheckTiers(after, keys, tiers, q, |keys|, limit, remaining, resetSec).1.allowed
    {
    }

    lemma {:induction false} JointFrom(after: map<string, Scores>, zs: map<string, Scores>, i: nat,
                                       limit: int, remaining: int, resetSec: nat)
      requires Proper() && Fresh(zs) && i <= |keys| && Charged(after, zs, i)
      ensures CheckTiers(after, keys, tiers, q, i, limit, remaining, resetSec).1.allowed <==> AllRoom(zs, i)
      decreases |keys| - i, 1
    {
      AllRoomStep(zs, i);
      if i < |keys| {
        JointTurn(after, zs, i, limit, remaining, resetSec);
      } else {
        AtEnd(after, limit, remaining, resetSec);
      }
    }

    lemma {:induction false} JointTurn(after: map<string, Scores>, zs: map<string, Scores>, i: nat,
                                       limit: int, remaining: int, resetSec: nat)
      requires Proper() && Fresh(zs) && i < |keys| && Charged(after, zs, i)
      ensures CheckTiers(after, keys, tiers, q, i, limit, remaining, resetSec).1.allowed
         <==> Room(zs, i) && AllRoom(zs, i + 1)
      decreases |keys| - i, 0
    {
      var next, l, rem, rs := WalkOn(after, zs, i, limit, remaining, resetSec);
      if Room(zs, i) {
        JointFrom(next, zs, i + 1, l, rem, rs);
      }
    }

    /** A request is admitted exactly when every tier has room for it, counting it if an earlier tier has the key. */
    lemma JointExactly(zs: map<string, Scores>)
      requires Proper() && Fresh(zs)
      ensures JointAnswer(zs) <==> AllRoom(zs, 0)
    {
      JointFrom(zs, zs, 0, 0, 0, 0);
    }

    // --- the joint answer against the tiers' own ---

    // A tier that repeats a key has one place left.
    ghost predicate OnePlaceLeft(zs: map<string, Scores>, i: nat)
      requires i < |keys| == |tiers| == |q.clocks|
    {
      Repeats(i) && |Found(zs, i)| == tiers[i].limit - 1
    }

    ghost predicate SomePlaceLast(zs: map<string, Scores>)
      requires |keys| == |tiers| == |q.clocks|
    {
      exists i: nat {:trigger OnePlaceLeft(zs, i)} :: i < |keys| && OnePlaceLeft(zs, i)
    }

    lemma RoomExactly(zs: map<string, Scores>, i: nat)
      requires i < |keys| == |tiers| == |q.clocks|
      ensures Room(zs, i) <==> OwnAnswer(zs, i) && !OnePlaceLeft(zs, i)
    {
    }

    lemma AllRoomExactly(zs: map<string, Scores>)
      requires |keys| == |tiers| == |q.clocks|
      ensures AllRoom(zs, 0) <==> OwnAnswers(zs) && !SomePlaceLast(zs)
    {
      forall i: nat | i < |keys| ensures Room(zs, i) <==> OwnAnswer(zs, i) && !OnePlaceLeft(zs, i) {
        RoomExactly(zs, i);
      }
    }

    /**
     The joint answer differs from the tiers' own answers exactly when they all admit, and one that repeats the key of
     an earlier tier has one place left.
     */
    lemma SharedKeysExactly(zs: map<string, Scores>)
      requires Proper() && Fresh(zs)
      ensures !Agree(zs) <==> OwnAnswers(zs) && SomePlaceLast(zs)
    {
      JointExactly(zs);
      AllRoomExactly(zs);
    }

    /** Two tiers on one window: the second sees the request that the first has just charged. */
    lemma SharedWindowExactly(zs: map<string, Scores>)
      requires Proper() && Fresh(zs) && |keys| == 2 && keys[0] == keys[1]
      ensures !Agree(zs) <==> |Found(zs, 0)| < tiers[0].limit && |Found(zs, 1)| == tiers[1].limit - 1
      ensures q.clocks[0] == q.clocks[1] ==> Found(zs, 0) == Found(zs, 1)
    {
      SharedKeysExactly(zs);
      SecondRepeats(zs);
      OwnOfTwo(zs);
      OneWindow(zs);
    }

    lemma OwnOfTwo(zs: map<string, Scores>)
      requires |keys| == |tiers| == |q.clocks| == 2
      ensures OwnAnswers(zs) <==> |Found(zs, 0)| < tiers[0].limit && |Found(zs, 1)| < tiers[1].limit
    {
      OwnIsFound(zs, 0);
      OwnIsFound(zs, 1);
      if OwnAnswer(zs, 0) && OwnAnswer(zs, 1) {
        forall i: nat | i < |keys| ensures OwnAnswer(zs, i) {
          assert i == 0 || i == 1;
        }
      }
    }

    lemma OwnIsFound(zs: map<string, Scores>, i: nat)
      requires i < |keys| == |tiers| == |q.clocks|
      ensures OwnAnswer(zs, i) <==> |Found(zs, i)| < tiers[i].limit
    {
    }

    lemma OneWindow(zs: map<string, Scores>)
      requires Proper() && |keys| == 2 && keys[0] == keys[1]
      ensures q.clocks[0] == q.clocks[1] ==> Found(zs, 0) == Found(zs, 1)
    {
      assert Soon(0, 1, 0);
    }

    lemma SecondRepeats(zs: map<string, Scores>)
      requires |keys| == |tiers| == |q.clocks| == 2 && keys[0] == keys[1]
      ensures SomePlaceLast(zs) <==> |Found(zs, 1)| == tiers[1].limit - 1
    {
      assert LastOn(0, keys[0]) == -1 && LastOn(1, keys[1]) == 0;
      assert !OnePlaceLeft(zs, 0);
      assert OnePlaceLeft(zs, 1) <==> |Found(zs, 1)| == tiers[1].limit - 1;
    }

    // --- what the limits alone decide ---

    // A tier on the same key is tighter.
    ghost predicate Undercut(i: nat)
      requires i < |keys| == |tiers|
    {
      exists j: nat :: j < |keys| && keys[j] == keys[i] && tiers[j].limit < tiers[i].limit
    }

    ghost predicate AllUndercut()
      requires |keys| == |tiers|
    {
      forall i: nat {:trigger Repeats(i)} :: i < |keys| && Repeats(i) ==> Undercut(i)
    }

    ghost predicate AllAdmitSome()
      requires |keys| == |tiers|
    {
      forall j :: 0 <= j < |tiers| ==> tiers[j].limit > 0
    }

    // On a key whose repeating tiers are all undercut it is an earlier tier that undercuts.
    lemma {:induction false} EarlierUndercut(i: nat, j: nat) returns (e: nat)
      requires |keys| == |tiers| && AllUndercut() && AllAdmitSome() && i < |keys| && j < |keys|
      requires keys[j] == keys[i] && tiers[j].limit < tiers[i].limit
      ensures e < i && keys[e] == keys[i] && tiers[e].limit < tiers[i].limit
      decreases tiers[j].limit
    {
      if j < i {
        e := j;
      } else {
        assert keys[..j][i] == keys[j] && Repeats(j);
        var k: nat :| k < |keys| && keys[k] == keys[j] && tiers[k].limit < tiers[j].limit;
        e := EarlierUndercut(i, k);
      }
    }

    lemma FewerLater(zs: map<string, Scores>, e: nat, i: nat)
      requires Proper() && e <= i < |keys| && keys[e] == keys[i]
      ensures |Found(zs, i)| <= |Found(zs, e)|
    {
      assert Soon(e, i, i);
      SubsetSize(Found(zs, i).Keys, Found(zs, e).Keys);
      assert |Found(zs, i)| == |Found(zs, i).Keys| && |Found(zs, e)| == |Found(zs, e).Keys|;
    }

    lemma UndercutLeavesRoom(zs: map<string, Scores>, i: nat)
      requires Proper() && AllUndercut() && AllAdmitSome() && i < |keys| && Repeats(i) && OwnAnswers(zs)
      ensures !OnePlaceLeft(zs, i)
    {
      assert Undercut(i);
      var j: nat :| j < |keys| && keys[j] == keys[i] && tiers[j].limit < tiers[i].limit;
      var e := EarlierUndercut(i, j);
      FewerLater(zs, e, i);
      assert OwnAnswer(zs, e);
    }

    lemma HarmlessAgrees(zs: map<string, Scores>)
      requires Proper() && Fresh(zs) && (AllUndercut() || !AllAdmitSome())
      ensures Agree(zs)
    {
      SharedKeysExactly(zs);
      if OwnAnswers(zs) {
        OwnAnswersAdmit(zs);
        forall i: nat | i < |keys| ensures !OnePlaceLeft(zs, i) {
          if Repeats(i) {
            UndercutLeavesRoom(zs, i);
          }
        }
      }
    }

    lemma OwnAnswersAdmit(zs: map<string, Scores>)
      requires |keys| == |tiers| == |q.clocks| && OwnAnswers(zs)
      ensures AllAdmitSome()
    {
      forall j: nat | j < |tiers| ensures tiers[j].limit > 0 {
        assert OwnAnswer(zs, j);
      }
    }

    // Sorted sets on which the answers differ: a crowd that leaves one place at a tier that is not undercut.
    lemma CrowdDisagrees(i: nat) returns (zs: map<string, Scores>)
      requires Proper() && AllAdmitSome() && i < |keys| && Repeats(i) && !Undercut(i)
      ensures Fresh(zs) && !Agree(zs)
    {
      var n := tiers[i].limit - 1;
      zs := map[keys[i] := Crowd(q.member, q.clocks[0], n)];
      forall k: nat | k < |keys|
        ensures q.member !in Found(zs, k) && |Found(zs, k)| == (if keys[k] == keys[i] then n else 0)
        ensures OwnAnswer(zs, k)
      {
        assert Soon(0, k, k);
        CrowdMet(keys[i], keys[k], q.clocks[k] - Window(k), q.member, q.clocks[0], n);
      }
      assert OnePlaceLeft(zs, i);
      SharedKeysExactly(zs);
    }

    /**
     The joint answer is that of the tiers on their own, whatever Redis holds, exactly when every tier that repeats a
     key is undercut on it, or some tier admits nothing at all.
     */
    lemma LimitsDecideExactly()
      requires Proper()
      ensures (forall zs {:trigger Agree(zs)} :: Fresh(zs) ==> Agree(zs)) <==> AllUndercut() || !AllAdmitSome()
    {
      if AllUndercut() || !AllAdmitSome() {
        forall zs | Fresh(zs) ensures Agree(zs) {
          HarmlessAgrees(zs);
        }
      } else {
        var i: nat :| i < |keys| && Repeats(i) && !Undercut(i);
        var zs := CrowdDisagrees(i);
      }
    }
  }

  // n identifiers other than the request's own, all of one moment.
  function Crowd(member: RequestId, now: int, n: nat): (z: Scores)
    ensures forall m :: m in z ==> z[m] == now && |member.id| < |m.id| <= |member.id| + n
    ensures |z| == n
  {
    if n == 0 then map[]
    else
      var z, m := Crowd(member, now, n - 1), RequestId(member.id + seq(n, i => '0'));
      assert z[m := now].Keys == z.Keys + {m};
      assert |z[m := now].Keys| == |z[m := now]| && |z.Keys| == |z|;
      z[m := now]
  }

  // How a tier finds a key with n others on it, when they are not too old for it.
  lemma CrowdMet(key: string, tierKey: string, cutoff: int, member: RequestId, now: int, n: nat)
    requires cutoff < now
    ensures
      var z := Purge(ScoresAt(map[key := Crowd(member, now, n)], tierKey), cutoff);
      member !in z && |z| == if tierKey == key then n else 0
  {
    assert Purge(Crowd(member, now, n), cutoff) == Crowd(member, now, n);
  }

  // Looking at a charged set again finds one more.
  lemma LookAgain(z: Scores, before: int, now: int, window: int, max: int, member: RequestId, charged: Scores,
                  left: Scores)
    requires before <= now < before + window && member !in left
    requires charged == Purge(z, before - window)[member := before] && left == Purge(z, now - window)
    ensures Allows(charged, now, window, max) <==> |left| + 1 < max
    ensures |left| + 1 < max ==> Updated(charged, now, window, max, member) == left[member := now]
  {
    assert Purge(charged, now - window) == left[member := before];
    assert left[member := before][member := now] == left[member := now];
  }
}
