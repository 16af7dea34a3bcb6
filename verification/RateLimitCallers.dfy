/** Callers do not charge each other: when keys tell them apart, and what a request of one leaves of another's sets. */
module RateLimitCallers {
  import opened GoStrings
  import opened RateLimitTier
  import opened SlidingWindow
  import opened RateLimiter
  import Decimal

  // --- keys ---

  // A string and a rest, told apart by the first separator.
  lemma {:induction false} FirstPart(a: string, x: string, b: string, y: string, sep: char)
    requires sep !in a && sep !in b && a + [sep] + x == b + [sep] + y
    ensures a == b && x == y
  {
    var s, t := a + [sep] + x, b + [sep] + y;
    assert s[|a|] == sep && t[|b|] == sep;
    assert forall k | 0 <= k < |a| :: s[k] == a[k] && a[k] in a;
    assert forall k | 0 <= k < |b| :: t[k] == b[k] && b[k] in b;
    assert a == s[..|a|] && b == t[..|b|];
    assert x == s[|a| + 1..] && y == t[|b| + 1..];
  }

  // The same from the end.
  lemma LastPart(a: string, x: string, b: string, y: string, sep: char)
    requires sep !in x && sep !in y && a + [sep] + x == b + [sep] + y
    ensures a == b && x == y
  {
    LastIndexAt(a, x, sep);
    LastIndexAt(b, y, sep);
    var s, t := a + [sep] + x, b + [sep] + y;
    assert a == s[..|a|] && b == t[..|b|];
    assert x == s[|a| + 1..] && y == t[|b| + 1..];
  }

  // Ids without a colon, as Mongo's are and an IPv4 address is.
  predicate Plain(who: Caller) {
    ':' !in who.userID && ':' !in who.packageID && ':' !in who.serviceID
  }

  // An address of any kind in place of the user, and a path that begins with a slash.
  predicate Spelled(who: Caller) {
    '/' !in who.userID && '/' !in who.packageID && '/' !in who.serviceID &&
    ':' !in who.packageID && ':' !in who.serviceID && who.resourcePath != "" && who.resourcePath[0] == '/'
  }

  predicate ToldApart(a: Caller, b: Caller) {
    (Plain(a) && Plain(b)) || (Spelled(a) && Spelled(b))
  }

  // What a key says before the resource's path.
  function Ids(who: Caller): string {
    who.userID + ":" + who.packageID + ":" + who.serviceID
  }

  lemma FormatHasNoColon(w: int)
    requires Decimal.InInt64(w)
    ensures ':' !in Decimal.FormatInt(w)
  {
    Decimal.ParseFormatInt(w);
  }

  lemma KeyParts(who: Caller, w: int)
    ensures KeyOf(who, w) == "ratelimit:" + ((Ids(who) + ":" + who.resourcePath) + [':'] + Decimal.FormatInt(w))
  {
  }

  lemma WindowPart(a: Caller, v: int, b: Caller, w: int)
    requires Decimal.InInt64(v) && Decimal.InInt64(w) && KeyOf(a, v) == KeyOf(b, w)
    ensures v == w && Ids(a) + ":" + a.resourcePath == Ids(b) + ":" + b.resourcePath
  {
    KeyParts(a, v);
    KeyParts(b, w);
    FormatHasNoColon(v);
    FormatHasNoColon(w);
    var s := (Ids(a) + ":" + a.resourcePath) + [':'] + Decimal.FormatInt(v);
    var t := (Ids(b) + ":" + b.resourcePath) + [':'] + Decimal.FormatInt(w);
    assert s == ("ratelimit:" + s)[10..] && t == ("ratelimit:" + t)[10..];
    LastPart(Ids(a) + ":" + a.resourcePath, Decimal.FormatInt(v), Ids(b) + ":" + b.resourcePath,
             Decimal.FormatInt(w), ':');
    Decimal.ParseFormatInt(v);
    Decimal.ParseFormatInt(w);
  }

  lemma PlainPart(a: Caller, b: Caller)
    requires Plain(a) && Plain(b) && Ids(a) + ":" + a.resourcePath == Ids(b) + ":" + b.resourcePath
    ensures a == b
  {
    var x, y := a.serviceID + [':'] + a.resourcePath, b.serviceID + [':'] + b.resourcePath;
    var s, t := a.packageID + [':'] + x, b.packageID + [':'] + y;
    assert Ids(a) + ":" + a.resourcePath == a.userID + [':'] + s;
    assert Ids(b) + ":" + b.resourcePath == b.userID + [':'] + t;
    FirstPart(a.userID, s, b.userID, t, ':');
    FirstPart(a.packageID, x, b.packageID, y, ':');
    FirstPart(a.serviceID, a.resourcePath, b.serviceID, b.resourcePath, ':');
  }

  lemma SpelledPart(a: Caller, b: Caller)
    requires Spelled(a) && Spelled(b) && Ids(a) + ":" + a.resourcePath == Ids(b) + ":" + b.resourcePath
    ensures a == b
  {
    var x, y := a.resourcePath[1..], b.resourcePath[1..];
    assert Ids(a) + ":" + a.resourcePath == (Ids(a) + ":") + ['/'] + x;
    assert Ids(b) + ":" + b.resourcePath == (Ids(b) + ":") + ['/'] + y;
    FirstPart(Ids(a) + ":", x, Ids(b) + ":", y, '/');
    assert Ids(a) == (Ids(a) + ":")[..|Ids(a)|] && Ids(b) == (Ids(b) + ":")[..|Ids(b)|];
    assert Ids(a) == (a.userID + ":" + a.packageID) + [':'] + a.serviceID;
    assert Ids(b) == (b.userID + ":" + b.packageID) + [':'] + b.serviceID;
    LastPart(a.userID + ":" + a.packageID, a.serviceID, b.userID + ":" + b.packageID, b.serviceID, ':');
    assert a.userID + ":" + a.packageID == a.userID + [':'] + a.packageID;
    assert b.userID + ":" + b.packageID == b.userID + [':'] + b.packageID;
    LastPart(a.userID, a.packageID, b.userID, b.packageID, ':');
    assert a.resourcePath == ['/'] + x && b.resourcePath == ['/'] + y;
  }

  /** Two callers, or two windows, never share a key. */
  lemma KeysTellCallers(a: Caller, v: int, b: Caller, w: int)
    requires ToldApart(a, b) && Decimal.InInt64(v) && Decimal.InInt64(w)
    ensures KeyOf(a, v) == KeyOf(b, w) <==> a == b && v == w
  {
    if KeyOf(a, v) == KeyOf(b, w) {
      WindowPart(a, v, b, w);
      if Plain(a) && Plain(b) {
        PlainPart(a, b);
      } else {
        SpelledPart(a, b);
      }
    }
  }

  /** Ids with colons can: the end of one may be taken for the beginning of the next. */
  lemma ColonsCollide(u: string, x: string, p: string, s: string, r: string, w: int)
    ensures KeyOf(Caller(u + ":" + x, p, s, r), w) == KeyOf(Caller(u, x + ":" + p, s, r), w)
  {
    var before, after := "ratelimit:" + u + ":" + x + ":" + p, ":" + s + ":" + r + ":" + Decimal.FormatInt(w);
    assert KeyOf(Caller(u + ":" + x, p, s, r), w) == before + after;
    assert KeyOf(Caller(u, x + ":" + p, s, r), w) == before + after;
  }

  /** Without a header two requests count as one exactly when one user made them in the same millisecond. */
  lemma StandInTells(a: Caller, t: int, b: Caller, u: int)
    requires Decimal.InInt64(t) && Decimal.InInt64(u)
    ensures MemberOf(a, "", t) == MemberOf(b, "", u) <==> a.userID == b.userID && t == u
  {
    FormatHasNoColon(t);
    FormatHasNoColon(u);
    assert MemberOf(a, "", t).id == Decimal.FormatInt(t) + [':'] + a.userID;
    assert MemberOf(b, "", u).id == Decimal.FormatInt(u) + [':'] + b.userID;
    if MemberOf(a, "", t) == MemberOf(b, "", u) {
      FirstPart(Decimal.FormatInt(t), a.userID, Decimal.FormatInt(u), b.userID, ':');
      Decimal.ParseFormatInt(t);
      Decimal.ParseFormatInt(u);
    }
  }

  // --- what others' requests leave ---

  datatype Asked = Asked(who: Caller, tiers: seq<Tier>, q: Request)

  predicate Proper(a: Asked) {
    |a.q.clocks| == |a.q.failing| == |a.tiers| &&
    forall i :: 0 <= i < |a.tiers| ==> Decimal.InInt64(a.tiers[i].windowSec)
  }

  ghost function Outcome(zs: map<string, Scores>, a: Asked): (map<string, Scores>, Decision)
    requires Proper(a)
  {
    CheckTiers(zs, KeysOf(a.who, a.tiers), a.tiers, a.q, 0, 0, 0, 0)
  }

  ghost function AfterAsked(zs: map<string, Scores>, asked: seq<Asked>): map<string, Scores>
    requires forall a :: a in asked ==> Proper(a)
  {
    if asked == [] then zs else Outcome(AfterAsked(zs, asked[..|asked| - 1]), asked[|asked| - 1]).0
  }

  function OnlyBy(asked: seq<Asked>, who: Caller): (r: seq<Asked>)
    ensures forall a :: a in r ==> a in asked
  {
    if asked == [] then []
    else
      var last := asked[|asked| - 1];
      OnlyBy(asked[..|asked| - 1], who) + if last.who == who then [last] else []
  }

  // What is reported after a tier that admits: the tier itself, if it has the least left so far.
  function Reported(tier: Tier, reply: Reply, limit: int, remaining: int, resetSec: nat): (int, int, nat) {
    if limit == 0 || tier.limit - reply.count < remaining
    then (tier.limit, tier.limit - reply.count, RetryAfterSec(reply.resetMs))
    else (limit, remaining, resetSec)
  }

  // The script at one tier.
  ghost function Script(zs: map<string, Scores>, keys: seq<string>, tiers: seq<Tier>, q: Request, i: nat)
    : (Scores, Reply)
    requires i < |tiers| == |q.clocks| == |keys|
  {
    Check(ScoresAt(zs, keys[i]), q.clocks[i], tiers[i].windowSec * 1000, tiers[i].limit, q.member)
  }

  lemma Turn(zs: map<string, Scores>, keys: seq<string>, tiers: seq<Tier>, q: Request, i: nat,
             limit: int, remaining: int, resetSec: nat, z: Scores, reply: Reply, l: int, rem: int, rs: nat)
    requires i < |tiers| == |q.clocks| == |q.failing| == |keys| && !q.failing[i]
    requires (z, reply) == Script(zs, keys, tiers, q, i)
    requires (l, rem, rs) == Reported(tiers[i], reply, limit, remaining, resetSec)
    ensures
      var next, wait := zs[keys[i] := z], RetryAfterSec(reply.resetMs);
      CheckTiers(zs, keys, tiers, q, i, limit, remaining, resetSec) ==
      if reply.allowed then CheckTiers(next, keys, tiers, q, i + 1, l, rem, rs)
      else (next, Decision(false, tiers[i].limit, 0, wait, wait, false))
  {
    CheckTiersStep(zs, keys, tiers, q, i, limit, remaining, resetSec, z, reply);
  }

  // What is not among the keys stays.
  lemma {:induction false} OtherKeysStay(zs: map<string, Scores>, keys: seq<string>, tiers: seq<Tier>, q: Request,
                                         i: nat, limit: int, remaining: int, resetSec: nat, key: string)
    requires i <= |tiers| && |q.clocks| == |q.failing| == |keys| == |tiers| && key !in keys
    ensures ScoresAt(CheckTiers(zs, keys, tiers, q, i, limit, remaining, resetSec).0, key) == ScoresAt(zs, key)
    decreases |tiers| - i, 1
  {
    if i < |tiers| && !q.failing[i] {
      OtherKeysStayNext(zs, keys, tiers, q, i, limit, remaining, resetSec, key);
    }
  }

  lemma {:induction false} OtherKeysStayNext(zs: map<string, Scores>, keys: seq<string>, tiers: seq<Tier>, q: Request,
                                             i: nat, limit: int, remaining: int, resetSec: nat, key: string)
    requires i < |tiers| == |q.clocks| == |q.failing| == |keys| && !q.failing[i] && key !in keys
    ensures ScoresAt(CheckTiers(zs, keys, tiers, q, i, limit, remaining, resetSec).0, key) == ScoresAt(zs, key)
    decreases |tiers| - i, 0
  {
    var (z, reply) := Script(zs, keys, tiers, q, i);
    var (l, rem, rs) := Reported(tiers[i], reply, limit, remaining, resetSec);
    Turn(zs, keys, tiers, q, i, limit, remaining, resetSec, z, reply, l, rem, rs);
    OtherKeysStay(zs[keys[i] := z], keys, tiers, q, i + 1, l, rem, rs, key);
  }

  ghost predicate SameAt(a: map<string, Scores>, b: map<string, Scores>, keys: seq<string>) {
    forall k {:trigger k in keys} :: k in keys ==> ScoresAt(a, k) == ScoresAt(b, k)
  }

  lemma StaysSame(a: map<string, Scores>, b: map<string, Scores>, keys: seq<string>, key: string, z: Scores)
    requires SameAt(a, b, keys)
    ensures SameAt(a[key := z], b[key := z], keys)
  {
  }

  // The decision depends on its keys alone.
  lemma {:induction false} OwnKeysDecide(a: map<string, Scores>, b: map<string, Scores>, keys: seq<string>,
                                         tiers: seq<Tier>, q: Request, i: nat,
                                         limit: int, remaining: int, resetSec: nat)
    requires i <= |tiers| && |q.clocks| == |q.failing| == |keys| == |tiers| && SameAt(a, b, keys)
    ensures CheckTiers(a, keys, tiers, q, i, limit, remaining, resetSec).1
         == CheckTiers(b, keys, tiers, q, i, limit, remaining, resetSec).1
    ensures SameAt(CheckTiers(a, keys, tiers, q, i, limit, remaining, resetSec).0,
                   CheckTiers(b, keys, tiers, q, i, limit, remaining, resetSec).0, keys)
    decreases |tiers| - i, 1
  {
    if i < |tiers| && !q.failing[i] {
      OwnKeysDecideNext(a, b, keys, tiers, q, i, limit, remaining, resetSec);
    }
  }

  lemma {:induction false} OwnKeysDecideNext(a: map<string, Scores>, b: map<string, Scores>, keys: seq<string>,
                                             tiers: seq<Tier>, q: Request, i: nat,
                                             limit: int, remaining: int, resetSec: nat)
    requires i < |tiers| == |q.clocks| == |q.failing| == |keys| && !q.failing[i] && SameAt(a, b, keys)
    ensures CheckTiers(a, keys, tiers, q, i, limit, remaining, resetSec).1
         == CheckTiers(b, keys, tiers, q, i, limit, remaining, resetSec).1
    ensures SameAt(CheckTiers(a, keys, tiers, q, i, limit, remaining, resetSec).0,
                   CheckTiers(b, keys, tiers, q, i, limit, remaining, resetSec).0, keys)
    decreases |tiers| - i, 0
  {
    var (z, reply) := Script(a, keys, tiers, q, i);
    assert keys[i] in keys;
    var (l, rem, rs) := Reported(tiers[i], reply, limit, remaining, resetSec);
    Turn(a, keys, tiers, q, i, limit, remaining, resetSec, z, reply, l, rem, rs);
    Turn(b, keys, tiers, q, i, limit, remaining, resetSec, z, reply, l, rem, rs);
    StaysSame(a, b, keys, keys[i], z);
    OwnKeysDecide(a[keys[i] := z], b[keys[i] := z], keys, tiers, q, i + 1, l, rem, rs);
  }

  // All that a caller's requests can see.
  ghost predicate SameFor(a: map<string, Scores>, b: map<string, Scores>, who: Caller) {
    forall w {:trigger KeyOf(who, w)} :: Decimal.InInt64(w) ==> ScoresAt(a, KeyOf(who, w)) == ScoresAt(b, KeyOf(who, w))
  }

  /** A request leaves every sorted set of every other caller as it was. */
  lemma LeavesOthersAlone(zs: map<string, Scores>, a: Asked, who: Caller)
    requires Proper(a) && who != a.who && ToldApart(a.who, who)
    ensures SameFor(Outcome(zs, a).0, zs, who)
  {
    forall w | Decimal.InInt64(w) ensures ScoresAt(Outcome(zs, a).0, KeyOf(who, w)) == ScoresAt(zs, KeyOf(who, w)) {
      var keys := KeysOf(a.who, a.tiers);
      forall i | 0 <= i < |keys| ensures keys[i] != KeyOf(who, w) {
        KeysTellCallers(a.who, a.tiers[i].windowSec, who, w);
      }
      OtherKeysStay(zs, keys, a.tiers, a.q, 0, 0, 0, 0, KeyOf(who, w));
    }
  }

  lemma OwnAsk(x: map<string, Scores>, y: map<string, Scores>, a: Asked)
    requires Proper(a) && SameFor(x, y, a.who)
    ensures Outcome(x, a).1 == Outcome(y, a).1 && SameFor(Outcome(x, a).0, Outcome(y, a).0, a.who)
  {
    var keys := KeysOf(a.who, a.tiers);
    forall k | k in keys ensures ScoresAt(x, k) == ScoresAt(y, k) {
      var i :| 0 <= i < |keys| && keys[i] == k;
      assert k == KeyOf(a.who, a.tiers[i].windowSec);
    }
    OwnKeysDecide(x, y, keys, a.tiers, a.q, 0, 0, 0, 0);
    forall w | Decimal.InInt64(w)
      ensures ScoresAt(Outcome(x, a).0, KeyOf(a.who, w)) == ScoresAt(Outcome(y, a).0, KeyOf(a.who, w))
    {
      if KeyOf(a.who, w) !in keys {
        OtherKeysStay(x, keys, a.tiers, a.q, 0, 0, 0, 0, KeyOf(a.who, w));
        OtherKeysStay(y, keys, a.tiers, a.q, 0, 0, 0, 0, KeyOf(a.who, w));
      }
    }
  }

  lemma {:induction false} OthersLeave(zs: map<string, Scores>, asked: seq<Asked>, who: Caller)
    requires forall a :: a in asked ==> Proper(a) && ToldApart(a.who, who)
    ensures SameFor(AfterAsked(zs, asked), AfterAsked(zs, OnlyBy(asked, who)), who)
  {
    if asked != [] {
      var before, last := asked[..|asked| - 1], asked[|asked| - 1];
      OthersLeave(zs, before, who);
      if last.who == who {
        var own := OnlyBy(before, who);
        assert (own + [last])[..|own|] == own;
        OwnAsk(AfterAsked(zs, before), AfterAsked(zs, own), last);
      } else {
        LeavesOthersAlone(AfterAsked(zs, before), last, who);
        assert OnlyBy(asked, who) == OnlyBy(before, who);
      }
    }
  }

  /** Whatever all callers asked before, a request gets the decision it gets after its own caller's requests alone. */
  lemma OthersDoNotMatter(zs: map<string, Scores>, asked: seq<Asked>, a: Asked)
    requires Proper(a) && forall b :: b in asked ==> Proper(b) && ToldApart(b.who, a.who)
    ensures Outcome(AfterAsked(zs, asked), a).1 == Outcome(AfterAsked(zs, OnlyBy(asked, a.who)), a).1
  {
    OthersLeave(zs, asked, a.who);
    OwnAsk(AfterAsked(zs, asked), AfterAsked(zs, OnlyBy(asked, a.who)), a);
  }

  // --- when Redis fails ---

  // The first i tiers and what is known of them.
  function Cut(q: Request, i: nat): Request
    requires i <= |q.clocks| && i <= |q.failing|
  {
    Request(q.member, q.clocks[..i], q.failing[..i])
  }

  // The walk up to the first failing tier is the walk over the tiers before it.
  lemma {:induction false} WalkToFailure(zs: map<string, Scores>, keys: seq<string>, tiers: seq<Tier>, q: Request,
                                         i: nat, j: nat, limit: int, remaining: int, resetSec: nat)
    requires 0 < j < |tiers| == |q.clocks| == |q.failing| == |keys| && i <= j
    requires q.failing[j] && forall k :: 0 <= k < j ==> !q.failing[k]
    ensures
      var d := CheckTiers(zs, keys, tiers, q, i, limit, remaining, resetSec).1;
      var before := CheckTiers(zs, keys[..j], tiers[..j], Cut(q, j), i, limit, remaining, resetSec).1;
      if before.allowed then d == Decision(true, 0, 0, 0, 0, true) else d == before
    decreases j - i
  {
    if i < j {
      var (z, reply) := Script(zs, keys, tiers, q, i);
      var (l, rem, rs) := Reported(tiers[i], reply, limit, remaining, resetSec);
      Turn(zs, keys, tiers, q, i, limit, remaining, resetSec, z, reply, l, rem, rs);
      Turn(zs, keys[..j], tiers[..j], Cut(q, j), i, limit, remaining, resetSec, z, reply, l, rem, rs);
      WalkToFailure(zs[keys[i] := z], keys, tiers, q, i + 1, j, l, rem, rs);
    }
  }

  /**
   When Redis fails at a tier the request passes, and the tiers behind it are not asked, unless a tier before it has
   denied it already.
   */
  lemma FailsOpen(zs: map<string, Scores>, a: Asked, j: nat)
    requires Proper(a) && j < |a.tiers| && a.q.failing[j] && forall k :: 0 <= k < j ==> !a.q.failing[k]
    ensures
      var before := Outcome(zs, Asked(a.who, a.tiers[..j], Cut(a.q, j))).1;
      Outcome(zs, a).1 == if before.allowed then Decision(true, 0, 0, 0, 0, true) else before
  {
    if j > 0 {
      assert KeysOf(a.who, a.tiers)[..j] == KeysOf(a.who, a.tiers[..j]);
      WalkToFailure(zs, KeysOf(a.who, a.tiers), a.tiers, a.q, 0, j, 0, 0, 0);
    }
  }
}
