/**
 The two levels of the response cache: memory in front of Redis. Times and lifetimes are in milliseconds,
 and each operation reads the clock once.
 */
module UpstreamCache {
  import opened GoStrings
  import opened CacheEntry
  import opened CacheCodec
  import opened MemoryCache

  datatype Stored = Stored(data: bytes, deadline: int)

  // The entry last written under a key, as stored, and when it is to expire.
  datatype Written = Written(entry: UpstreamCacheEntry, deadline: int)

  const HEADERS_TO_STRIP: set<string> := {"Age", "Date", "Via", "Server", "Vary"}

  function Sanitize(h: Headers): Headers {
    map k | k in h && k !in HEADERS_TO_STRIP && !HasPrefix(k, "X-Kong-") :: h[k]
  }

  // What a set stores.
  function ToStore(entry: UpstreamCacheEntry, life: int): UpstreamCacheEntry {
    entry.(ttlSec := life / 1000, headers := Sanitize(entry.headers))
  }

  function Lifetime(ttl: int, defaultTTL: int): int {
    if ttl <= 0 then defaultTTL else ttl
  }

  // Redis answers TTL in whole seconds, rounded to the nearest.
  function TtlReply(remainingMs: nat): nat {
    (remainingMs + 500) / 1000
  }

  // The age of an entry read from Redis with this much left to live.
  function RedisAge(ttlSec: int, remainingMs: nat): nat {
    var age := ttlSec - TtlReply(remainingMs);
    if age < 0 then 0 else age
  }

  // How long saveL0 keeps such an entry.
  function BackfillMs(ttlSec: int, remainingMs: nat): int {
    (ttlSec - RedisAge(ttlSec, remainingMs)) * 1000
  }

  /**
   Rounding lets a back-filled entry outlive Redis by at most half a second, and it does outlive it exactly
   when the remaining time rounds up and the entry's own TTL leaves room for that.
   */
  lemma BackfillOutlives(ttlSec: int, remainingMs: nat)
    requires ttlSec >= 0
    ensures BackfillMs(ttlSec, remainingMs) <= remainingMs + 500
    ensures BackfillMs(ttlSec, remainingMs) > remainingMs
       <==> remainingMs % 1000 >= 500 && remainingMs / 1000 < ttlSec
  {
    var q, r := remainingMs / 1000, remainingMs % 1000;
    assert remainingMs == 1000 * q + r;
    assert TtlReply(remainingMs) == if r >= 500 then q + 1 else q;
  }

  /** An entry in memory that expires no later than half a second after Redis never looks younger than in Redis. */
  lemma NeverYounger(item: Item, deadline: int, now: int)
    requires now <= item.expireAt && now <= deadline && item.expireAt <= deadline + 500
    ensures AgeOf(item, now) >= RedisAge(item.entry.ttlSec, deadline - now)
  {
    assert (item.expireAt - now) / 1000 <= (deadline - now + 500) / 1000;
  }

  // What came of a write to Redis: stored, not stored, or stored with the answer lost on the way back.
  datatype RedisOutcome = Done | NotStored | AnswerLost

  // How entries become bytes and back.
  datatype Codec = Codec(encode: UpstreamCacheEntry -> bytes, decode: bytes -> Decoded) {
    predicate Survives(e: UpstreamCacheEntry) {
      decode(encode(e)) == Ok(e)
    }
  }

  function Binary(f: JsonFormat): Codec {
    Codec(e => Encode(e, f), b => Decode(b, f))
  }

  // The entries that survive the binary codec are those whose fields fit.
  lemma SurvivesBinary(e: UpstreamCacheEntry, f: JsonFormat)
    requires RoundTrips(f)
    ensures Binary(f).Survives(e) <==> Representable(e, f)
  {
    RoundTrip(e, f);
  }

  // What Redis alone would answer: the decoded entry and its age.
  function RedisHit(redis: map<Key, Stored>, key: Key, now: int, c: Codec): Option<(UpstreamCacheEntry, nat)> {
    if key !in redis || now > redis[key].deadline then None
    else
      match c.decode(redis[key].data)
      case Ok(e) => Some((e, RedisAge(e.ttlSec, redis[key].deadline - now)))
      case _ => None
  }

  // What a get answers: memory first, then Redis.
  function Answer(redis: map<Key, Stored>, l: seq<Item>, key: Key, now: int, c: Codec)
    : Option<(UpstreamCacheEntry, nat)>
  {
    if Hit(l, key, now).Some? then Hit(l, key, now) else RedisHit(redis, key, now, c)
  }

  // Memory after back-filling what Redis answered, if it did.
  function Filled(l: seq<Item>, r: Option<(UpstreamCacheEntry, nat)>, key: Key, now: int, maxBytes: int): seq<Item> {
    match r
    case None => l
    case Some((e, age)) => AfterSet(l, key, e, (e.ttlSec - age) * 1000, now, maxBytes)
  }

  // Memory after a get: a hit moves to the front, a miss is filled from Redis.
  function MemoryAfterGet(l: seq<Item>, redis: map<Key, Stored>, key: Key, now: int, c: Codec,
                          maxBytes: int): seq<Item>
  {
    if Hit(l, key, now).Some? then AfterGet(l, key, now)
    else Filled(AfterGet(l, key, now), RedisHit(redis, key, now, c), key, now, maxBytes)
  }

  // --- runs ---

  // The two levels, the last write of every key, whether every operation so far fell on a whole second, and when the
  // latest of them was.
  datatype Levels = Levels(redis: map<Key, Stored>, l: seq<Item>, written: map<Key, Written>, whole: bool, clock: int) {
    // When an entry may leave memory at the latest: Redis answers a TTL rounded to the second.
    function LatestExpiry(key: Key): int
      requires key in written
    {
      written[key].deadline + if whole then 0 else 500
    }

    predicate RedisHolds(key: Key) {
      key in redis && clock <= redis[key].deadline
    }

    // The item is the last write and leaves memory in time, or has expired.
    predicate Right(it: Item)
      requires it.key in written
    {
      clock <= it.expireAt ==> it.entry == written[it.key].entry && it.expireAt <= LatestExpiry(it.key)
    }
  }

  function Start(now: int): Levels {
    Levels(map[], [], map[], true, now)
  }

  datatype Op =
    | Put(key: Key, entry: UpstreamCacheEntry, life: int, now: int, outcome: RedisOutcome)
    | Fetch(key: Key, now: int)
    | Drop(key: Key)
    | Restart

  // Clocks do not run backwards, and what is stored knows its lifetime in seconds.
  predicate Enabled(s: Levels, op: Op) {
    match op
    case Put(_, entry, life, now, _) => s.clock <= now && life > 0 && entry.ttlSec == life / 1000
    case Fetch(_, now) => s.clock <= now
    case _ => true
  }

  // Redis drops a key on expiry or under memory pressure; a restarted gateway begins with empty memory.
  function After(s: Levels, op: Op, c: Codec, maxBytes: int): Levels {
    match op
    case Put(key, entry, life, now, outcome) =>
      if outcome == NotStored then s.(whole := s.whole && now % 1000 == 0, clock := now)
      else
        Levels(s.redis[key := Stored(c.encode(entry), now + life)],
               if outcome == Done then AfterSet(s.l, key, entry, life, now, maxBytes) else s.l,
               s.written[key := Written(entry, now + life)], s.whole && now % 1000 == 0 && life % 1000 == 0, now)
    case Fetch(key, now) =>
      s.(l := MemoryAfterGet(s.l, s.redis, key, now, c, maxBytes), whole := s.whole && now % 1000 == 0, clock := now)
    case Drop(key) => s.(redis := s.redis - {key})
    case Restart => s.(l := [])
  }

  function AfterAll(s: Levels, ops: seq<Op>, c: Codec, maxBytes: int): Levels {
    if ops == [] then s else After(AfterAll(s, ops[..|ops| - 1], c, maxBytes), ops[|ops| - 1], c, maxBytes)
  }

  predicate Possible(s: Levels, ops: seq<Op>, c: Codec, maxBytes: int) {
    ops == [] ||
    (Possible(s, ops[..|ops| - 1], c, maxBytes) && Enabled(AfterAll(s, ops[..|ops| - 1], c, maxBytes), ops[|ops| - 1]))
  }

  // Redis holds what was last written, if it still holds the key, and memory only keys that were written.
  ghost predicate Inv(s: Levels, c: Codec) {
    (forall k {:trigger k in s.redis} :: k in s.redis ==>
      k in s.written && s.redis[k] == Stored(c.encode(s.written[k].entry), s.written[k].deadline) &&
      s.written[k].entry.ttlSec >= 0 && (s.whole ==> s.written[k].deadline % 1000 == 0)) &&
    (forall it {:trigger it in s.l} :: it in s.l ==> it.key in s.written && it.size > 0)
  }

  // The last write under the key can be read back from wherever it is held.
  predicate Sound(s: Levels, key: Key, c: Codec) {
    key in s.written && (s.RedisHolds(key) ==> c.Survives(s.written[key].entry)) &&
    match Find(s.l, key)
    case None => true
    case Some(it) => s.Right(it)
  }

  /**
   What a get must answer. A hit is the entry last written; it comes at most half a second after Redis has dropped
   it, not at all later when everything falls on whole seconds; and it never looks younger than in Redis. A key that
   Redis still holds is a hit.
   */
  predicate Fresh(s: Levels, key: Key, now: int, r: Option<(UpstreamCacheEntry, nat)>) {
    key in s.written &&
    var w := s.written[key];
    match r
    case None => key !in s.redis || now > s.redis[key].deadline
    case Some((e, age)) =>
      e == w.entry && now <= s.LatestExpiry(key) && (now <= w.deadline ==> age >= RedisAge(e.ttlSec, w.deadline - now))
  }

  function GetAt(s: Levels, key: Key, now: int, c: Codec): Option<(UpstreamCacheEntry, nat)> {
    Answer(s.redis, s.l, key, now, c)
  }

  // --- what every operation keeps ---

  lemma AfterGetMembers(l: seq<Item>, key: Key, now: int)
    ensures forall it :: it in AfterGet(l, key, now) ==> it in l
    ensures Hit(l, key, now) == None ==> forall it :: it in AfterGet(l, key, now) ==> it.key != key
  {
  }

  lemma FetchMembers(s: Levels, key: Key, now: int, c: Codec, maxBytes: int)
    requires Inv(s, c)
    ensures forall it :: it in MemoryAfterGet(s.l, s.redis, key, now, c, maxBytes) ==>
      it.key in s.written && it.size > 0
  {
    AfterGetMembers(s.l, key, now);
    var r := RedisHit(s.redis, key, now, c);
    if r.Some? {
      var (e, age) := r.value;
      AfterSetMembers(AfterGet(s.l, key, now), key, e, (e.ttlSec - age) * 1000, now, maxBytes);
    }
  }

  lemma StepKeepsInv(s: Levels, op: Op, c: Codec, maxBytes: int)
    requires Inv(s, c) && Enabled(s, op)
    ensures Inv(After(s, op, c, maxBytes), c)
  {
    match op
    case Put(key, entry, life, now, _) => AfterSetMembers(s.l, key, entry, life, now, maxBytes);
    case Fetch(key, now) => FetchMembers(s, key, now, c, maxBytes);
    case _ =>
  }

  lemma {:induction false} RunKeepsInv(s: Levels, ops: seq<Op>, c: Codec, maxBytes: int)
    requires Inv(s, c) && Possible(s, ops, c, maxBytes)
    ensures Inv(AfterAll(s, ops, c, maxBytes), c)
  {
    if ops != [] {
      RunKeepsInv(s, ops[..|ops| - 1], c, maxBytes);
      StepKeepsInv(AfterAll(s, ops[..|ops| - 1], c, maxBytes), ops[|ops| - 1], c, maxBytes);
    }
  }

  predicate Writes(op: Op, key: Key) {
    op.Put? && op.key == key && op.outcome != NotStored
  }

  // A set or a get of another key leaves a key's item where it is or evicts it.
  lemma OthersItem(l: seq<Item>, other: Key, now: int, key: Key)
    requires other != key
    ensures Find(AfterGet(l, other, now), key) == Find(l, key)
  {
    FindAfterRemove(l, other, key);
    var it := Find(l, other);
    if it.Some? {
      assert ([it.value] + RemoveKey(l, other))[1..] == RemoveKey(l, other);
    }
  }

  lemma OwnItem(l: seq<Item>, key: Key, now: int)
    ensures Find(AfterGet(l, key, now), key) == if Hit(l, key, now).Some? then Find(l, key) else None
  {
    FindAfterRemove(l, key, key);
  }

  lemma StoredIsFirst(l: seq<Item>, key: Key, entry: UpstreamCacheEntry, remaining: int, now: int, maxBytes: int)
    requires remaining > 0 && Fits(entry, maxBytes) && forall it :: it in l ==> it.size > 0
    ensures Find(AfterSet(l, key, entry, remaining, now, maxBytes), key) ==
              Some(Item(key, entry, SizeOf(entry), now + remaining))
  {
    var it := Item(key, entry, SizeOf(entry), now + remaining);
    var all := [it] + RemoveKey(l, key);
    EvictIsShortest(all, maxBytes);
    TotalHead(all);
    assert Evict(all, maxBytes)[0] == it;
  }

  // The item a back-fill puts in.
  function FillItem(r: (UpstreamCacheEntry, nat), key: Key, now: int): Item {
    Item(key, r.0, SizeOf(r.0), now + (r.0.ttlSec - r.1) * 1000)
  }

  lemma FilledItem(l: seq<Item>, r: Option<(UpstreamCacheEntry, nat)>, key: Key, now: int, maxBytes: int)
    requires Find(l, key) == None && forall it :: it in l ==> it.size > 0
    ensures
      var found := Find(Filled(l, r, key, now, maxBytes), key);
      found == None || (r.Some? && found == Some(FillItem(r.value, key, now)))
  {
    if r.Some? && r.value.0.ttlSec > r.value.1 && Fits(r.value.0, maxBytes) {
      StoredIsFirst(l, key, r.value.0, (r.value.0.ttlSec - r.value.1) * 1000, now, maxBytes);
    }
  }

  lemma FilledOther(l: seq<Item>, r: Option<(UpstreamCacheEntry, nat)>, other: Key, now: int, maxBytes: int, key: Key)
    requires other != key && forall it :: it in l ==> it.size > 0
    ensures Find(Filled(l, r, other, now, maxBytes), key) in {None, Find(l, key)}
  {
    if r.Some? {
      OthersKeep(l, other, r.value.0, (r.value.0.ttlSec - r.value.1) * 1000, now, maxBytes, key);
    }
  }

  // What memory holds under a key after a miss.
  lemma MissedItem(s: Levels, key: Key, now: int, c: Codec, maxBytes: int)
    requires Inv(s, c) && Hit(s.l, key, now) == None
    ensures
      var found, r := Find(MemoryAfterGet(s.l, s.redis, key, now, c, maxBytes), key), RedisHit(s.redis, key, now, c);
      found == None || (r.Some? && found == Some(FillItem(r.value, key, now)))
  {
    OwnItem(s.l, key, now);
    AfterGetMembers(s.l, key, now);
    FilledItem(AfterGet(s.l, key, now), RedisHit(s.redis, key, now, c), key, now, maxBytes);
  }

  // And under another key.
  lemma OtherItem(s: Levels, other: Key, now: int, key: Key, c: Codec, maxBytes: int)
    requires Inv(s, c) && other != key
    ensures Find(MemoryAfterGet(s.l, s.redis, other, now, c, maxBytes), key) in {None, Find(s.l, key)}
  {
    OthersItem(s.l, other, now, key);
    AfterGetMembers(s.l, other, now);
    FilledOther(AfterGet(s.l, other, now), RedisHit(s.redis, other, now, c), other, now, maxBytes, key);
  }

  // Time passes, and memory holds what it did or nothing.
  lemma StillSound(s: Levels, s': Levels, key: Key, c: Codec)
    requires Sound(s, key, c) && s'.redis == s.redis && s'.written == s.written && (s'.whole ==> s.whole)
    requires s.clock <= s'.clock && Find(s'.l, key) in {None, Find(s.l, key)}
    ensures Sound(s', key, c)
  {
  }

  // Back-filling puts in the last write, for no longer than allowed.
  lemma FillIsRight(s: Levels, key: Key, now: int, c: Codec, s': Levels)
    requires Inv(s, c) && Sound(s, key, c) && RedisHit(s.redis, key, now, c).Some? && s.clock <= now == s'.clock
    requires s'.redis == s.redis && s'.written == s.written && s'.whole == (s.whole && now % 1000 == 0)
    requires Find(s'.l, key) == Some(FillItem(RedisHit(s.redis, key, now, c).value, key, now))
    ensures Sound(s', key, c)
  {
    var w := s.written[key];
    BackfillOutlives(w.entry.ttlSec, w.deadline - now);
  }

  lemma FetchKeepsSound(s: Levels, other: Key, now: int, key: Key, c: Codec, maxBytes: int)
    requires Inv(s, c) && Sound(s, key, c) && s.clock <= now
    ensures Sound(After(s, Fetch(other, now), c, maxBytes), key, c)
  {
    var s' := After(s, Fetch(other, now), c, maxBytes);
    if other != key {
      OtherItem(s, other, now, key, c, maxBytes);
      StillSound(s, s', key, c);
    } else if Hit(s.l, key, now).Some? {
      OwnItem(s.l, key, now);
      StillSound(s, s', key, c);
    } else {
      MissedItem(s, key, now, c, maxBytes);
      if Find(s'.l, key) == None {
        StillSound(s, s', key, c);
      } else {
        FillIsRight(s, key, now, c, s');
      }
    }
  }

  // Nothing but a write of the key itself can make it unsound.
  lemma StepKeepsSound(s: Levels, op: Op, key: Key, c: Codec, maxBytes: int)
    requires Inv(s, c) && Sound(s, key, c) && Enabled(s, op) && !Writes(op, key)
    ensures Sound(After(s, op, c, maxBytes), key, c)
  {
    match op
    case Put(other, entry, life, now, outcome) =>
      if outcome == Done {
        OthersKeep(s.l, other, entry, life, now, maxBytes, key);
      }
    case Fetch(other, now) => FetchKeepsSound(s, other, now, key, c, maxBytes);
    case _ =>
  }

  // --- what gets answer ---

  lemma SoundIsFresh(s: Levels, key: Key, now: int, c: Codec)
    requires Inv(s, c) && Sound(s, key, c) && s.clock <= now
    ensures Fresh(s, key, now, GetAt(s, key, now, c))
  {
    var w := s.written[key];
    if Hit(s.l, key, now).Some? && now <= w.deadline {
      NeverYounger(Find(s.l, key).value, w.deadline, now);
    }
  }

  // A set that memory took: the entry fits and the answer of Redis came back.
  predicate Mirrored(op: Op, maxBytes: int)
    requires op.Put?
  {
    op.outcome == Done && Fits(op.entry, maxBytes)
  }

  /**
   After a write that reached Redis the key is sound exactly when the entry survives the codec and memory took it, or
   holds nothing that has not expired, or holds the same entry for no longer than allowed.
   */
  lemma WriteIsSoundExactly(s: Levels, op: Op, c: Codec, maxBytes: int)
    requires Inv(s, c) && op.Put? && op.outcome != NotStored && Enabled(s, op)
    ensures
      var s', held := After(s, op, c, maxBytes), Find(s.l, op.key);
      Sound(s', op.key, c) <==>
        c.Survives(op.entry) &&
        (Mirrored(op, maxBytes) || held == None || op.now > held.value.expireAt ||
         (held.value.entry == op.entry && held.value.expireAt <= s'.LatestExpiry(op.key)))
  {
    if Mirrored(op, maxBytes) {
      StoredIsFirst(s.l, op.key, op.entry, op.life, op.now, maxBytes);
    } else if op.outcome == Done {
      RefusedSetKeepsOld(s.l, op.key, op.entry, op.life, op.now, maxBytes, op.key);
    }
  }

  // Whatever happens next short of another write of the key, every get of it is fresh.
  ghost predicate ServedRight(s: Levels, key: Key, c: Codec, maxBytes: int) {
    forall ops, later {:trigger LaterGet(s, ops, key, later, c, maxBytes)} ::
      LaterGet(s, ops, key, later, c, maxBytes) ==>
      var s' := AfterAll(s, ops, c, maxBytes);
      Fresh(s', key, later, GetAt(s', key, later, c))
  }

  ghost predicate LaterGet(s: Levels, ops: seq<Op>, key: Key, later: int, c: Codec, maxBytes: int) {
    Possible(s, ops, c, maxBytes) && AfterAll(s, ops, c, maxBytes).clock <= later &&
    forall i {:trigger ops[i]} :: 0 <= i < |ops| ==> !Writes(ops[i], key)
  }

  lemma {:induction false} RunKeepsSound(s: Levels, ops: seq<Op>, key: Key, c: Codec, maxBytes: int)
    requires Inv(s, c) && Sound(s, key, c) && Possible(s, ops, c, maxBytes)
    requires forall i {:trigger ops[i]} :: 0 <= i < |ops| ==> !Writes(ops[i], key)
    ensures Sound(AfterAll(s, ops, c, maxBytes), key, c)
  {
    if ops != [] {
      var before := ops[..|ops| - 1];
      RunKeepsSound(s, before, key, c, maxBytes);
      RunKeepsInv(s, before, c, maxBytes);
      StepKeepsSound(AfterAll(s, before, c, maxBytes), ops[|ops| - 1], key, c, maxBytes);
    }
  }

  /** A key is sound exactly when every get is fresh, whatever happens next short of another write of the key. */
  lemma SoundExactly(s: Levels, key: Key, c: Codec, maxBytes: int)
    requires Inv(s, c) && key in s.written
    ensures ServedRight(s, key, c, maxBytes) <==> Sound(s, key, c)
  {
    if Sound(s, key, c) {
      forall ops, later | LaterGet(s, ops, key, later, c, maxBytes)
        ensures
          var s' := AfterAll(s, ops, c, maxBytes);
          Fresh(s', key, later, GetAt(s', key, later, c))
      {
        RunKeepsSound(s, ops, key, c, maxBytes);
        RunKeepsInv(s, ops, c, maxBytes);
        SoundIsFresh(AfterAll(s, ops, c, maxBytes), key, later, c);
      }
    } else {
      UnsoundIsServed(s, key, c, maxBytes);
    }
  }

  lemma UnsoundIsServed(s: Levels, key: Key, c: Codec, maxBytes: int)
    requires Inv(s, c) && key in s.written && !Sound(s, key, c)
    ensures !ServedRight(s, key, c, maxBytes)
  {
    var found := Find(s.l, key);
    if found.Some? && !s.Right(found.value) {
      var later := if found.value.entry != s.written[key].entry then s.clock else found.value.expireAt;
      assert LaterGet(s, [], key, later, c, maxBytes);
    } else {
      var ops := [Restart];
      assert ops[..0] == [] && AfterAll(s, [], c, maxBytes) == s && Possible(s, [], c, maxBytes);
      assert AfterAll(s, ops, c, maxBytes) == s.(l := []);
      assert LaterGet(s, ops, key, s.clock, c, maxBytes);
    }
  }

  // --- whole runs ---

  predicate Good(op: Op, c: Codec, maxBytes: int) {
    op.Put? ==> c.Survives(op.entry) && Mirrored(op, maxBytes)
  }

  predicate OnWholeSecond(op: Op) {
    match op
    case Put(_, _, life, now, _) => now % 1000 == 0 && life % 1000 == 0
    case Fetch(_, now) => now % 1000 == 0
    case _ => true
  }

  /**
   Over any run of sets, gets, restarts and losses in Redis, if every write of a key survives the codec and is
   mirrored, the key's last write is what every get of it serves, and a key never written is never a hit.
   */
  lemma EveryRunIsFresh(start: int, ops: seq<Op>, key: Key, later: int, c: Codec, maxBytes: int)
    requires Possible(Start(start), ops, c, maxBytes) && AfterAll(Start(start), ops, c, maxBytes).clock <= later
    requires forall i {:trigger ops[i]} :: 0 <= i < |ops| && Writes(ops[i], key) ==> Good(ops[i], c, maxBytes)
    ensures
      var s := AfterAll(Start(start), ops, c, maxBytes);
      if key in s.written then Fresh(s, key, later, GetAt(s, key, later, c)) else GetAt(s, key, later, c) == None
  {
    var s := AfterAll(Start(start), ops, c, maxBytes);
    RunKeepsInv(Start(start), ops, c, maxBytes);
    EveryRunIsSound(start, ops, key, c, maxBytes);
    if key in s.written {
      SoundIsFresh(s, key, later, c);
    }
  }

  lemma {:induction false} EveryRunIsSound(start: int, ops: seq<Op>, key: Key, c: Codec, maxBytes: int)
    requires Possible(Start(start), ops, c, maxBytes)
    requires forall i {:trigger ops[i]} :: 0 <= i < |ops| && Writes(ops[i], key) ==> Good(ops[i], c, maxBytes)
    ensures
      var s := AfterAll(Start(start), ops, c, maxBytes);
      key in s.written ==> Sound(s, key, c)
  {
    if ops != [] {
      var before, op := ops[..|ops| - 1], ops[|ops| - 1];
      var s := AfterAll(Start(start), before, c, maxBytes);
      assert forall i :: 0 <= i < |before| ==> before[i] == ops[i];
      EveryRunIsSound(start, before, key, c, maxBytes);
      RunKeepsInv(Start(start), before, c, maxBytes);
      if Writes(op, key) {
        WriteIsSoundExactly(s, op, c, maxBytes);
      } else if key in s.written {
        StepKeepsSound(s, op, key, c, maxBytes);
      }
    }
  }

  /** When everything falls on whole seconds nothing outlives its deadline in Redis. */
  lemma {:induction false} WholeRunsStayWhole(start: int, ops: seq<Op>, key: Key, c: Codec, maxBytes: int)
    requires forall i {:trigger ops[i]} :: 0 <= i < |ops| ==> OnWholeSecond(ops[i])
    ensures
      var s := AfterAll(Start(start), ops, c, maxBytes);
      s.whole && (key in s.written ==> s.LatestExpiry(key) == s.written[key].deadline)
  {
    if ops != [] {
      var before := ops[..|ops| - 1];
      assert OnWholeSecond(ops[|ops| - 1]) && forall i :: 0 <= i < |before| ==> before[i] == ops[i];
      WholeRunsStayWhole(start, before, key, c, maxBytes);
    }
  }

  /**
   A stale entry is really served: after an entry that fits and, within its lifetime, a second one that does not, a get
   answers with the first although Redis holds the second.
   */
  lemma StaleIsServed(key: Key, first: UpstreamCacheEntry, second: UpstreamCacheEntry, life: int, now: int, c: Codec,
                      maxBytes: int)
    requires first != second && c.Survives(first) && c.Survives(second) && life > 1
    requires first.ttlSec == second.ttlSec == life / 1000 && Fits(first, maxBytes) && !Fits(second, maxBytes)
    ensures
      var ops := [Put(key, first, life, now, Done), Put(key, second, life, now + 1, Done)];
      var s := AfterAll(Start(now), ops, c, maxBytes);
      Possible(Start(now), ops, c, maxBytes) && s.written[key].entry == second &&
      GetAt(s, key, now + 1, c).Some? && GetAt(s, key, now + 1, c).value.0 == first &&
      RedisHit(s.redis, key, now + 1, c).Some? && RedisHit(s.redis, key, now + 1, c).value.0 == second
  {
    var a, b := Put(key, first, life, now, Done), Put(key, second, life, now + 1, Done);
    var s0 := Start(now);
    assert [a, b][..1] == [a] && [a][..0] == [];
    assert AfterAll(s0, [], c, maxBytes) == s0 && Possible(s0, [], c, maxBytes);
    var s1 := After(s0, a, c, maxBytes);
    assert AfterAll(s0, [a], c, maxBytes) == s1 && Possible(s0, [a], c, maxBytes);
    StoredIsFirst([], key, first, life, now, maxBytes);
    assert AfterAll(s0, [a, b], c, maxBytes) == After(s1, b, c, maxBytes);
  }

  // --- the cache ---

  class UpstreamCache {
    const defaultTTL: int
    const codec: Codec
    const maxBytes: int
    var mem: MemoryCache
    var redis: map<Key, Stored>

    // What was written, whether every operation fell on a whole second, and the latest time.
    ghost var written: map<Key, Written>
    ghost var whole: bool
    ghost var clock: int

    ghost function View(): Levels
      reads this, mem
    {
      Levels(redis, mem.ll, written, whole, clock)
    }

    ghost predicate Valid()
      reads this, mem
    {
      defaultTTL > 0 && mem.Valid() && mem.maxBytes == maxBytes && Inv(View(), codec)
    }

    constructor (defaultTTL: int, json: JsonFormat, maxBytes: int, now: int)
      requires defaultTTL > 0 && maxBytes >= 0
      ensures Valid() && fresh(mem) && View() == Start(now)
      ensures this.defaultTTL == defaultTTL && codec == Binary(json) && this.maxBytes == maxBytes
    {
      this.defaultTTL, codec, this.maxBytes, redis := defaultTTL, Binary(json), maxBytes, map[];
      mem := new MemoryCache(maxBytes);
      written, whole, clock := map[], true, now;
    }

    /** Stores in Redis, then mirrors into memory: a write as runs have it, so when it leaves the key sound is known. */
    method Set(key: Key, entry: UpstreamCacheEntry, ttl: int, now: int, outcome: RedisOutcome) returns (ok: bool)
      requires Valid() && clock <= now
      modifies this, mem
      ensures Valid() && mem == old(mem) && ok == (outcome == Done)
      ensures
        var life := Lifetime(ttl, defaultTTL);
        var op := Put(key, ToStore(entry, life), life, now, outcome);
        Enabled(old(View()), op) && View() == After(old(View()), op, codec, maxBytes)
    {
      var life := Lifetime(ttl, defaultTTL);
      var toStore := ToStore(entry, life);
      StepKeepsInv(View(), Put(key, toStore, life, now, outcome), codec, maxBytes);
      clock, whole := now, whole && now % 1000 == 0;
      if outcome == NotStored {
        return false;
      }
      redis := redis[key := Stored(codec.encode(toStore), now + life)];
      written, whole := written[key := Written(toStore, now + life)], whole && life % 1000 == 0;
      ok := outcome == Done;
      if ok {
        mem.Set(key, toStore, life, now);
      }
    }

    method SaveL0(key: Key, entry: UpstreamCacheEntry, age: nat, now: int)
      requires mem.Valid()
      modifies mem
      ensures mem.Valid()
      ensures mem.ll == AfterSet(old(mem.ll), key, entry, (entry.ttlSec - age) * 1000, now, mem.maxBytes)
    {
      mem.Set(key, entry, (entry.ttlSec - age) * 1000, now);
    }

    // The Redis half of a get, after a miss in memory.
    method GetFromRedis(key: Key, now: int) returns (r: Option<(UpstreamCacheEntry, nat)>)
      requires mem.Valid()
      modifies mem
      ensures mem.Valid() && r == RedisHit(redis, key, now, codec)
      ensures mem.ll == Filled(old(mem.ll), r, key, now, mem.maxBytes)
    {
      if key !in redis || now > redis[key].deadline {
        return None;
      }
      var d := codec.decode(redis[key].data);
      if !d.Ok? {
        return None;
      }
      var age := RedisAge(d.entry.ttlSec, redis[key].deadline - now);
      SaveL0(key, d.entry, age, now);
      return Some((d.entry, age));
    }

    // The two levels, one after the other.
    method GetLevels(key: Key, now: int) returns (r: Option<(UpstreamCacheEntry, nat)>)
      requires mem.Valid()
      modifies mem
      ensures mem.Valid() && r == Answer(redis, old(mem.ll), key, now, codec)
      ensures mem.ll == MemoryAfterGet(old(mem.ll), redis, key, now, codec, mem.maxBytes)
    {
      r := mem.Get(key, now);
      if r == None {
        r := GetFromRedis(key, now);
      }
    }

    /** Memory first, then Redis with back-fill: a fetch as runs have it, so on a sound key the answer is fresh. */
    method Get(key: Key, now: int) returns (r: Option<(UpstreamCacheEntry, nat)>)
      requires Valid() && clock <= now
      modifies this`whole, this`clock, mem
      ensures Valid() && r == GetAt(old(View()), key, now, codec)
      ensures View() == After(old(View()), Fetch(key, now), codec, maxBytes)
    {
      StepKeepsInv(View(), Fetch(key, now), codec, maxBytes);
      clock, whole := now, whole && now % 1000 == 0;
      r := GetLevels(key, now);
    }

    // Redis drops a key, on expiry or under memory pressure.
    method DropFromRedis(key: Key)
      requires Valid()
      modifies `redis
      ensures Valid() && View() == After(old(View()), Drop(key), codec, maxBytes)
    {
      StepKeepsInv(View(), Drop(key), codec, maxBytes);
      redis := redis - {key};
    }

    // A restarted gateway begins with empty memory over the same Redis.
    method RestartGateway()
      requires Valid()
      modifies `mem
      ensures Valid() && fresh(mem) && View() == After(old(View()), Restart, codec, maxBytes)
    {
      StepKeepsInv(View(), Restart, codec, maxBytes);
      mem := new MemoryCache(maxBytes);
    }
  }
}
