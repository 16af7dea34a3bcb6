/** What gets answer after a set, in terms of what the set was given. */
module UpstreamServing {
  import opened GoStrings
  import opened CacheEntry
  import opened MemoryCache
  import opened UpstreamCache

  // Headers the gateway sets itself or that leak internals.
  predicate Stripped(name: string) {
    name == "Age" || name == "Date" || name == "Via" || name == "Server" || name == "Vary" ||
    (|name| >= 7 && name[..7] == "X-Kong-")
  }

  // What was handed in, with its lifetime in whole seconds and without the headers to strip.
  ghost predicate Serves(handed: UpstreamCacheEntry, life: int, e: UpstreamCacheEntry) {
    e.statusCode == handed.statusCode && e.body == handed.body && e.etag == handed.etag && e.ttlSec == life / 1000 &&
    forall k {:trigger k in e.headers} ::
      (k in e.headers <==> k in handed.headers && !Stripped(k)) &&
      (k in e.headers ==> e.headers[k] == handed.headers[k])
  }

  lemma StoredAsHanded(handed: UpstreamCacheEntry, life: int)
    ensures Serves(handed, life, ToStore(handed, life))
  {
    forall k ensures HasPrefix(k, "X-Kong-") <==> |k| >= 7 && k[..7] == "X-Kong-" {
      if |k| >= 7 && k[..7] == "X-Kong-" {
        assert "X-Kong-" <= k[..7] <= k;
      }
    }
  }

  // --- an entry in memory is not kept too short ---

  // What memory holds of the key it holds to within a second of the deadline.
  predicate Prompt(s: Levels, key: Key) {
    key in s.written &&
    match Find(s.l, key)
    case None => true
    case Some(it) => it.expireAt > s.written[key].deadline - 1000
  }

  lemma FillIsPrompt(ttlSec: int, remainingMs: nat)
    requires ttlSec >= 0 && remainingMs < 1000 * ttlSec + 1000
    ensures BackfillMs(ttlSec, remainingMs) > remainingMs - 1000
  {
  }

  // The last write and its deadline agree on the lifetime.
  predicate LivesFor(s: Levels, key: Key) {
    key in s.written && s.written[key].deadline - s.clock < 1000 * s.written[key].entry.ttlSec + 1000
  }

  lemma FetchKeepsPrompt(s: Levels, other: Key, now: int, key: Key, c: Codec, maxBytes: int)
    requires Inv(s, c) && Sound(s, key, c) && Prompt(s, key) && LivesFor(s, key) && s.clock <= now
    ensures Prompt(After(s, Fetch(other, now), c, maxBytes), key)
  {
    if other != key {
      OtherItem(s, other, now, key, c, maxBytes);
    } else if Hit(s.l, key, now).Some? {
      OwnItem(s.l, key, now);
    } else {
      MissedItem(s, key, now, c, maxBytes);
      var w := s.written[key];
      if RedisHit(s.redis, key, now, c).Some? {
        FillIsPrompt(w.entry.ttlSec, w.deadline - now);
      }
    }
  }

  lemma StepKeepsPrompt(s: Levels, op: Op, key: Key, c: Codec, maxBytes: int)
    requires Inv(s, c) && Sound(s, key, c) && Prompt(s, key) && LivesFor(s, key)
    requires Enabled(s, op) && !Writes(op, key)
    ensures Prompt(After(s, op, c, maxBytes), key) && LivesFor(After(s, op, c, maxBytes), key)
  {
    match op
    case Put(other, entry, life, now, outcome) =>
      if outcome == Done {
        OthersKeep(s.l, other, entry, life, now, maxBytes, key);
      }
    case Fetch(other, now) => FetchKeepsPrompt(s, other, now, key, c, maxBytes);
    case _ =>
  }

  lemma {:induction false} RunKeepsPrompt(s: Levels, ops: seq<Op>, key: Key, c: Codec, maxBytes: int)
    requires Inv(s, c) && Sound(s, key, c) && Prompt(s, key) && LivesFor(s, key) && Possible(s, ops, c, maxBytes)
    requires forall i {:trigger ops[i]} :: 0 <= i < |ops| ==> !Writes(ops[i], key)
    ensures Prompt(AfterAll(s, ops, c, maxBytes), key)
    ensures LivesFor(AfterAll(s, ops, c, maxBytes), key)
    ensures AfterAll(s, ops, c, maxBytes).written[key] == s.written[key]
  {
    if ops != [] {
      var before := ops[..|ops| - 1];
      RunKeepsPrompt(s, before, key, c, maxBytes);
      RunKeepsInv(s, before, c, maxBytes);
      RunKeepsSound(s, before, key, c, maxBytes);
      StepKeepsPrompt(AfterAll(s, before, c, maxBytes), ops[|ops| - 1], key, c, maxBytes);
    }
  }

  // --- Redis keeps what it was given ---

  lemma {:induction false} RedisKeeps(s: Levels, ops: seq<Op>, key: Key, c: Codec, maxBytes: int)
    requires forall i {:trigger ops[i]} :: 0 <= i < |ops| ==> !Writes(ops[i], key) && ops[i] != Drop(key)
    requires key in s.redis
    ensures
      var s' := AfterAll(s, ops, c, maxBytes);
      key in s'.redis && s'.redis[key] == s.redis[key]
  {
    if ops != [] {
      RedisKeeps(s, ops[..|ops| - 1], key, c, maxBytes);
      assert !Writes(ops[|ops| - 1], key);
    }
  }

  // The age of a hit, against the time since the write.
  lemma AgeIsNear(s: Levels, key: Key, life: int, later: int, c: Codec)
    requires Inv(s, c) && Sound(s, key, c) && Prompt(s, key) && s.clock <= later
    requires s.written[key].entry.ttlSec == life / 1000 && life > 0 && GetAt(s, key, later, c).Some?
    ensures
      var elapsed, age := later - (s.written[key].deadline - life), GetAt(s, key, later, c).value.1;
      elapsed - 1500 <= 1000 * age && (age > 0 ==> 1000 * age < elapsed + 2000)
  {
  }

  /**
   After a set that survives the codec and is mirrored, and until the next write of the key, whatever else happens: a
   hit has the status, body and ETag handed in and its headers but the stripped ones; there is one as long as the
   lifetime handed in lasts, the default where there was none, unless Redis drops the key, and none later than half a
   second after; and the age it reports is the time since the set, to within two seconds.
   */
  lemma SetIsServed(s: Levels, key: Key, handed: UpstreamCacheEntry, ttl: int, defaultTTL: int, now: int,
                    ops: seq<Op>, later: int, c: Codec, maxBytes: int)
    requires Inv(s, c) && defaultTTL > 0 && s.clock <= now
    requires c.Survives(ToStore(handed, Lifetime(ttl, defaultTTL))) && |handed.body| + 1024 <= maxBytes / 2
    requires
      var op := Put(key, ToStore(handed, Lifetime(ttl, defaultTTL)), Lifetime(ttl, defaultTTL), now, Done);
      LaterGet(After(s, op, c, maxBytes), ops, key, later, c, maxBytes)
    ensures
      var op := Put(key, ToStore(handed, Lifetime(ttl, defaultTTL)), Lifetime(ttl, defaultTTL), now, Done);
      var r := GetAt(AfterAll(After(s, op, c, maxBytes), ops, c, maxBytes), key, later, c);
      var life := if ttl > 0 then ttl else defaultTTL;
      (later <= now + life && Drop(key) !in ops ==> r.Some?) &&
      match r
      case None => true
      case Some((e, age)) =>
        Serves(handed, life, e) && later <= now + life + 500 &&
        later - now - 1500 <= 1000 * age && (age > 0 ==> 1000 * age < later - now + 2000)
  {
    var life := Lifetime(ttl, defaultTTL);
    var op := Put(key, ToStore(handed, life), life, now, Done);
    var s1 := After(s, op, c, maxBytes);
    var s2 := AfterAll(s1, ops, c, maxBytes);
    StoredAsHanded(handed, life);
    StepKeepsInv(s, op, c, maxBytes);
    WriteIsSoundExactly(s, op, c, maxBytes);
    StoredIsFirst(s.l, key, op.entry, life, now, maxBytes);
    RunKeepsInv(s1, ops, c, maxBytes);
    RunKeepsSound(s1, ops, key, c, maxBytes);
    RunKeepsPrompt(s1, ops, key, c, maxBytes);
    SoundIsFresh(s2, key, later, c);
    if GetAt(s2, key, later, c).Some? {
      AgeIsNear(s2, key, life, later, c);
    }
    if Drop(key) !in ops {
      RedisKeeps(s1, ops, key, c, maxBytes);
    }
  }

  /**
   A get that Redis answers leaves the entry in memory, if it fits there: for what it has left to live it is a hit, even
   when Redis has dropped it.
   */
  lemma BackfillIsHit(s: Levels, key: Key, now: int, later: int, c: Codec, maxBytes: int)
    requires Inv(s, c) && Hit(s.l, key, now) == None && GetAt(s, key, now, c).Some? && now <= later
    requires |GetAt(s, key, now, c).value.0.body| + 1024 <= maxBytes / 2
    ensures
      var (e, age) := GetAt(s, key, now, c).value;
      var s' := After(After(s, Fetch(key, now), c, maxBytes), Drop(key), c, maxBytes);
      later <= now + 1000 * (e.ttlSec - age) && age < e.ttlSec ==>
        GetAt(s', key, later, c).Some? && GetAt(s', key, later, c).value.0 == e
  {
    var (e, age) := GetAt(s, key, now, c).value;
    AfterGetMembers(s.l, key, now);
    if age < e.ttlSec {
      StoredIsFirst(AfterGet(s.l, key, now), key, e, (e.ttlSec - age) * 1000, now, maxBytes);
    }
  }
}
