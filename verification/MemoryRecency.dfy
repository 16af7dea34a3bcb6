/** What the in-memory cache holds after any run of calls, in terms of the calls alone: what goes, what is answered. */
module MemoryRecency {
  import opened GoStrings
  import opened CacheEntry
  import opened MemoryCache

  datatype Call =
    | Get(key: Key, now: int)
    | Set(key: Key, entry: UpstreamCacheEntry, remaining: int, now: int)

  function AfterCall(l: seq<Item>, c: Call, maxBytes: int): seq<Item> {
    match c
    case Get(key, now) => AfterGet(l, key, now)
    case Set(key, entry, remaining, now) => AfterSet(l, key, entry, remaining, now, maxBytes)
  }

  function AfterCalls(calls: seq<Call>, maxBytes: int): seq<Item> {
    if calls == [] then [] else AfterCall(AfterCalls(calls[..|calls| - 1], maxBytes), calls[|calls| - 1], maxBytes)
  }

  // A set that is not refused.
  predicate Stores(c: Call, key: Key, maxBytes: int) {
    c.Set? && c.key == key && c.remaining > 0 && |c.entry.body| + 1024 <= maxBytes / 2
  }

  predicate Uses(c: Call, key: Key, maxBytes: int) {
    Stores(c, key, maxBytes) || (c.Get? && c.key == key)
  }

  // When a key was last stored or asked for: the number of the call, or -1.
  function LastUse(calls: seq<Call>, key: Key, maxBytes: int): int {
    if calls == [] then -1
    else if Uses(calls[|calls| - 1], key, maxBytes) then |calls| - 1
    else LastUse(calls[..|calls| - 1], key, maxBytes)
  }

  function LastStore(calls: seq<Call>, key: Key, maxBytes: int): (i: int)
    ensures -1 <= i < |calls| && (i >= 0 ==> Stores(calls[i], key, maxBytes))
    ensures forall k :: i < k < |calls| ==> !Stores(calls[k], key, maxBytes)
  {
    if calls == [] then -1
    else if Stores(calls[|calls| - 1], key, maxBytes) then |calls| - 1
    else LastStore(calls[..|calls| - 1], key, maxBytes)
  }

  // --- the order of the list ---

  // Every item's key was used later than those of the items behind it.
  ghost predicate Falling(l: seq<Item>, use: Key -> int) {
    l == [] || (Falling(l[1..], use) && forall it :: it in l[1..] ==> use(it.key) < use(l[0].key))
  }

  lemma {:induction false} RemoveKeyFalls(l: seq<Item>, key: Key, use: Key -> int)
    requires Falling(l, use)
    ensures Falling(RemoveKey(l, key), use)
  {
    if l != [] {
      var rest := RemoveKey(l[1..], key);
      RemoveKeyFalls(l[1..], key, use);
      assert ([l[0]] + rest)[1..] == rest;
    }
  }

  lemma {:induction false} FallsAlike(l: seq<Item>, was: Key -> int, use: Key -> int)
    requires Falling(l, was) && forall it :: it in l ==> use(it.key) == was(it.key)
    ensures Falling(l, use)
  {
    if l != [] {
      assert l[0] in l;
      FallsAlike(l[1..], was, use);
    }
  }

  lemma {:induction false} PrefixFalls(p: seq<Item>, l: seq<Item>, use: Key -> int)
    requires Falling(l, use) && p <= l
    ensures Falling(p, use)
  {
    if p != [] {
      PrefixFalls(p[1..], l[1..], use);
      forall it | it in p[1..] ensures it in l[1..] {
        var k :| 0 <= k < |p[1..]| && p[1..][k] == it;
        assert l[1..][k] == it;
      }
    }
  }

  lemma {:induction false} FallsAt(l: seq<Item>, use: Key -> int, i: nat, j: nat)
    requires Falling(l, use) && i < j < |l|
    ensures use(l[i].key) > use(l[j].key)
  {
    if i == 0 {
      assert l[1..][j - 1] in l[1..];
    } else {
      FallsAt(l[1..], use, i - 1, j - 1);
    }
  }

  // A key that is used now goes to the front.
  lemma PushFalls(l: seq<Item>, it: Item, was: Key -> int, use: Key -> int)
    requires Falling(l, was)
    requires forall k {:trigger use(k)} :: k != it.key ==> use(k) == was(k) < use(it.key)
    ensures Falling([it] + RemoveKey(l, it.key), use)
  {
    var r := RemoveKey(l, it.key);
    RemoveKeyFalls(l, it.key, was);
    FallsAlike(r, was, use);
    assert ([it] + r)[1..] == r;
  }

  lemma {:induction false} LastUseBound(calls: seq<Call>, key: Key, maxBytes: int)
    ensures -1 <= LastUse(calls, key, maxBytes) < |calls|
  {
    if calls != [] {
      LastUseBound(calls[..|calls| - 1], key, maxBytes);
    }
  }

  function Use(calls: seq<Call>, maxBytes: int): Key -> int {
    k => LastUse(calls, k, maxBytes)
  }

  lemma NowUsed(calls: seq<Call>, c: Call, maxBytes: int)
    requires Uses(c, c.key, maxBytes)
    ensures
      var was, use := Use(calls, maxBytes), Use(calls + [c], maxBytes);
      forall k {:trigger use(k)} :: k != c.key ==> use(k) == was(k) < use(c.key)
  {
    assert (calls + [c])[..|calls|] == calls;
    forall k: Key ensures LastUse(calls, k, maxBytes) < |calls| {
      LastUseBound(calls, k, maxBytes);
    }
  }

  lemma NotUsed(calls: seq<Call>, c: Call, maxBytes: int)
    ensures
      var was, use := Use(calls, maxBytes), Use(calls + [c], maxBytes);
      forall k {:trigger use(k)} :: !Uses(c, k, maxBytes) ==> use(k) == was(k)
  {
    assert (calls + [c])[..|calls|] == calls;
  }

  // What a set that is not refused puts together before it evicts.
  function Pushed(l: seq<Item>, c: Call): seq<Item>
    requires c.Set?
  {
    [Item(c.key, c.entry, SizeOf(c.entry), c.now + c.remaining)] + RemoveKey(l, c.key)
  }

  lemma PushedFalls(calls: seq<Call>, c: Call, l: seq<Item>, maxBytes: int)
    requires Stores(c, c.key, maxBytes) && Falling(l, Use(calls, maxBytes))
    ensures Falling(Pushed(l, c), Use(calls + [c], maxBytes))
  {
    NowUsed(calls, c, maxBytes);
    PushFalls(l, Pushed(l, c)[0], Use(calls, maxBytes), Use(calls + [c], maxBytes));
  }

  lemma GetFalls(calls: seq<Call>, c: Call, l: seq<Item>, maxBytes: int)
    requires c.Get? && Falling(l, Use(calls, maxBytes))
    ensures Falling(AfterGet(l, c.key, c.now), Use(calls + [c], maxBytes))
  {
    var was, use := Use(calls, maxBytes), Use(calls + [c], maxBytes);
    NowUsed(calls, c, maxBytes);
    match Find(l, c.key)
    case None => FallsAlike(l, was, use);
    case Some(it) =>
      if c.now > it.expireAt {
        RemoveKeyFalls(l, c.key, was);
        FallsAlike(RemoveKey(l, c.key), was, use);
      } else {
        PushFalls(l, it, was, use);
      }
  }

  lemma SetFalls(calls: seq<Call>, c: Call, l: seq<Item>, maxBytes: int)
    requires c.Set? && Falling(l, Use(calls, maxBytes))
    ensures Falling(AfterCall(l, c, maxBytes), Use(calls + [c], maxBytes))
  {
    if Stores(c, c.key, maxBytes) {
      PushedFalls(calls, c, l, maxBytes);
      EvictIsPrefix(Pushed(l, c), maxBytes);
      PrefixFalls(AfterCall(l, c, maxBytes), Pushed(l, c), Use(calls + [c], maxBytes));
    } else {
      NotUsed(calls, c, maxBytes);
      FallsAlike(l, Use(calls, maxBytes), Use(calls + [c], maxBytes));
    }
  }

  lemma {:induction false} EvictIsPrefix(l: seq<Item>, maxBytes: int)
    ensures Evict(l, maxBytes) <= l
  {
    if Total(l) > maxBytes && l != [] {
      EvictIsPrefix(l[..|l| - 1], maxBytes);
    }
  }

  lemma {:induction false} RunFalls(calls: seq<Call>, maxBytes: int)
    ensures Falling(AfterCalls(calls, maxBytes), Use(calls, maxBytes))
  {
    if calls != [] {
      var before, c := calls[..|calls| - 1], calls[|calls| - 1];
      RunFalls(before, maxBytes);
      assert calls == before + [c];
      if c.Get? {
        GetFalls(before, c, AfterCalls(before, maxBytes), maxBytes);
      } else {
        SetFalls(before, c, AfterCalls(before, maxBytes), maxBytes);
      }
    }
  }

  /**
   After any run of calls the list is in the order in which its keys were last stored or asked for, the latest first.
   */
  lemma InOrderOfUse(calls: seq<Call>, maxBytes: int, i: nat, j: nat)
    requires i < j < |AfterCalls(calls, maxBytes)|
    ensures
      var l := AfterCalls(calls, maxBytes);
      LastUse(calls, l[i].key, maxBytes) > LastUse(calls, l[j].key, maxBytes)
  {
    RunFalls(calls, maxBytes);
    FallsAt(AfterCalls(calls, maxBytes), Use(calls, maxBytes), i, j);
  }

  // What is not in a prefix comes after what is.
  lemma BehindPrefix(p: seq<Item>, l: seq<Item>, use: Key -> int, kept: Item, gone: Item)
    requires p <= l && Falling(l, use) && kept in p && gone in l && gone !in p
    ensures use(gone.key) < use(kept.key)
  {
    var i :| 0 <= i < |p| && p[i] == kept;
    var j :| 0 <= j < |l| && l[j] == gone;
    assert forall k | 0 <= k < |p| :: p[k] in p && p[k] == l[k];
    FallsAt(l, use, i, j);
  }

  /** Whatever a set evicts was last used before everything that stays. */
  lemma EvictsLeastRecent(calls: seq<Call>, c: Call, maxBytes: int, gone: Item, kept: Item)
    requires c.Set? && gone.key != c.key
    requires gone in AfterCalls(calls, maxBytes) && gone !in AfterCalls(calls + [c], maxBytes)
    requires kept in AfterCalls(calls + [c], maxBytes)
    ensures LastUse(calls + [c], gone.key, maxBytes) < LastUse(calls + [c], kept.key, maxBytes)
  {
    SetChanges(calls, c, maxBytes);
    var all := AfterStore(calls, c, maxBytes);
    EvictIsPrefix(all, maxBytes);
    BehindPrefix(Evict(all, maxBytes), all, Use(calls + [c], maxBytes), kept, gone);
  }

  // A set that changes anything stores.
  lemma SetChanges(calls: seq<Call>, c: Call, maxBytes: int)
    requires c.Set? && AfterCalls(calls + [c], maxBytes) != AfterCalls(calls, maxBytes)
    ensures Stores(c, c.key, maxBytes)
  {
    assert (calls + [c])[..|calls|] == calls;
  }

  // The list before eviction.
  lemma AfterStore(calls: seq<Call>, c: Call, maxBytes: int) returns (all: seq<Item>)
    requires Stores(c, c.key, maxBytes)
    ensures AfterCalls(calls + [c], maxBytes) == Evict(all, maxBytes) && Falling(all, Use(calls + [c], maxBytes))
    ensures all != [] && all[0] == Item(c.key, c.entry, SizeOf(c.entry), c.now + c.remaining)
    ensures all[1..] == RemoveKey(AfterCalls(calls, maxBytes), c.key)
  {
    assert (calls + [c])[..|calls|] == calls;
    all := Pushed(AfterCalls(calls, maxBytes), c);
    RunFalls(calls, maxBytes);
    PushedFalls(calls, c, AfterCalls(calls, maxBytes), maxBytes);
  }

  // --- what is held and answered ---

  // The item is that of the last set of its key that was not refused.
  ghost predicate AsStored(calls: seq<Call>, it: Item, maxBytes: int) {
    var i := LastStore(calls, it.key, maxBytes);
    i >= 0 &&
    var c := calls[i];
    it == Item(c.key, c.entry, |c.entry.body| + 1024, c.now + c.remaining)
  }

  /** After any run of calls every item is the one its key was last stored with. */
  lemma {:induction false} HoldsLastStored(calls: seq<Call>, maxBytes: int)
    ensures forall it :: it in AfterCalls(calls, maxBytes) ==> AsStored(calls, it, maxBytes)
  {
    if calls != [] {
      var n, c := |calls| - 1, calls[|calls| - 1];
      var l := AfterCalls(calls[..n], maxBytes);
      HoldsLastStored(calls[..n], maxBytes);
      forall it | it in AfterCalls(calls, maxBytes) ensures AsStored(calls, it, maxBytes) {
        if c.Set? && Stores(c, c.key, maxBytes) {
          EvictIsPrefix(Pushed(l, c), maxBytes);
          assert it in Pushed(l, c);
        } else {
          assert it in l;
        }
      }
    }
  }

  /**
   After any run of calls a hit is the entry its key was last stored with, until that has lived for what it was given,
   and its age is that at which it was stored and the time since then, in seconds rounded up.
   */
  lemma HitIsLastStored(calls: seq<Call>, maxBytes: int, key: Key, now: int)
    requires Hit(AfterCalls(calls, maxBytes), key, now).Some?
    ensures
      var i := LastStore(calls, key, maxBytes);
      var (e, age) := Hit(AfterCalls(calls, maxBytes), key, now).value;
      i >= 0 && e == calls[i].entry && now <= calls[i].now + calls[i].remaining &&
      var lived := 1000 * e.ttlSec - calls[i].remaining + now - calls[i].now;
      if lived <= 0 then age == 0 else lived <= 1000 * age < lived + 1000
  {
    HoldsLastStored(calls, maxBytes);
  }

  /** There is a hit exactly while an item of the key is held and has not expired. */
  lemma HitsExactly(calls: seq<Call>, maxBytes: int, key: Key, now: int)
    ensures Hit(AfterCalls(calls, maxBytes), key, now).Some?
       <==> exists it :: it in AfterCalls(calls, maxBytes) && it.key == key && now <= it.expireAt
  {
    RunFalls(calls, maxBytes);
    FallsOnce(AfterCalls(calls, maxBytes), Use(calls, maxBytes));
    forall it | it in AfterCalls(calls, maxBytes) && it.key == key
      ensures Find(AfterCalls(calls, maxBytes), key) == Some(it)
    {
      FindsMember(AfterCalls(calls, maxBytes), it);
    }
  }

  // How many bytes the items take, 1024 for each besides its body.
  function Bytes(l: seq<Item>): nat {
    if l == [] then 0 else |l[0].entry.body| + 1024 + Bytes(l[1..])
  }

  lemma {:induction false} BytesIsTotal(l: seq<Item>)
    requires forall it :: it in l ==> it.size == |it.entry.body| + 1024
    ensures Bytes(l) == Total(l)
  {
    if l != [] {
      assert l[0] in l;
      BytesIsTotal(l[1..]);
    }
  }

  lemma {:induction false} EvictFits(l: seq<Item>, maxBytes: int)
    requires maxBytes >= 0
    ensures Total(Evict(l, maxBytes)) <= maxBytes
  {
    if Total(l) > maxBytes && l != [] {
      EvictFits(l[..|l| - 1], maxBytes);
    }
  }

  lemma RemoveKeyFits(l: seq<Item>, key: Key)
    ensures Total(RemoveKey(l, key)) <= Total(l)
  {
  }

  lemma {:induction false} RemovedIsSmaller(l: seq<Item>, it: Item)
    requires it in l
    ensures it.size + Total(RemoveKey(l, it.key)) <= Total(l)
  {
    if l[0].key == it.key {
      if l[0] == it {
        RemoveKeyFits(l[1..], it.key);
      } else {
        RemovedIsSmaller(l[1..], it);
      }
    } else {
      RemovedIsSmaller(l[1..], it);
      assert RemoveKey(l, it.key)[1..] == RemoveKey(l[1..], it.key);
    }
  }

  lemma GetFits(l: seq<Item>, key: Key, now: int)
    ensures Total(AfterGet(l, key, now)) <= Total(l)
  {
    match Find(l, key)
    case None =>
    case Some(it) =>
      RemoveKeyFits(l, key);
      RemovedIsSmaller(l, it);
      assert ([it] + RemoveKey(l, key))[1..] == RemoveKey(l, key);
  }

  lemma {:induction false} RunFits(calls: seq<Call>, maxBytes: int)
    requires maxBytes >= 0
    ensures Total(AfterCalls(calls, maxBytes)) <= maxBytes
  {
    if calls != [] {
      var n, c := |calls| - 1, calls[|calls| - 1];
      var l := AfterCalls(calls[..n], maxBytes);
      RunFits(calls[..n], maxBytes);
      CallFits(l, c, maxBytes);
    }
  }

  lemma CallFits(l: seq<Item>, c: Call, maxBytes: int)
    requires 0 <= Total(l) <= maxBytes
    ensures Total(AfterCall(l, c, maxBytes)) <= maxBytes
  {
    if c.Get? {
      GetFits(l, c.key, c.now);
    } else if Stores(c, c.key, maxBytes) {
      EvictFits(Pushed(l, c), maxBytes);
    }
  }

  /** After any run of calls the bodies, with 1024 bytes for each entry, take no more than the bound. */
  lemma BytesAreBounded(calls: seq<Call>, maxBytes: int)
    requires maxBytes >= 0
    ensures Bytes(AfterCalls(calls, maxBytes)) <= maxBytes
  {
    SizesAreBytes(calls, maxBytes);
    RunFits(calls, maxBytes);
  }

  // --- nothing goes without need ---

  lemma {:induction false} FallsOnce(l: seq<Item>, use: Key -> int)
    requires Falling(l, use)
    ensures UniqueKeys(l)
  {
    forall i, j | 0 <= i < j < |l| ensures l[i].key != l[j].key {
      FallsAt(l, use, i, j);
    }
  }

  /** A get loses nothing but its own key's item, and that only when it has expired. */
  lemma GetKeeps(calls: seq<Call>, key: Key, now: int, maxBytes: int, it: Item)
    ensures it in AfterCalls(calls + [Get(key, now)], maxBytes)
       <==> it in AfterCalls(calls, maxBytes) && !(it.key == key && now > it.expireAt)
  {
    var l := AfterCalls(calls, maxBytes);
    assert (calls + [Get(key, now)])[..|calls|] == calls;
    RunFalls(calls, maxBytes);
    FallsOnce(l, Use(calls, maxBytes));
    if it in l {
      FindsMember(l, it);
    }
  }

  // The first item that an eviction drops would not have fitted.
  lemma FirstDropped(all: seq<Item>, maxBytes: int)
    requires (forall it :: it in all ==> it.size > 0) && Evict(all, maxBytes) != all
    ensures
      var n := |Evict(all, maxBytes)|;
      n < |all| && Evict(all, maxBytes) == all[..n] && Total(all[..n]) + all[n].size > maxBytes
  {
    EvictIsShortest(all, maxBytes);
    var n := |Evict(all, maxBytes)|;
    TotalSnoc(all[..n + 1]);
    assert all[..n + 1][..n] == all[..n];
  }

  lemma DroppedFirst(all: seq<Item>, maxBytes: int, use: Key -> int, gone: Item) returns (g: Item)
    requires (forall it :: it in all ==> it.size > 0) && Falling(all, use)
    requires gone in all && gone !in Evict(all, maxBytes) && all[0].size <= maxBytes
    ensures g in all[1..] && g !in Evict(all, maxBytes) && use(gone.key) <= use(g.key)
    ensures Total(Evict(all, maxBytes)) + g.size > maxBytes
  {
    FirstDropped(all, maxBytes);
    var n := |Evict(all, maxBytes)|;
    g := all[n];
    if n == 0 {
      TotalHead(all);
    }
    assert all[1..][n - 1] == g;
    var j :| 0 <= j < |all| && all[j] == gone;
    assert forall k | 0 <= k < n :: all[..n][k] in all[..n] && all[..n][k] == all[k];
    if n < j {
      FallsAt(all, use, n, j);
    }
    forall i | 0 <= i < n ensures all[i] != g {
      FallsAt(all, use, i, n);
    }
  }

  /** A set evicts only for room: the latest used of what it evicts would not fit beside what stays. */
  lemma EvictsForRoom(calls: seq<Call>, c: Call, maxBytes: int, gone: Item) returns (g: Item)
    requires c.Set? && gone.key != c.key && maxBytes >= 0
    requires gone in AfterCalls(calls, maxBytes) && gone !in AfterCalls(calls + [c], maxBytes)
    ensures g in AfterCalls(calls, maxBytes) && g.key != c.key && g !in AfterCalls(calls + [c], maxBytes)
    ensures LastUse(calls, gone.key, maxBytes) <= LastUse(calls, g.key, maxBytes)
    ensures Bytes(AfterCalls(calls + [c], maxBytes)) + |g.entry.body| + 1024 > maxBytes
  {
    SetChanges(calls, c, maxBytes);
    var all := AfterStore(calls, c, maxBytes);
    SizesAreBytes(calls, maxBytes);
    SizesAreBytes(calls + [c], maxBytes);
    g := DroppedFirst(all, maxBytes, Use(calls + [c], maxBytes), gone);
    NowUsed(calls, c, maxBytes);
    assert Use(calls + [c], maxBytes)(g.key) == LastUse(calls, g.key, maxBytes);
    assert Use(calls + [c], maxBytes)(gone.key) == LastUse(calls, gone.key, maxBytes);
  }

  lemma SizesAreBytes(calls: seq<Call>, maxBytes: int)
    ensures Bytes(AfterCalls(calls, maxBytes)) == Total(AfterCalls(calls, maxBytes))
    ensures forall it :: it in AfterCalls(calls, maxBytes) ==> it.size == |it.entry.body| + 1024
  {
    HoldsLastStored(calls, maxBytes);
    BytesIsTotal(AfterCalls(calls, maxBytes));
  }
}
