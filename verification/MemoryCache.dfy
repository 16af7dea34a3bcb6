/**
 The in-memory level of the response cache: least recently used, bounded by total size. Times are in
 milliseconds. The specification is a list of items, most recently used first.
 */
module MemoryCache {
  import opened GoStrings
  import opened CacheEntry

  datatype Key = Key(name: string)

  datatype Item = Item(key: Key, entry: UpstreamCacheEntry, size: nat, expireAt: int)


  function SizeOf(entry: UpstreamCacheEntry): nat {
    |entry.body| + 1024
  }

  function AgeOf(item: Item, now: int): nat
    requires now <= item.expireAt
  {
    var age := item.entry.ttlSec - (item.expireAt - now) / 1000;
    if age < 0 then 0 else age
  }

  // --- the list ---

  ghost predicate UniqueKeys(l: seq<Item>) {
    forall i, j {:trigger l[i], l[j]} :: 0 <= i < j < |l| ==> l[i].key != l[j].key
  }

  function Find(l: seq<Item>, key: Key): (r: Option<Item>)
    ensures r.Some? ==> r.value in l && r.value.key == key
    ensures r == None ==> forall it :: it in l ==> it.key != key
  {
    if l == [] then None else if l[0].key == key then Some(l[0]) else Find(l[1..], key)
  }

  function RemoveKey(l: seq<Item>, key: Key): (r: seq<Item>)
    ensures forall it :: it in r <==> it in l && it.key != key
  {
    if l == [] then [] else if l[0].key == key then RemoveKey(l[1..], key) else [l[0]] + RemoveKey(l[1..], key)
  }

  function Total(l: seq<Item>): nat {
    if l == [] then 0 else l[0].size + Total(l[1..])
  }

  // Drops from the least recently used end until the rest fits.
  function Evict(l: seq<Item>, maxBytes: int): seq<Item> {
    if Total(l) > maxBytes && l != [] then Evict(l[..|l| - 1], maxBytes) else l
  }

  predicate Fits(entry: UpstreamCacheEntry, maxBytes: int) {
    SizeOf(entry) <= maxBytes / 2
  }

  function AfterSet(l: seq<Item>, key: Key, entry: UpstreamCacheEntry, remaining: int, now: int,
                    maxBytes: int): seq<Item>
  {
    if remaining <= 0 || !Fits(entry, maxBytes) then l
    else Evict([Item(key, entry, SizeOf(entry), now + remaining)] + RemoveKey(l, key), maxBytes)
  }

  function AfterGet(l: seq<Item>, key: Key, now: int): seq<Item> {
    match Find(l, key)
    case None => l
    case Some(it) => if now > it.expireAt then RemoveKey(l, key) else [it] + RemoveKey(l, key)
  }

  // What a get returns: the entry and its age in seconds.
  function Hit(l: seq<Item>, key: Key, now: int): Option<(UpstreamCacheEntry, nat)> {
    match Find(l, key)
    case None => None
    case Some(it) => if now > it.expireAt then None else Some((it.entry, AgeOf(it, now)))
  }

  // --- facts about the list ---

  lemma {:induction false} RemoveKeyUnique(l: seq<Item>, key: Key)
    requires UniqueKeys(l)
    ensures UniqueKeys(RemoveKey(l, key))
  {
    if l != [] {
      var rest := RemoveKey(l[1..], key);
      RemoveKeyUnique(l[1..], key);
      forall j | 0 <= j < |rest| ensures l[0].key != rest[j].key {
        assert rest[j] in l[1..];
        var k :| 0 <= k < |l[1..]| && l[1..][k] == rest[j];
        assert l[0].key != l[k + 1].key;
      }
    }
  }

  lemma PushUnique(l: seq<Item>, it: Item)
    requires UniqueKeys(l)
    ensures UniqueKeys([it] + RemoveKey(l, it.key))
  {
    RemoveKeyUnique(l, it.key);
    var r := RemoveKey(l, it.key);
    assert forall j :: 0 <= j < |r| ==> r[j] in r;
  }

  lemma {:induction false} TotalSnoc(l: seq<Item>)
    requires l != []
    ensures Total(l) == Total(l[..|l| - 1]) + l[|l| - 1].size
  {
    if |l| == 1 {
      assert l[1..] == [] && l[..0] == [];
    } else {
      TotalSnoc(l[1..]);
      assert l[1..][..|l[1..]| - 1] == l[..|l| - 1][1..];
    }
  }

  lemma {:induction false} TotalRemove(l: seq<Item>, key: Key)
    requires UniqueKeys(l)
    ensures Total(RemoveKey(l, key)) == Total(l) - match Find(l, key) case None => 0 case Some(it) => it.size
  {
    if l != [] {
      TotalRemove(l[1..], key);
      if l[0].key == key {
        forall it | it in l[1..] ensures it.key != key {
          var k :| 0 <= k < |l[1..]| && l[1..][k] == it;
          assert l[0].key != l[k + 1].key;
        }
        assert Find(l[1..], key) == None;
      } else {
        var rest := RemoveKey(l[1..], key);
        assert ([l[0]] + rest)[1..] == rest;
      }
    }
  }

  /** Exactly the shortest least-recently-used suffix goes: keeping one item more would not fit. */
  lemma {:induction false} EvictIsShortest(l: seq<Item>, maxBytes: int)
    requires forall it :: it in l ==> it.size > 0
    ensures
      var kept := Evict(l, maxBytes);
      kept <= l && (kept == [] || Total(kept) <= maxBytes) &&
      forall n :: |kept| < n <= |l| ==> Total(l[..n]) > maxBytes
  {
    assert l[..|l|] == l;
    if Total(l) > maxBytes && l != [] {
      var shorter := l[..|l| - 1];
      EvictIsShortest(shorter, maxBytes);
      var kept := Evict(l, maxBytes);
      forall n | |kept| < n <= |l| ensures Total(l[..n]) > maxBytes {
        if n < |l| {
          assert l[..n] == shorter[..n];
        }
      }
    }
  }

  lemma TotalHead(l: seq<Item>)
    requires l != []
    ensures Total(l[..1]) == l[0].size
  {
    assert l[..1][1..] == [];
  }

  lemma {:induction false} RemoveAbsent(l: seq<Item>, key: Key)
    requires forall it :: it in l ==> it.key != key
    ensures RemoveKey(l, key) == l
  {
    if l != [] {
      RemoveAbsent(l[1..], key);
    }
  }

  lemma {:induction false} RemoveLast(l: seq<Item>)
    requires l != [] && UniqueKeys(l)
    ensures RemoveKey(l, l[|l| - 1].key) == l[..|l| - 1]
  {
    if |l| == 1 {
      assert l[1..] == [];
    } else {
      RemoveLast(l[1..]);
      assert l[0].key != l[|l| - 1].key;
      assert [l[0]] + l[1..][..|l| - 2] == l[..|l| - 1];
    }
  }

  lemma {:induction false} FindsMember(l: seq<Item>, it: Item)
    requires UniqueKeys(l) && it in l
    ensures Find(l, it.key) == Some(it)
  {
    if l[0] != it {
      assert it in l[1..];
      var k :| 0 <= k < |l[1..]| && l[1..][k] == it;
      assert l[0].key != l[k + 1].key;
      FindsMember(l[1..], it);
    }
  }

  /** The entry just stored survives its own eviction, and is what the next get finds until it expires. */
  lemma SetThenGet(l: seq<Item>, key: Key, entry: UpstreamCacheEntry, remaining: int, now: int, maxBytes: int,
                   later: int)
    requires remaining > 0 && Fits(entry, maxBytes) && now <= later
    requires forall it :: it in l ==> it.size > 0
    ensures
      var l' := AfterSet(l, key, entry, remaining, now, maxBytes);
      if later > now + remaining then Hit(l', key, later) == None
      else Hit(l', key, later) == Some((entry, AgeOf(Item(key, entry, SizeOf(entry), now + remaining), later)))
  {
    var it := Item(key, entry, SizeOf(entry), now + remaining);
    var all := [it] + RemoveKey(l, key);
    EvictIsShortest(all, maxBytes);
    TotalHead(all);
    assert Evict(all, maxBytes)[0] == it;
  }

  /** Nothing but the stored key and the evicted tail is affected. */
  lemma OthersKeep(l: seq<Item>, key: Key, entry: UpstreamCacheEntry, remaining: int, now: int, maxBytes: int,
                   other: Key)
    requires other != key && forall it :: it in l ==> it.size > 0
    ensures
      var l' := AfterSet(l, key, entry, remaining, now, maxBytes);
      Find(l', other) == Find(l, other) || Find(l', other) == None
  {
    if remaining > 0 && Fits(entry, maxBytes) {
      var all := [Item(key, entry, SizeOf(entry), now + remaining)] + RemoveKey(l, key);
      EvictIsShortest(all, maxBytes);
      FindAfterRemove(l, key, other);
      assert all[1..] == RemoveKey(l, key);
      FindInPrefix(Evict(all, maxBytes), all, other);
    }
  }

  lemma {:induction false} FindAfterRemove(l: seq<Item>, key: Key, other: Key)
    ensures Find(RemoveKey(l, key), other) == if other == key then None else Find(l, other)
  {
    if l != [] {
      FindAfterRemove(l[1..], key, other);
      var rest := RemoveKey(l[1..], key);
      assert ([l[0]] + rest)[1..] == rest;
    }
  }

  lemma {:induction false} FindInPrefix(p: seq<Item>, l: seq<Item>, key: Key)
    requires p <= l
    ensures Find(p, key) == Find(l, key) || Find(p, key) == None
  {
    if p != [] {
      FindInPrefix(p[1..], l[1..], key);
    }
  }

  /** After a set the list holds the stored item and what it held before under other keys, at most. */
  lemma AfterSetMembers(l: seq<Item>, key: Key, entry: UpstreamCacheEntry, remaining: int, now: int, maxBytes: int)
    requires forall it :: it in l ==> it.size > 0
    ensures
      var stored := remaining > 0 && Fits(entry, maxBytes);
      forall it :: it in AfterSet(l, key, entry, remaining, now, maxBytes) ==>
        (stored && it == Item(key, entry, SizeOf(entry), now + remaining)) || (it in l && (it.key != key || !stored))
  {
    if remaining > 0 && Fits(entry, maxBytes) {
      EvictIsShortest([Item(key, entry, SizeOf(entry), now + remaining)] + RemoveKey(l, key), maxBytes);
    }
  }

  /** A set that is refused leaves the old value of its key in place. */
  lemma RefusedSetKeepsOld(l: seq<Item>, key: Key, entry: UpstreamCacheEntry, remaining: int, now: int, maxBytes: int,
                           other: Key)
    requires remaining <= 0 || !Fits(entry, maxBytes)
    ensures Find(AfterSet(l, key, entry, remaining, now, maxBytes), other) == Find(l, other)
  {
  }

  // --- the cache ---

  class MemoryCache {
    const maxBytes: int
    var curBytes: int
    var ll: seq<Item>
    var items: map<Key, Item>

    // The map and the list hold the same items and the running total is right.
    ghost predicate Consistent()
      reads this
    {
      maxBytes >= 0 && UniqueKeys(ll) && curBytes == Total(ll) &&
      (forall it {:trigger it in ll} :: it in ll ==> it.size > 0 && it.key in items && items[it.key] == it) &&
      (forall k {:trigger k in items} :: k in items ==> items[k] in ll && items[k].key == k)
    }

    ghost predicate Valid()
      reads this
    {
      Consistent() && curBytes <= maxBytes
    }

    constructor (maxBytes: int)
      requires maxBytes >= 0
      ensures Valid() && ll == [] && this.maxBytes == maxBytes
    {
      this.maxBytes, curBytes, ll, items := maxBytes, 0, [], map[];
    }

    method RemoveLocked(it: Item)
      requires Consistent() && it in ll
      modifies this
      ensures Consistent() && ll == RemoveKey(old(ll), it.key) && curBytes < old(curBytes)
    {
      RemoveKeyUnique(ll, it.key);
      TotalRemove(ll, it.key);
      FindsMember(ll, it);
      ll := RemoveKey(ll, it.key);
      items := items - {it.key};
      curBytes := curBytes - it.size;
    }

    // Puts an item with a new key at the front.
    method PushFront(it: Item)
      requires Consistent() && it.key !in items && it.size > 0
      modifies this
      ensures Consistent() && ll == [it] + old(ll)
    {
      assert ([it] + ll)[1..] == ll;
      assert forall i :: 0 <= i < |ll| ==> ll[i] in ll;
      ll := [it] + ll;
      items := items[it.key := it];
      curBytes := curBytes + it.size;
    }

    method MoveToFront(it: Item)
      requires Consistent() && it in ll
      modifies `ll
      ensures Consistent() && ll == [it] + RemoveKey(old(ll), it.key)
    {
      PushUnique(ll, it);
      TotalRemove(ll, it.key);
      FindsMember(ll, it);
      var rest := RemoveKey(ll, it.key);
      assert ([it] + rest)[1..] == rest;
      assert forall x :: x in [it] + rest <==> x == it || x in rest;
      forall x | x in ll ensures x == it || x in rest {
        if x.key == it.key { assert items[x.key] == x; }
      }
      ll := [it] + rest;
    }

    method Get(key: Key, now: int) returns (r: Option<(UpstreamCacheEntry, nat)>)
      requires Valid()
      modifies this
      ensures Valid() && ll == AfterGet(old(ll), key, now) && r == Hit(old(ll), key, now)
    {
      if key !in items {
        assert Find(ll, key) == None;
        return None;
      }
      var it := items[key];
      FindsMember(ll, it);
      if now > it.expireAt {
        RemoveLocked(it);
        return None;
      }
      MoveToFront(it);
      return Some((it.entry, AgeOf(it, now)));
    }

    method Set(key: Key, entry: UpstreamCacheEntry, remaining: int, now: int)
      requires Valid()
      modifies this
      ensures Valid() && ll == AfterSet(old(ll), key, entry, remaining, now, maxBytes)
    {
      if remaining <= 0 {
        return;
      }
      var size := SizeOf(entry);
      if size > maxBytes / 2 {
        return;
      }
      if key in items {
        RemoveLocked(items[key]);
      } else {
        RemoveAbsent(ll, key);
      }
      PushFront(Item(key, entry, size, now + remaining));
      ghost var all := ll;
      while curBytes > maxBytes
        invariant Consistent() && Evict(ll, maxBytes) == Evict(all, maxBytes)
        decreases curBytes
      {
        RemoveLast(ll);
        RemoveLocked(ll[|ll| - 1]);
      }
    }
  }
}
