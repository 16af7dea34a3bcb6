/**
 Pushed user and api-key events, delivered in any order and any number of times, with a version guard per
 entity. Api keys are cached under the raw key (hashed, which is left out), users under their id.
 */
module EventGuard {
  import opened GoStrings

  datatype Entity = User(id: string) | ApiKey(id: string)

  datatype Event = UserEvent(id: string, version: int, payload: string)
    | ApiKeyEvent(id: string, version: int, raw: string, payload: string)

  // What arrives: an event or something that does not decode; and whether Redis takes an api key at that moment.
  datatype Delivery = Delivery(event: Event, stored: bool) | Undecodable

  datatype State = State(seen: map<string, int>, users: map<string, string>, apiKeys: map<string, string>)

  const START := State(map[], map[], map[])

  function EntityOf(ev: Event): Entity {
    if ev.UserEvent? then User(ev.id) else ApiKey(ev.id)
  }

  function GuardKey(e: Entity): string {
    (if e.User? then "user:" else "apikey:") + e.id
  }

  predicate Allowed(s: State, ev: Event) {
    var key := GuardKey(EntityOf(ev));
    key !in s.seen || ev.version > s.seen[key]
  }

  function After(s: State, d: Delivery): State {
    if d.Undecodable? || !Allowed(s, d.event) then s
    else
      var ev := d.event;
      var seen := s.seen[GuardKey(EntityOf(ev)) := ev.version];
      if ev.UserEvent? then State(seen, s.users[ev.id := ev.payload], s.apiKeys)
      else State(seen, s.users, if d.stored then s.apiKeys[ev.raw := ev.payload] else s.apiKeys)
  }

  function Run(ds: seq<Delivery>): State {
    if ds == [] then START else After(Run(ds[..|ds| - 1]), ds[|ds| - 1])
  }

  // --- the code ---

  class EventVersionGuard {
    var seen: map<string, int>

    constructor ()
      ensures seen == map[]
    {
      seen := map[];
    }

    method Allow(key: string, version: int) returns (ok: bool)
      modifies this
      ensures ok == (key !in old(seen) || version > old(seen)[key])
      ensures seen == if ok then old(seen)[key := version] else old(seen)
    {
      if key in seen && version <= seen[key] {
        return false;
      }
      seen := seen[key := version];
      return true;
    }
  }

  class SyncEventService {
    const guard: EventVersionGuard
    var users: map<string, string>
    var apiKeys: map<string, string>

    // Everything delivered so far.
    ghost var delivered: seq<Delivery>

    ghost predicate Valid()
      reads this, guard
    {
      State(guard.seen, users, apiKeys) == Run(delivered)
    }

    constructor ()
      ensures Valid() && fresh(guard) && delivered == []
    {
      guard := new EventVersionGuard();
      users, apiKeys, delivered := map[], map[], [];
    }

    method ApplyApiKey(ev: Event, stored: bool)
      requires Valid() && ev.ApiKeyEvent?
      modifies this`apiKeys, this`delivered, guard
      ensures Valid() && delivered == old(delivered) + [Delivery(ev, stored)]
    {
      var ok := guard.Allow("apikey:" + ev.id, ev.version);
      Deliver(Delivery(ev, stored));
      if ok && stored {
        apiKeys := apiKeys[ev.raw := ev.payload];
      }
    }

    method ApplyUser(ev: Event, stored: bool)
      requires Valid() && ev.UserEvent?
      modifies this`users, this`delivered, guard
      ensures Valid() && delivered == old(delivered) + [Delivery(ev, stored)]
    {
      var ok := guard.Allow("user:" + ev.id, ev.version);
      Deliver(Delivery(ev, stored));
      if ok {
        users := users[ev.id := ev.payload];
      }
    }

    method Apply(d: Delivery)
      requires Valid()
      modifies this, guard
      ensures Valid() && delivered == old(delivered) + [d]
    {
      match d
      case Undecodable => Deliver(d);
      case Delivery(ev, stored) =>
        if ev.ApiKeyEvent? {
          ApplyApiKey(ev, stored);
        } else {
          ApplyUser(ev, stored);
        }
    }

    ghost method Deliver(d: Delivery)
      modifies `delivered
      ensures delivered == old(delivered) + [d] && Run(delivered) == After(Run(old(delivered)), d)
    {
      delivered := delivered + [d];
      assert delivered[..|delivered| - 1] == old(delivered);
    }
  }

  // --- what a run comes to ---

  // The event with the highest version for an entity, the first to arrive of those.
  function Newest(ds: seq<Delivery>, e: Entity): Option<Event> {
    if ds == [] then None
    else
      var best, last := Newest(ds[..|ds| - 1], e), ds[|ds| - 1];
      if last.Delivery? && EntityOf(last.event) == e && (best == None || last.event.version > best.value.version)
      then Some(last.event) else best
  }

  predicate Carries(d: Delivery, ev: Event) {
    d.Delivery? && d.event == ev
  }

  ghost predicate Delivered(ds: seq<Delivery>, ev: Event) {
    exists i :: 0 <= i < |ds| && Carries(ds[i], ev)
  }

  lemma DeliveredLast(ds: seq<Delivery>, ev: Event)
    requires ds != []
    ensures Delivered(ds, ev) <==> Delivered(ds[..|ds| - 1], ev) || Carries(ds[|ds| - 1], ev)
  {
    var before := ds[..|ds| - 1];
    assert forall i :: 0 <= i < |before| ==> before[i] == ds[i];
  }

  lemma {:induction false} NewestIsHighest(ds: seq<Delivery>, e: Entity)
    ensures
      match Newest(ds, e)
      case None => forall ev {:trigger Delivered(ds, ev)} :: Delivered(ds, ev) ==> EntityOf(ev) != e
      case Some(best) =>
        Delivered(ds, best) && EntityOf(best) == e &&
        forall ev {:trigger Delivered(ds, ev)} :: Delivered(ds, ev) && EntityOf(ev) == e ==> ev.version <= best.version
  {
    if ds != [] {
      NewestIsHighest(ds[..|ds| - 1], e);
      forall ev ensures Delivered(ds, ev) <==> Delivered(ds[..|ds| - 1], ev) || Carries(ds[|ds| - 1], ev) {
        DeliveredLast(ds, ev);
      }
    }
  }

  lemma GuardKeyTells(a: Entity, b: Entity)
    ensures GuardKey(a) == GuardKey(b) <==> a == b
  {
    var ka, kb := GuardKey(a), GuardKey(b);
    assert ka[0] == (if a.User? then 'u' else 'a') && kb[0] == (if b.User? then 'u' else 'a');
    if ka == kb {
      assert a.id == ka[if a.User? then 5 else 7..] && b.id == kb[if b.User? then 5 else 7..];
    }
  }

  // The guard remembers the newest version of every entity.
  lemma {:induction false} GuardHoldsNewest(ds: seq<Delivery>, e: Entity)
    ensures
      var seen := Run(ds).seen;
      match Newest(ds, e)
      case None => GuardKey(e) !in seen
      case Some(best) => GuardKey(e) in seen && seen[GuardKey(e)] == best.version
  {
    if ds != [] {
      var before, last := ds[..|ds| - 1], ds[|ds| - 1];
      GuardHoldsNewest(before, e);
      if last.Delivery? {
        GuardKeyTells(EntityOf(last.event), e);
      }
    }
  }

  /** Every user the cache holds is the one with the highest version delivered, whatever else was delivered. */
  lemma {:induction false} UsersAreNewest(ds: seq<Delivery>, id: string)
    ensures
      var users := Run(ds).users;
      match Newest(ds, User(id))
      case None => id !in users
      case Some(best) => id in users && users[id] == best.payload
  {
    if ds != [] {
      var before, last := ds[..|ds| - 1], ds[|ds| - 1];
      UsersAreNewest(before, id);
      if last.Delivery? && EntityOf(last.event) == User(id) {
        GuardHoldsNewest(before, User(id));
      }
    }
  }

  // This raw key is this api key's and no other's.
  ghost predicate Owns(ds: seq<Delivery>, id: string, raw: string) {
    forall i {:trigger ds[i]} :: 0 <= i < |ds| && ds[i].Delivery? && ds[i].event.ApiKeyEvent? ==>
      (ds[i].event.id == id <==> ds[i].event.raw == raw)
  }

  // The last event of an api key that got past the guard and was stored.
  function LastStored(ds: seq<Delivery>, id: string): Option<Event> {
    if ds == [] then None
    else
      var before, last := ds[..|ds| - 1], ds[|ds| - 1];
      if last.Delivery? && last.stored && EntityOf(last.event) == ApiKey(id) && Allowed(Run(before), last.event)
      then Some(last.event) else LastStored(before, id)
  }

  lemma {:induction false} CacheHoldsLastStored(ds: seq<Delivery>, id: string, raw: string)
    requires Owns(ds, id, raw)
    ensures
      var keys := Run(ds).apiKeys;
      match LastStored(ds, id)
      case None => raw !in keys
      case Some(ev) => raw in keys && keys[raw] == ev.payload
  {
    if ds != [] {
      var before := ds[..|ds| - 1];
      assert forall i :: 0 <= i < |before| ==> before[i] == ds[i];
      CacheHoldsLastStored(before, id, raw);
      assert ds[|ds| - 1] == ds[|ds| - 1];
    }
  }

  predicate IsOf(d: Delivery, id: string) {
    d.Delivery? && EntityOf(d.event) == ApiKey(id)
  }

  // A delivery of the api key whose version exceeds all of the key's before it.
  ghost predicate Leads(ds: seq<Delivery>, id: string, i: nat)
    requires i < |ds|
  {
    IsOf(ds[i], id) &&
    forall k {:trigger ds[k]} :: 0 <= k < i && IsOf(ds[k], id) ==> ds[k].event.version < ds[i].event.version
  }

  ghost predicate StoredLead(ds: seq<Delivery>, id: string, i: nat)
    requires i < |ds|
  {
    Leads(ds, id, i) && ds[i].stored
  }

  // The last of those that Redis took.
  ghost predicate LastStoredLead(ds: seq<Delivery>, id: string, i: nat)
    requires i < |ds|
  {
    StoredLead(ds, id, i) && forall k: nat {:trigger StoredLead(ds, id, k)} :: i < k < |ds| ==> !StoredLead(ds, id, k)
  }

  lemma LeadsIsAllowed(ds: seq<Delivery>, id: string)
    requires ds != [] && IsOf(ds[|ds| - 1], id)
    ensures Leads(ds, id, |ds| - 1) <==> Allowed(Run(ds[..|ds| - 1]), ds[|ds| - 1].event)
  {
    var before, last := ds[..|ds| - 1], ds[|ds| - 1].event;
    GuardHoldsNewest(before, ApiKey(id));
    NewestIsHighest(before, ApiKey(id));
    if Leads(ds, id, |ds| - 1) {
      forall ev | Delivered(before, ev) && EntityOf(ev) == ApiKey(id) ensures ev.version < last.version {
        var i :| 0 <= i < |before| && Carries(before[i], ev);
        assert IsOf(ds[i], id);
      }
    }
    if Allowed(Run(before), last) {
      forall k | 0 <= k < |before| && IsOf(ds[k], id) ensures ds[k].event.version < last.version {
        assert Carries(before[k], ds[k].event) && Delivered(before, ds[k].event);
      }
    }
  }

  lemma LeadsInPrefix(ds: seq<Delivery>, id: string, i: nat)
    requires i < |ds| - 1
    ensures StoredLead(ds, id, i) <==> StoredLead(ds[..|ds| - 1], id, i)
  {
    var before := ds[..|ds| - 1];
    assert forall k :: 0 <= k < |before| ==> before[k] == ds[k];
  }

  // The guard's own account of it.
  lemma {:induction false} LastStoredIsLead(ds: seq<Delivery>, id: string)
    ensures
      match LastStored(ds, id)
      case None => forall i: nat {:trigger StoredLead(ds, id, i)} :: i < |ds| ==> !StoredLead(ds, id, i)
      case Some(ev) => exists i: nat {:trigger LastStoredLead(ds, id, i)} ::
        i < |ds| && LastStoredLead(ds, id, i) && ds[i].event == ev
  {
    if ds != [] {
      var n := |ds| - 1;
      LastStoredIsLead(ds[..n], id);
      forall i: nat | i < n ensures StoredLead(ds, id, i) <==> StoredLead(ds[..n], id, i) {
        LeadsInPrefix(ds, id, i);
      }
      if IsOf(ds[n], id) {
        LeadsIsAllowed(ds, id);
      }
      if StoredLead(ds, id, n) {
        assert LastStoredLead(ds, id, n);
      } else if LastStored(ds[..n], id).Some? {
        var i: nat :| i < n && LastStoredLead(ds[..n], id, i) && ds[..n][i].event == LastStored(ds[..n], id).value;
        assert LastStoredLead(ds, id, i);
      }
    }
  }

  /**
   The cache holds an api key's newest payload exactly when, of the deliveries whose version exceeds every earlier one
   of the key, the last that Redis took carries it, whatever became of the writes of other keys.
   */
  lemma CacheIsNewestExactly(ds: seq<Delivery>, id: string, raw: string)
    requires Owns(ds, id, raw) && Newest(ds, ApiKey(id)).Some?
    ensures
      var keys, best := Run(ds).apiKeys, Newest(ds, ApiKey(id)).value;
      raw in keys && keys[raw] == best.payload <==>
      exists i: nat {:trigger LastStoredLead(ds, id, i)} ::
        i < |ds| && LastStoredLead(ds, id, i) && ds[i].event.payload == best.payload
  {
    CacheHoldsLastStored(ds, id, raw);
    LastStoredIsLead(ds, id);
    forall i: nat, j: nat | i < |ds| && j < |ds| && LastStoredLead(ds, id, i) && LastStoredLead(ds, id, j)
      ensures i == j
    {
      assert StoredLead(ds, id, i) && StoredLead(ds, id, j);
    }
  }

  // Redis took every write of this api key.
  ghost predicate StoredFor(ds: seq<Delivery>, id: string) {
    forall i {:trigger ds[i]} :: 0 <= i < |ds| && ds[i].Delivery? && EntityOf(ds[i].event) == ApiKey(id) ==>
      ds[i].stored
  }

  lemma {:induction false} LastStoredIsNewest(ds: seq<Delivery>, id: string)
    requires StoredFor(ds, id)
    ensures LastStored(ds, id) == Newest(ds, ApiKey(id))
  {
    if ds != [] {
      var before := ds[..|ds| - 1];
      assert forall i :: 0 <= i < |before| ==> before[i] == ds[i];
      LastStoredIsNewest(before, id);
      GuardHoldsNewest(before, ApiKey(id));
      assert ds[|ds| - 1] == ds[|ds| - 1];
    }
  }

  /** Every api key whose own writes succeed is cached as delivered with the highest version, under its raw key. */
  lemma ApiKeysAreNewest(ds: seq<Delivery>, id: string, raw: string)
    requires Owns(ds, id, raw) && StoredFor(ds, id)
    ensures
      var keys := Run(ds).apiKeys;
      match Newest(ds, ApiKey(id))
      case None => raw !in keys
      case Some(best) => raw in keys && keys[raw] == best.payload
  {
    CacheHoldsLastStored(ds, id, raw);
    LastStoredIsNewest(ds, id);
  }

  // The events of an entity that got past the guard, in order.
  function Applied(ds: seq<Delivery>, e: Entity): seq<Event> {
    if ds == [] then []
    else
      var before, last := ds[..|ds| - 1], ds[|ds| - 1];
      var passes := last.Delivery? && EntityOf(last.event) == e && Allowed(Run(before), last.event);
      Applied(before, e) + if passes then [last.event] else []
  }

  ghost predicate Rising(evs: seq<Event>) {
    forall i, j {:trigger evs[i], evs[j]} :: 0 <= i < j < |evs| ==> evs[i].version < evs[j].version
  }

  lemma RisingSnoc(evs: seq<Event>, ev: Event)
    requires Rising(evs) && (evs == [] || evs[|evs| - 1].version < ev.version)
    ensures Rising(evs + [ev])
  {
  }

  /** The versions applied to one entity strictly increase, and the last of them is the newest delivered. */
  lemma {:induction false} AppliedIncrease(ds: seq<Delivery>, e: Entity)
    ensures
      var applied := Applied(ds, e);
      Rising(applied) && Newest(ds, e) == if applied == [] then None else Some(applied[|applied| - 1])
  {
    if ds != [] {
      var before, last := ds[..|ds| - 1], ds[|ds| - 1];
      AppliedIncrease(before, e);
      GuardHoldsNewest(before, e);
      if last.Delivery? && EntityOf(last.event) == e && Allowed(Run(before), last.event) {
        RisingSnoc(Applied(before, e), last.event);
      }
    }
  }

  // --- order does not matter ---

  ghost predicate SameEvents(a: seq<Delivery>, b: seq<Delivery>) {
    forall ev {:trigger Delivered(a, ev)} {:trigger Delivered(b, ev)} :: Delivered(a, ev) <==> Delivered(b, ev)
  }

  // A delivered event no other delivered event of its entity is newer than.
  ghost predicate Top(ds: seq<Delivery>, ev: Event) {
    Delivered(ds, ev) &&
    forall other {:trigger Delivered(ds, other)} ::
      Delivered(ds, other) && EntityOf(other) == EntityOf(ev) ==> other.version <= ev.version
  }

  lemma NewestIsTop(ds: seq<Delivery>, e: Entity)
    requires Newest(ds, e).Some?
    ensures Top(ds, Newest(ds, e).value) && EntityOf(Newest(ds, e).value) == e
  {
    NewestIsHighest(ds, e);
  }

  lemma SameTops(a: seq<Delivery>, b: seq<Delivery>, ev: Event)
    requires SameEvents(a, b)
    ensures Top(a, ev) <==> Top(b, ev)
  {
  }

  // Every user's highest version was delivered with one payload.
  ghost predicate UsersSettled(ds: seq<Delivery>) {
    forall x, y {:trigger Top(ds, x), Top(ds, y)} ::
      Top(ds, x) && Top(ds, y) && x.UserEvent? && EntityOf(x) == EntityOf(y) ==> x.payload == y.payload
  }

  lemma DeliveredConcat(a: seq<Delivery>, b: seq<Delivery>, ev: Event)
    ensures Delivered(a + b, ev) <==> Delivered(a, ev) || Delivered(b, ev)
  {
    assert forall i :: 0 <= i < |a| ==> (a + b)[i] == a[i];
    assert forall i :: 0 <= i < |b| ==> (a + b)[|a| + i] == b[i];
  }

  // Delivering an event once more, first of all.
  lemma AgainFirst(ds: seq<Delivery>, ev: Event)
    requires Delivered(ds, ev)
    ensures SameEvents([Delivery(ev, true)] + ds, ds)
  {
    forall x ensures Delivered([Delivery(ev, true)] + ds, x) <==> Delivered(ds, x) {
      DeliveredConcat([Delivery(ev, true)], ds, x);
    }
  }

  lemma {:induction false} FirstTopStays(ds: seq<Delivery>, ev: Event)
    requires forall x {:trigger Delivered(ds, x)} :: Delivered(ds, x) && EntityOf(x) == EntityOf(ev) ==>
      x.version <= ev.version
    ensures Newest([Delivery(ev, true)] + ds, EntityOf(ev)) == Some(ev)
  {
    var all := [Delivery(ev, true)] + ds;
    if ds == [] {
      assert all[..0] == [];
    } else {
      forall x | Delivered(ds[..|ds| - 1], x) && EntityOf(x) == EntityOf(ev) ensures x.version <= ev.version {
        DeliveredLast(ds, x);
      }
      FirstTopStays(ds[..|ds| - 1], ev);
      assert all[..|all| - 1] == [Delivery(ev, true)] + ds[..|ds| - 1];
      if ds[|ds| - 1].Delivery? {
        assert Carries(ds[|ds| - 1], ds[|ds| - 1].event);
        assert Delivered(ds, ds[|ds| - 1].event);
      }
    }
  }

  /**
   Users do not depend on the order of delivery, or on how often an event arrives, exactly when every user's highest
   version was delivered with one payload. Ties below it do no harm.
   */
  lemma UsersIndependentExactly(ds: seq<Delivery>)
    ensures (forall other {:trigger SameEvents(ds, other)} ::
               SameEvents(ds, other) ==> Run(other).users == Run(ds).users)
       <==> UsersSettled(ds)
  {
    if UsersSettled(ds) {
      forall other | SameEvents(ds, other) ensures Run(other).users == Run(ds).users {
        SettledUsersAgree(ds, other);
      }
    } else {
      var x, y :| Top(ds, x) && Top(ds, y) && x.UserEvent? && EntityOf(x) == EntityOf(y) && x.payload != y.payload;
      var a, b := [Delivery(x, true)] + ds, [Delivery(y, true)] + ds;
      AgainFirst(ds, x);
      AgainFirst(ds, y);
      FirstTopStays(ds, x);
      FirstTopStays(ds, y);
      UsersAreNewest(a, x.id);
      UsersAreNewest(b, x.id);
      assert SameEvents(ds, a) && SameEvents(ds, b);
    }
  }

  lemma SettledUsersAgree(a: seq<Delivery>, b: seq<Delivery>)
    requires SameEvents(a, b) && UsersSettled(a)
    ensures Run(a).users == Run(b).users
  {
    forall id
      ensures id in Run(a).users <==> id in Run(b).users
      ensures id in Run(a).users ==> Run(a).users[id] == Run(b).users[id]
    {
      UserAgrees(a, b, id);
    }
  }

  lemma UserAgrees(a: seq<Delivery>, b: seq<Delivery>, id: string)
    requires SameEvents(a, b) && UsersSettled(a)
    ensures id in Run(a).users <==> id in Run(b).users
    ensures id in Run(a).users ==> Run(a).users[id] == Run(b).users[id]
  {
    var x, y := Newest(a, User(id)), Newest(b, User(id));
    UsersAreNewest(a, id);
    UsersAreNewest(b, id);
    NewestIsHighest(a, User(id));
    NewestIsHighest(b, User(id));
    if x.Some? {
      assert Delivered(b, x.value);
    }
    if y.Some? {
      assert Delivered(a, y.value);
    }
    if x.Some? && y.Some? {
      NewestIsTop(a, User(id));
      NewestIsTop(b, User(id));
      SameTops(a, b, y.value);
    }
  }

  lemma RunOfTwo(x: Delivery, y: Delivery)
    ensures Run([x, y]) == After(After(START, x), y)
  {
    assert [x, y][..1] == [x] && [x][..0] == [];
    assert Run([x]) == After(Run([]), x);
  }

  // What the older of two events of an api key leaves is overwritten by the newer.
  predicate Covers(newer: Delivery, older: Delivery)
    requires newer.Delivery? && older.Delivery? && newer.event.ApiKeyEvent? && older.event.ApiKeyEvent?
  {
    older.stored ==> newer.stored && older.event.raw == newer.event.raw
  }

  /**
   Two events of one api key leave the same state in either order exactly when the newer overwrites whatever the older
   leaves, under one raw key and in a write that succeeds; with one version they must leave the same to begin with.
   */
  lemma ApiKeyEventsCommuteExactly(x: Delivery, y: Delivery)
    requires x.Delivery? && y.Delivery? && x.event.ApiKeyEvent? && y.event.ApiKeyEvent? && x.event.id == y.event.id
    ensures Run([x, y]) == Run([y, x]) <==>
              if x.event.version < y.event.version then Covers(y, x)
              else if y.event.version < x.event.version then Covers(x, y)
              else
                x.stored == y.stored &&
                (x.stored ==> x.event.raw == y.event.raw && x.event.payload == y.event.payload)
  {
    RunOfTwo(x, y);
    RunOfTwo(y, x);
    var a, b := Run([x, y]).apiKeys, Run([y, x]).apiKeys;
    assert a.Keys == b.Keys <==> forall raw :: raw in a <==> raw in b;
    var rx, ry := x.event.raw, y.event.raw;
    if x.event.version == y.event.version {
      assert a == (if x.stored then map[rx := x.event.payload] else map[]);
      assert b == (if y.stored then map[ry := y.event.payload] else map[]);
      assert x.stored ==> rx in a;
      assert y.stored ==> ry in b;
    } else {
      assert x.stored && x.event.version < y.event.version ==> rx in a;
      assert y.stored && y.event.version < x.event.version ==> ry in b;
    }
  }

  lemma {:induction false} SeenGrows(ds: seq<Delivery>, more: seq<Delivery>, key: string)
    ensures key in Run(ds).seen ==> key in Run(ds + more).seen && Run(ds + more).seen[key] >= Run(ds).seen[key]
  {
    if more == [] {
      assert ds + more == ds;
    } else {
      SeenGrows(ds, more[..|more| - 1], key);
      assert (ds + more)[..|ds + more| - 1] == ds + more[..|more| - 1];
    }
  }

  /**
   A write that Redis refused is not made up for: until a newer version of the api key arrives, whatever else is
   delivered and however often the event itself is, what its raw key holds stays as it was.
   */
  lemma {:induction false} RefusedWriteIsLost(ds: seq<Delivery>, ev: Event, more: seq<Delivery>)
    requires ev.ApiKeyEvent? && Owns(more, ev.id, ev.raw)
    requires forall i {:trigger more[i]} ::
      0 <= i < |more| && more[i].Delivery? && EntityOf(more[i].event) == ApiKey(ev.id) ==>
               more[i].event.version <= ev.version
    ensures
      var keys, keys' := Run(ds).apiKeys, Run(ds + [Delivery(ev, false)] + more).apiKeys;
      (ev.raw in keys <==> ev.raw in keys') && (ev.raw in keys ==> keys[ev.raw] == keys'[ev.raw])
  {
    var first := ds + [Delivery(ev, false)];
    assert first[..|first| - 1] == ds;
    if more == [] {
      assert first + more == first;
    } else {
      var before, last := more[..|more| - 1], more[|more| - 1];
      assert forall i :: 0 <= i < |before| ==> before[i] == more[i];
      RefusedWriteIsLost(ds, ev, before);
      SeenGrows(first, before, GuardKey(ApiKey(ev.id)));
      assert (first + more)[..|first + more| - 1] == first + before;
      assert more[|more| - 1] == last;
    }
  }
}
