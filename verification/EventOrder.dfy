/** When the cache of api keys is independent of the order in which events are delivered. All writes succeed here. */
module EventOrder {
  import opened GoStrings
  import opened EventGuard

  ghost predicate AllStored(ds: seq<Delivery>) {
    forall i {:trigger ds[i]} :: 0 <= i < |ds| && ds[i].Delivery? ==> ds[i].stored
  }

  predicate Under(ev: Event, raw: string) {
    ev.ApiKeyEvent? && ev.raw == raw
  }

  // An api key that certainly ends up under this raw key: its highest version was delivered, and only under it.
  ghost predicate Fixed(ds: seq<Delivery>, id: string, raw: string) {
    (exists ev {:trigger Top(ds, ev)} :: Top(ds, ev) && EntityOf(ev) == ApiKey(id)) &&
    forall ev {:trigger Top(ds, ev)} :: Top(ds, ev) && EntityOf(ev) == ApiKey(id) ==> Under(ev, raw)
  }

  // An event that some order leaves in the cache: a newest one, or one whose api key can move on to another raw key.
  ghost predicate CanRemain(ds: seq<Delivery>, ev: Event) {
    Delivered(ds, ev) && ev.ApiKeyEvent? &&
    (Top(ds, ev) ||
     exists next {:trigger Top(ds, next)} :: Top(ds, next) && EntityOf(next) == EntityOf(ev) && !Under(next, ev.raw))
  }

  // Nothing is ever put under the raw key, or something certainly is and all that can remain there agrees.
  ghost predicate Settled(ds: seq<Delivery>, raw: string) {
    (forall ev {:trigger Delivered(ds, ev)} :: Delivered(ds, ev) ==> !Under(ev, raw)) ||
    ((exists id {:trigger Fixed(ds, id, raw)} :: Fixed(ds, id, raw)) &&
     forall x, y {:trigger CanRemain(ds, x), CanRemain(ds, y)} ::
       CanRemain(ds, x) && CanRemain(ds, y) && Under(x, raw) && Under(y, raw) ==> x.payload == y.payload)
  }

  function At(ds: seq<Delivery>, raw: string): Option<string> {
    var keys := Run(ds).apiKeys;
    if raw in keys then Some(keys[raw]) else None
  }

  // --- what is left under a raw key ---

  // The last event applied under the raw key.
  function Holder(ds: seq<Delivery>, raw: string): Option<Event> {
    if ds == [] then None
    else
      var before, last := ds[..|ds| - 1], ds[|ds| - 1];
      if last.Delivery? && Under(last.event, raw) && Allowed(Run(before), last.event) then Some(last.event)
      else Holder(before, raw)
  }

  // It is what the cache holds, and its api key's newest event is itself or went to another raw key.
  lemma {:induction false} HolderIsHeld(ds: seq<Delivery>, raw: string)
    requires AllStored(ds)
    ensures
      match Holder(ds, raw)
      case None => At(ds, raw) == None
      case Some(ev) =>
        At(ds, raw) == Some(ev.payload) && Under(ev, raw) && Delivered(ds, ev) && Newest(ds, EntityOf(ev)).Some? &&
        (Newest(ds, EntityOf(ev)) == Some(ev) || !Under(Newest(ds, EntityOf(ev)).value, raw))
  {
    if ds != [] {
      var before, last := ds[..|ds| - 1], ds[|ds| - 1];
      assert forall i :: 0 <= i < |before| ==> before[i] == ds[i];
      assert ds[|ds| - 1] == last;
      HolderIsHeld(before, raw);
      if last.Delivery? {
        GuardHoldsNewest(before, EntityOf(last.event));
        DeliveredLast(ds, last.event);
      }
      var h := Holder(before, raw);
      if h.Some? {
        DeliveredLast(ds, h.value);
      }
    }
  }

  // An api key's newest event is in the cache under its raw key, as itself or as another's.
  lemma {:induction false} NewestIsCached(ds: seq<Delivery>, id: string)
    requires AllStored(ds) && Newest(ds, ApiKey(id)).Some?
    ensures Newest(ds, ApiKey(id)).value.ApiKeyEvent? && At(ds, Newest(ds, ApiKey(id)).value.raw).Some?
  {
    var before, last := ds[..|ds| - 1], ds[|ds| - 1];
    assert forall i :: 0 <= i < |before| ==> before[i] == ds[i];
    GuardHoldsNewest(before, ApiKey(id));
    assert ds[|ds| - 1] == last;
    if Newest(before, ApiKey(id)) == Newest(ds, ApiKey(id)) {
      NewestIsCached(before, id);
    }
  }

  lemma SettledValue(ds: seq<Delivery>, other: seq<Delivery>, raw: string)
    requires AllStored(ds) && AllStored(other) && SameEvents(ds, other) && Settled(ds, raw)
    ensures At(ds, raw) == At(other, raw)
  {
    HolderIsHeld(ds, raw);
    HolderIsHeld(other, raw);
    assert forall ev {:trigger Delivered(other, ev)} :: Delivered(other, ev) <==> Delivered(ds, ev);
    if id :| Fixed(ds, id, raw) {
      FixedIsCached(ds, ds, id, raw);
      FixedIsCached(ds, other, id, raw);
      HeldCanRemain(ds, ds, raw);
      HeldCanRemain(ds, other, raw);
    }
  }

  lemma FixedIsCached(ds: seq<Delivery>, run: seq<Delivery>, id: string, raw: string)
    requires AllStored(run) && SameEvents(ds, run) && Fixed(ds, id, raw)
    ensures At(run, raw).Some?
  {
    var ev :| Top(ds, ev) && EntityOf(ev) == ApiKey(id);
    assert Delivered(run, ev);
    NewestIsHighest(run, ApiKey(id));
    NewestIsTop(run, ApiKey(id));
    SameTops(ds, run, Newest(run, ApiKey(id)).value);
    NewestIsCached(run, id);
  }

  lemma HeldCanRemain(ds: seq<Delivery>, run: seq<Delivery>, raw: string)
    requires AllStored(run) && SameEvents(ds, run) && Holder(run, raw).Some?
    ensures CanRemain(ds, Holder(run, raw).value) && Under(Holder(run, raw).value, raw)
  {
    HolderIsHeld(run, raw);
    var ev := Holder(run, raw).value;
    NewestIsTop(run, EntityOf(ev));
    SameTops(ds, run, Newest(run, EntityOf(ev)).value);
    assert Delivered(ds, ev);
  }

  // --- orders that tell ---

  // Every api-key event of ds is older than what the guard has seen.
  ghost predicate Blocked(s: State, ds: seq<Delivery>) {
    forall i {:trigger ds[i]} :: 0 <= i < |ds| && ds[i].Delivery? && ds[i].event.ApiKeyEvent? ==>
      !Allowed(s, ds[i].event)
  }

  // Then delivering them changes no api key.
  lemma {:induction false} BlockedChangesNothing(first: seq<Delivery>, ds: seq<Delivery>, raw: string)
    requires Blocked(Run(first), ds)
    ensures At(first + ds, raw) == At(first, raw)
  {
    if ds == [] {
      assert first + ds == first;
    } else {
      var before := ds[..|ds| - 1];
      assert forall i :: 0 <= i < |before| ==> before[i] == ds[i];
      BlockedChangesNothing(first, before, raw);
      assert (first + ds)[..|first + ds| - 1] == first + before;
      if ds[|ds| - 1].Delivery? {
        SeenGrows(first, before, GuardKey(EntityOf(ds[|ds| - 1].event)));
      }
    }
  }

  // Some delivered event of the same entity is at least as new.
  ghost predicate Met(first: seq<Delivery>, ev: Event) {
    exists met {:trigger Delivered(first, met)} ::
      Delivered(first, met) && EntityOf(met) == EntityOf(ev) && met.version >= ev.version
  }

  // A run in which every api key's events were met by at least as new a one blocks them all.
  lemma MetIsBlocked(first: seq<Delivery>, ds: seq<Delivery>)
    requires forall ev {:trigger Delivered(ds, ev)} :: Delivered(ds, ev) && ev.ApiKeyEvent? ==> Met(first, ev)
    ensures Blocked(Run(first), ds)
  {
    forall i | 0 <= i < |ds| && ds[i].Delivery? && ds[i].event.ApiKeyEvent? ensures !Allowed(Run(first), ds[i].event) {
      var ev := ds[i].event;
      assert Carries(ds[i], ev) && Delivered(ds, ev);
      var met :| Delivered(first, met) && EntityOf(met) == EntityOf(ev) && met.version >= ev.version;
      NewestIsHighest(first, EntityOf(ev));
      GuardHoldsNewest(first, EntityOf(ev));
    }
  }

  // Everything but the events of one entity.
  function Others(ds: seq<Delivery>, e: Entity): seq<Delivery> {
    if ds == [] then []
    else
      var before, last := Others(ds[..|ds| - 1], e), ds[|ds| - 1];
      if last.Delivery? && EntityOf(last.event) == e then before else before + [last]
  }

  lemma {:induction false} OthersHave(ds: seq<Delivery>, e: Entity, ev: Event)
    ensures Delivered(Others(ds, e), ev) <==> Delivered(ds, ev) && EntityOf(ev) != e
  {
    if ds != [] {
      var before, last := ds[..|ds| - 1], ds[|ds| - 1];
      OthersHave(before, e, ev);
      DeliveredLast(ds, ev);
      if !(last.Delivery? && EntityOf(last.event) == e) {
        DeliveredLast(Others(ds, e), ev);
        assert Others(ds, e)[..|Others(ds, e)| - 1] == Others(before, e);
      }
    }
  }

  lemma {:induction false} OthersStored(ds: seq<Delivery>, e: Entity)
    requires AllStored(ds)
    ensures AllStored(Others(ds, e))
  {
    if ds != [] {
      var before := ds[..|ds| - 1];
      assert forall i :: 0 <= i < |before| ==> before[i] == ds[i];
      OthersStored(before, e);
      assert ds[|ds| - 1] == ds[|ds| - 1];
    }
  }

  lemma StoredConcat(a: seq<Delivery>, b: seq<Delivery>)
    requires AllStored(a) && AllStored(b)
    ensures AllStored(a + b)
  {
    forall i | 0 <= i < |a + b| && (a + b)[i].Delivery? ensures (a + b)[i].stored {
      assert i < |a| ==> (a + b)[i] == a[i];
      assert i >= |a| ==> (a + b)[i] == b[i - |a|];
    }
  }

  lemma RunOfOneMore(ds: seq<Delivery>, d: Delivery)
    ensures Run(ds + [d]) == After(Run(ds), d)
  {
    assert (ds + [d])[..|ds|] == ds;
  }

  /** What can remain does: an order that leaves the event in the cache. */
  lemma OrderLeaving(ds: seq<Delivery>, ev: Event) returns (run: seq<Delivery>)
    requires AllStored(ds) && CanRemain(ds, ev)
    ensures AllStored(run) && SameEvents(ds, run) && At(run, ev.raw) == Some(ev.payload)
  {
    var e, others := EntityOf(ev), Others(ds, EntityOf(ev));
    OthersStored(ds, e);
    forall x ensures Delivered(others, x) <==> Delivered(ds, x) && EntityOf(x) != e {
      OthersHave(ds, e, x);
    }
    NewestIsHighest(others, e);
    GuardHoldsNewest(others, e);
    var first, top := others + [Delivery(ev, true)], ev;
    RunOfOneMore(others, Delivery(ev, true));
    StoredConcat(others, [Delivery(ev, true)]);
    forall x ensures Delivered(first, x) <==> Delivered(others, x) || x == ev {
      DeliveredConcat(others, [Delivery(ev, true)], x);
      DeliveredOne(ev, x);
    }
    if !Top(ds, ev) {
      top :| Top(ds, top) && EntityOf(top) == e && !Under(top, ev.raw);
      first := MoveOn(ds, first, ev, top);
    }
    run := Complete(ds, first, others, top, e);
    BlockedChangesNothing(first, ds, ev.raw);
  }

  lemma DeliveredOne(ev: Event, x: Event)
    ensures Delivered([Delivery(ev, true)], x) <==> x == ev
  {
    assert Carries([Delivery(ev, true)][0], ev);
  }

  // The api key's newest event, under another raw key.
  lemma MoveOn(ds: seq<Delivery>, first: seq<Delivery>, ev: Event, top: Event) returns (more: seq<Delivery>)
    requires AllStored(first) && ev.ApiKeyEvent? && At(first, ev.raw) == Some(ev.payload)
    requires Top(ds, top) && EntityOf(top) == EntityOf(ev) && !Under(top, ev.raw)
    ensures AllStored(more) && At(more, ev.raw) == Some(ev.payload)
    ensures forall x :: Delivered(more, x) <==> Delivered(first, x) || x == top
  {
    more := first + [Delivery(top, true)];
    RunOfOneMore(first, Delivery(top, true));
    StoredConcat(first, [Delivery(top, true)]);
    forall x ensures Delivered(more, x) <==> Delivered(first, x) || x == top {
      DeliveredConcat(first, [Delivery(top, true)], x);
      DeliveredOne(top, x);
    }
  }

  // Once all other entities' events and a newest one of this entity were delivered, the rest changes nothing.
  lemma Complete(ds: seq<Delivery>, first: seq<Delivery>, others: seq<Delivery>, top: Event, e: Entity)
    returns (run: seq<Delivery>)
    requires AllStored(ds) && AllStored(first) && Top(ds, top) && EntityOf(top) == e
    requires forall x :: Delivered(others, x) <==> Delivered(ds, x) && EntityOf(x) != e
    requires forall x :: Delivered(others, x) ==> Delivered(first, x)
    requires forall x :: Delivered(first, x) ==> Delivered(ds, x)
    requires Delivered(first, top)
    ensures run == first + ds && AllStored(run) && SameEvents(ds, run) && Blocked(Run(first), ds)
  {
    run := first + ds;
    StoredConcat(first, ds);
    forall x ensures Delivered(run, x) <==> Delivered(ds, x) {
      DeliveredConcat(first, ds, x);
    }
    forall ev | Delivered(ds, ev) && ev.ApiKeyEvent? ensures Met(first, ev) {
      var met := if EntityOf(ev) == e then top else ev;
      assert Delivered(first, met);
    }
    MetIsBlocked(first, ds);
  }

  // --- an order that leaves nothing ---

  ghost predicate Escapes(ds: seq<Delivery>, id: string, raw: string, top: Event) {
    Top(ds, top) && EntityOf(top) == ApiKey(id) && !Under(top, raw)
  }

  // For every api-key event a newest one of its api key, under another raw key.
  lemma {:induction false} EscapeFirst(ds: seq<Delivery>, all: seq<Delivery>, raw: string)
    returns (first: seq<Delivery>)
    requires forall ev {:trigger Delivered(ds, ev)} :: Delivered(ds, ev) ==> Delivered(all, ev)
    requires forall id {:trigger Fixed(all, id, raw)} :: !Fixed(all, id, raw)
    ensures AllStored(first) && At(first, raw) == None
    ensures forall x {:trigger Delivered(first, x)} :: Delivered(first, x) ==> Delivered(all, x)
    ensures forall ev {:trigger Delivered(ds, ev)} :: Delivered(ds, ev) && ev.ApiKeyEvent? ==> Met(first, ev)
  {
    first := [];
    if ds != [] {
      var before, last := ds[..|ds| - 1], ds[|ds| - 1];
      forall x ensures Delivered(ds, x) <==> Delivered(before, x) || Carries(last, x) {
        DeliveredLast(ds, x);
      }
      var some := EscapeFirst(before, all, raw);
      first := some;
      if last.Delivery? && last.event.ApiKeyEvent? {
        assert Carries(last, last.event) && Delivered(ds, last.event);
        var top := EscapeFor(all, last.event, raw);
        first := AddEscape(some, top, raw);
        assert Delivered(first, top) && Met(first, last.event);
        forall ev | Met(some, ev) ensures Met(first, ev) {
          var met :| Delivered(some, met) && EntityOf(met) == EntityOf(ev) && met.version >= ev.version;
          assert Delivered(first, met);
        }
      }
    }
  }

  lemma EscapeFor(all: seq<Delivery>, ev: Event, raw: string) returns (top: Event)
    requires Delivered(all, ev) && ev.ApiKeyEvent? && !Fixed(all, ev.id, raw)
    ensures Escapes(all, ev.id, raw, top) && top.version >= ev.version
  {
    NewestIsHighest(all, ApiKey(ev.id));
    NewestIsTop(all, ApiKey(ev.id));
    top :| Top(all, top) && EntityOf(top) == ApiKey(ev.id) && !Under(top, raw);
  }

  lemma AddEscape(first: seq<Delivery>, top: Event, raw: string) returns (more: seq<Delivery>)
    requires AllStored(first) && At(first, raw) == None && !Under(top, raw)
    ensures AllStored(more) && At(more, raw) == None
    ensures forall x {:trigger Delivered(more, x)} {:trigger Delivered(first, x)} ::
              Delivered(more, x) <==> Delivered(first, x) || x == top
  {
    more := first + [Delivery(top, true)];
    RunOfOneMore(first, Delivery(top, true));
    StoredConcat(first, [Delivery(top, true)]);
    forall x ensures Delivered(more, x) <==> Delivered(first, x) || x == top {
      DeliveredConcat(first, [Delivery(top, true)], x);
      DeliveredOne(top, x);
    }
  }

  lemma OrderLeavingNothing(ds: seq<Delivery>, raw: string) returns (run: seq<Delivery>)
    requires AllStored(ds) && forall id {:trigger Fixed(ds, id, raw)} :: !Fixed(ds, id, raw)
    ensures AllStored(run) && SameEvents(ds, run) && At(run, raw) == None
  {
    var first := EscapeFirst(ds, ds, raw);
    run := first + ds;
    StoredConcat(first, ds);
    forall x ensures Delivered(run, x) <==> Delivered(ds, x) {
      DeliveredConcat(first, ds, x);
    }
    MetIsBlocked(first, ds);
    BlockedChangesNothing(first, ds, raw);
  }

  // --- the theorem ---

  // Some event under the raw key can remain there, if any was delivered under it.
  lemma SomethingCanRemain(ds: seq<Delivery>, ev: Event, raw: string) returns (x: Event)
    requires Delivered(ds, ev) && Under(ev, raw)
    ensures CanRemain(ds, x) && Under(x, raw)
  {
    NewestIsHighest(ds, EntityOf(ev));
    NewestIsTop(ds, EntityOf(ev));
    var top := Newest(ds, EntityOf(ev)).value;
    x := if Under(top, raw) then top else ev;
  }

  /**
   What the cache holds under a raw key does not depend on the order of delivery, or on how often an event arrives,
   exactly when nothing is ever put there, or some api key certainly ends there and everything that can remain agrees.
   */
  lemma ApiKeysIndependentExactly(ds: seq<Delivery>, raw: string)
    requires AllStored(ds)
    ensures (forall other {:trigger SameEvents(ds, other)} :: AllStored(other) && SameEvents(ds, other) ==>
               At(other, raw) == At(ds, raw))
       <==> Settled(ds, raw)
  {
    if Settled(ds, raw) {
      forall other | AllStored(other) && SameEvents(ds, other) ensures At(other, raw) == At(ds, raw) {
        SettledValue(ds, other, raw);
      }
    } else {
      var ev :| Delivered(ds, ev) && Under(ev, raw);
      var x := SomethingCanRemain(ds, ev, raw);
      var a := OrderLeaving(ds, x);
      if forall id {:trigger Fixed(ds, id, raw)} :: !Fixed(ds, id, raw) {
        var b := OrderLeavingNothing(ds, raw);
      } else {
        var y, z :| CanRemain(ds, y) && CanRemain(ds, z) && Under(y, raw) && Under(z, raw) && y.payload != z.payload;
        var b := OrderLeaving(ds, y);
        var c := OrderLeaving(ds, z);
      }
    }
  }
}
