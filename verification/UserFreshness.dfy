/**
 The cache of users' rights, written by pushed events, by background refreshes and by the polled list of api keys.
 Each change of a user is published as an event with a version or, when many change at once, as an invalidation. What
 the cache holds of a user is represented by the change it shows. Users do not share state, so a run is one user's.
 */
module UserFreshness {
  import opened GoStrings

  // Failed is a fetch that came to nothing; it is cached like any other.
  datatype Snapshot = Shows(change: nat) | Failed

  // At most one refresh of a user is under way: Scheduled until the server has been read, Fetched until it is stored.
  datatype Refresh = Idle | Scheduled | Fetched(found: Snapshot)

  datatype Slot = Slot(entry: Option<Snapshot>, refresh: Refresh)

  const EMPTY := Slot(None, Idle)

  // A refresh that is under way is joined.
  function Schedule(slot: Slot): Slot {
    if slot.refresh.Idle? then slot.(refresh := Scheduled) else slot
  }

  function Store(slot: Slot, found: Snapshot): Slot {
    slot.(entry := Some(found))
  }

  function Drop(slot: Slot): Slot {
    slot.(entry := None)
  }

  // --- the code ---

  datatype Entry = Entry(user: Snapshot, expiresAt: int)

  class UserFreshnessCache {
    const ttl: int
    var entries: map<string, Entry>
    var refreshes: map<string, Refresh>

    function SlotOf(id: string): Slot
      reads this
    {
      Slot(if id in entries then Some(entries[id].user) else None, if id in refreshes then refreshes[id] else Idle)
    }

    constructor (ttl: int)
      ensures forall id :: SlotOf(id) == EMPTY
    {
      this.ttl := ttl;
      entries, refreshes := map[], map[];
    }

    // Never waits: what is there is answered, and refreshed in the background once it has expired.
    method Get(id: string, now: int) returns (user: Option<Snapshot>)
      modifies this`refreshes
      ensures user == old(SlotOf(id)).entry
      ensures SlotOf(id) == if id in entries && now < entries[id].expiresAt then old(SlotOf(id))
                            else Schedule(old(SlotOf(id)))
      ensures forall x :: x != id ==> SlotOf(x) == old(SlotOf(x))
    {
      if id in entries && now < entries[id].expiresAt {
        return Some(entries[id].user);
      }
      ScheduleRefresh(id);
      return if id in entries then Some(entries[id].user) else None;
    }

    method ScheduleRefresh(id: string)
      modifies this`refreshes
      ensures SlotOf(id) == Schedule(old(SlotOf(id)))
      ensures forall x :: x != id ==> SlotOf(x) == old(SlotOf(x))
    {
      if id !in refreshes || refreshes[id].Idle? {
        refreshes := refreshes[id := Scheduled];
      }
    }

    // The fetch of a scheduled refresh comes back.
    method FetchUser(id: string, found: Snapshot)
      requires SlotOf(id).refresh.Scheduled?
      modifies this`refreshes
      ensures SlotOf(id) == old(SlotOf(id)).(refresh := Fetched(found))
      ensures forall x :: x != id ==> SlotOf(x) == old(SlotOf(x))
    {
      refreshes := refreshes[id := Fetched(found)];
    }

    // What was fetched is stored, failures too, over whatever has been stored meanwhile.
    method FinishRefresh(id: string, now: int)
      requires SlotOf(id).refresh.Fetched?
      modifies this
      ensures SlotOf(id) == Slot(Some(old(SlotOf(id)).refresh.found), Idle)
      ensures id in entries && entries[id].expiresAt == now + ttl
      ensures forall x :: x != id ==> SlotOf(x) == old(SlotOf(x))
    {
      entries := entries[id := Entry(refreshes[id].found, now + ttl)];
      refreshes := refreshes[id := Idle];
    }

    method Set(id: string, user: Snapshot, now: int)
      modifies this`entries
      ensures SlotOf(id) == Store(old(SlotOf(id)), user)
      ensures id in entries && entries[id].expiresAt == now + ttl
      ensures forall x :: x != id ==> SlotOf(x) == old(SlotOf(x))
    {
      entries := entries[id := Entry(user, now + ttl)];
    }

    method InvalidateAndRefresh(ids: seq<string>)
      modifies this
      ensures forall x :: SlotOf(x) == if x in ids then Schedule(Drop(old(SlotOf(x)))) else old(SlotOf(x))
    {
      for i := 0 to |ids|
        invariant forall x :: SlotOf(x) == if x in ids[..i] then Drop(old(SlotOf(x))) else old(SlotOf(x))
      {
        entries := entries - {ids[i]};
      }
      assert ids[..|ids|] == ids;
      for i := 0 to |ids|
        invariant forall x ::
          var dropped := if x in ids then Drop(old(SlotOf(x))) else old(SlotOf(x));
          SlotOf(x) == if x in ids[..i] then Schedule(dropped) else dropped
      {
        ScheduleRefresh(ids[i]);
      }
    }
  }

  // --- one user over time ---

  // The versions of the user's changes, where one was pushed; the version the guard has seen; what the cache holds;
  // and what a pull of the api keys has read of the user but not yet stored.
  datatype State = State(changes: seq<Option<int>>, seen: Option<int>, slot: Slot, polled: Option<nat>)

  const START := State([], None, EMPTY, None)

  datatype Step =
    | Change(version: Option<int>)
    | Push(change: nat)
    | Ask
    | Invalidate
    | Read(ok: bool)
    | Land
    | Poll
    | Preload

  predicate Passes(seen: Option<int>, version: Option<int>) {
    version.Some? && (seen == None || version.value > seen.value)
  }

  predicate Enabled(s: State, step: Step) {
    match step
    case Push(i) => i < |s.changes| && s.changes[i].Some?
    case Read(_) => s.slot.refresh.Scheduled?
    case Land => s.slot.refresh.Fetched?
    case Poll => s.changes != [] && s.polled == None
    case Preload => s.polled.Some?
    case _ => true
  }

  function After(s: State, step: Step): State
    requires Enabled(s, step)
  {
    match step
    case Change(version) => s.(changes := s.changes + [version])
    case Push(i) =>
      if Passes(s.seen, s.changes[i]) then s.(seen := s.changes[i], slot := Store(s.slot, Shows(i))) else s
    case Ask => s.(slot := Schedule(s.slot))
    case Invalidate => s.(slot := Schedule(Drop(s.slot)))
    case Read(ok) =>
      s.(slot := Slot(s.slot.entry, Fetched(if ok && s.changes != [] then Shows(|s.changes| - 1) else Failed)))
    case Land => s.(slot := Slot(Some(s.slot.refresh.found), Idle))
    case Poll => s.(polled := Some(|s.changes| - 1))
    case Preload => s.(slot := Store(s.slot, Shows(s.polled.value)), polled := None)
  }

  predicate Possible(s: State, steps: seq<Step>)
    decreases steps
  {
    steps == [] || (Enabled(s, steps[0]) && Possible(After(s, steps[0]), steps[1..]))
  }

  function Reached(s: State, steps: seq<Step>): State
    requires Possible(s, steps)
    decreases steps
  {
    if steps == [] then s else Reached(After(s, steps[0]), steps[1..])
  }

  // Shows a change before the last.
  predicate Older(s: State, found: Snapshot) {
    found.Shows? && found.change + 1 < |s.changes|
  }

  predicate Stale(s: State) {
    s.slot.entry.Some? && Older(s, s.slot.entry.value)
  }

  // Nothing older than the last change is cached, being fetched, being preloaded, or could still be pushed.
  ghost predicate Calm(s: State) {
    !Stale(s) && NothingOlderComes(s)
  }

  ghost predicate NothingOlderComes(s: State) {
    (s.slot.refresh.Fetched? ==> !Older(s, s.slot.refresh.found)) &&
    (s.polled.Some? ==> !Older(s, Shows(s.polled.value))) &&
    forall i {:trigger s.changes[i]} :: 0 <= i < |s.changes| - 1 ==> !Passes(s.seen, s.changes[i])
  }

  ghost predicate NoChange(steps: seq<Step>) {
    forall i {:trigger steps[i]} :: 0 <= i < |steps| ==> !steps[i].Change?
  }

  // Whatever comes, short of another change, no older one is cached.
  ghost predicate NeverStale(s: State) {
    forall steps {:trigger Possible(s, steps)} :: Possible(s, steps) && NoChange(steps) ==> !Stale(Reached(s, steps))
  }

  lemma {:induction false} StaysCalm(s: State, steps: seq<Step>)
    requires Calm(s) && Possible(s, steps) && NoChange(steps)
    ensures Calm(Reached(s, steps))
    decreases steps
  {
    if steps != [] {
      StaysCalm(After(s, steps[0]), steps[1..]);
    }
  }

  lemma OneStep(s: State, step: Step)
    requires Enabled(s, step)
    ensures Possible(s, [step]) && Reached(s, [step]) == After(s, step)
  {
    var rest := [step][1..];
    assert rest == [] && Possible(After(s, step), rest);
  }

  /**
   Once a user's changes stop, the cache never again shows an older one exactly when none is cached, fetched and not yet
   stored, polled and not yet stored, or still able to pass the guard.
   */
  lemma StaysNewestExactly(s: State)
    ensures NeverStale(s) <==> Calm(s)
  {
    if Calm(s) {
      forall steps | Possible(s, steps) && NoChange(steps) ensures !Stale(Reached(s, steps)) {
        StaysCalm(s, steps);
      }
    } else if Stale(s) {
      assert Possible(s, []) && NoChange([]);
    } else {
      var step := OlderStep(s);
      OneStep(s, step);
      assert NoChange([step]);
    }
  }

  // What brings an older change into the cache.
  ghost function OlderStep(s: State): (step: Step)
    requires !NothingOlderComes(s)
    ensures !step.Change? && Enabled(s, step) && Stale(After(s, step))
  {
    if s.slot.refresh.Fetched? && Older(s, s.slot.refresh.found) then Land
    else if s.polled.Some? && Older(s, Shows(s.polled.value)) then Preload
    else
      var i :| 0 <= i < |s.changes| - 1 && Passes(s.seen, s.changes[i]);
      Push(i)
  }

  /**
   An invalidation makes the last change take effect for good exactly when nothing older is on its way: it joins a
   refresh that read the server before the change instead of starting one.
   */
  lemma InvalidationSettlesExactly(s: State)
    ensures NeverStale(After(s, Invalidate)) <==> NothingOlderComes(s)
  {
    StaysNewestExactly(After(s, Invalidate));
  }

  predicate ShowsLast(s: State) {
    s.slot.entry.Some? && s.slot.entry.value.Shows? && s.slot.entry.value.change + 1 == |s.changes|
  }

  /**
   When nothing older is on its way, one refresh that reads the server brings the last change, and nothing takes it
   back.
   */
  lemma NextRefreshSettles(s: State)
    requires NothingOlderComes(s) && s.slot.refresh.Scheduled? && s.changes != []
    ensures
      var steps := [Read(true), Land];
      Possible(s, steps) && ShowsLast(Reached(s, steps)) && NeverStale(Reached(s, steps))
  {
    var read := After(s, Read(true));
    OneStep(read, Land);
    assert [Read(true), Land][1..] == [Land];
    StaysNewestExactly(After(read, Land));
  }

  // --- pushed events do not undo a late refresh ---

  ghost predicate Pushes(steps: seq<Step>) {
    forall i {:trigger steps[i]} :: 0 <= i < |steps| ==> steps[i].Push?
  }

  lemma {:induction false} PushesRepairOnly(s: State, steps: seq<Step>)
    requires s.changes != [] && Possible(s, steps) && Pushes(steps)
    requires !ShowsLast(s) && !Passes(s.seen, s.changes[|s.changes| - 1])
    ensures !ShowsLast(Reached(s, steps))
    decreases steps
  {
    if steps != [] {
      PushesRepairOnly(After(s, steps[0]), steps[1..]);
    }
  }

  // Pushed events alone that end with the last change cached.
  ghost predicate Repairs(s: State, steps: seq<Step>) {
    Possible(s, steps) && Pushes(steps) && ShowsLast(Reached(s, steps))
  }

  /** Pushed events alone can bring the last change exactly when it is there or its event can still pass the guard. */
  lemma PushesRepairExactly(s: State)
    requires s.changes != []
    ensures (exists steps :: Repairs(s, steps)) <==> ShowsLast(s) || Passes(s.seen, s.changes[|s.changes| - 1])
  {
    if ShowsLast(s) {
      assert Repairs(s, []);
    } else if Passes(s.seen, s.changes[|s.changes| - 1]) {
      var push := Push(|s.changes| - 1);
      OneStep(s, push);
      assert Repairs(s, [push]);
    } else {
      forall steps | Possible(s, steps) && Pushes(steps) ensures !Repairs(s, steps) {
        PushesRepairOnly(s, steps);
      }
    }
  }

  /**
   A refresh that read the server before the last change and is stored after its event was applied takes the change
   back, and no event brings it again, however often it is delivered.
   */
  lemma LateRefreshUndoesPush(s: State, more: seq<Step>)
    requires s.changes != [] && s.slot.refresh.Fetched? && Older(s, s.slot.refresh.found)
    requires Passes(s.seen, s.changes[|s.changes| - 1])
    requires
      var undone := After(After(s, Push(|s.changes| - 1)), Land);
      Possible(undone, more) && Pushes(more)
    ensures
      var pushed := After(s, Push(|s.changes| - 1));
      ShowsLast(pushed) && Stale(After(pushed, Land)) && !ShowsLast(Reached(After(pushed, Land), more))
  {
    PushesRepairOnly(After(After(s, Push(|s.changes| - 1)), Land), more);
  }

  lemma Then(s: State, step: Step, rest: seq<Step>)
    requires Enabled(s, step) && Possible(After(s, step), rest)
    ensures Possible(s, [step] + rest) && Reached(s, [step] + rest) == Reached(After(s, step), rest)
  {
    assert ([step] + rest)[1..] == rest;
  }

  /**
   It happens from any state without a refresh under way: the entry expires, the server is read, the user changes once
   more, and the event of that change overtakes the answer.
   */
  lemma LateRefreshHappens(s: State, version: int)
    requires s.changes != [] && s.slot.refresh.Idle? && Passes(s.seen, Some(version))
    ensures
      var steps := [Ask] + ([Read(true)] + ([Change(Some(version))] + ([Push(|s.changes|)] + [Land])));
      Possible(s, steps) && Stale(Reached(s, steps)) && Reached(s, steps).seen == Some(version)
  {
    var asked := After(s, Ask);
    var read := After(asked, Read(true));
    var changed := After(read, Change(Some(version)));
    var push := Push(|s.changes|);
    var pushed := After(changed, push);
    OneStep(pushed, Land);
    Then(changed, push, [Land]);
    Then(read, Change(Some(version)), [push] + [Land]);
    Then(asked, Read(true), [Change(Some(version))] + ([push] + [Land]));
    Then(s, Ask, [Read(true)] + ([Change(Some(version))] + ([push] + [Land])));
  }
}
