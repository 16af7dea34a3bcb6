/** What the route index promises, over the flat table it maintains. */
module RouteLaws {
  import opened GoStrings
  import opened RouteTable

  // --- which match is best ---

  // The priorities met along a matching path, ending with how it ends: 0 exactly, 3 by a wildcard.
  function Ranks(rest: seq<Token>, wild: bool, segs: seq<string>): seq<nat>
    requires Fits(rest, wild, segs)
  {
    if rest == [] then [if wild then 3 else 0]
    else [Rank(rest[0], segs[0])] + Ranks(rest[1..], wild, segs[1..])
  }

  predicate LexLeq(a: seq<nat>, b: seq<nat>) {
    if a == [] then true
    else if b == [] then false
    else a[0] < b[0] || (a[0] == b[0] && LexLeq(a[1..], b[1..]))
  }

  function Literals(segs: seq<string>): seq<Token> {
    if segs == [] then [] else [Lit(segs[0])] + Literals(segs[1..])
  }

  lemma {:induction false} LiteralsFit(segs: seq<string>)
    ensures Fits(Literals(segs), false, segs)
  {
    if segs != [] {
      LiteralsFit(segs[1..]);
    }
  }

  lemma {:induction false} OnlyLiteralsMatchLiterals(rest: seq<Token>, wild: bool, segs: seq<string>)
    requires Fits(rest, wild, segs) && Fits(Literals(segs), false, segs)
    requires NotWorse(rest, wild, Literals(segs), false, segs)
    ensures rest == Literals(segs) && !wild
    decreases |segs|
  {
    if segs != [] {
      assert rest != [];
      assert rest[0] == Lit(segs[0]);
      OnlyLiteralsMatchLiterals(rest[1..], wild, segs[1..]);
      assert rest == [rest[0]] + rest[1..];
    } else {
      assert rest == [];
    }
  }

  /** A request spelled exactly like a registered path gets that route, whatever else is registered. */
  lemma ExactPathWins(slots: map<Slot, Route>, names: map<Path, string>, segs: seq<string>, m: Option<PathMatch>)
    requires Slot(Walk(Root, Literals(segs)), false) in slots
    requires IsLookup(slots, names, segs, m)
    ensures
      var route := slots[Slot(Walk(Root, Literals(segs)), false)];
      m == Some(PathMatch(route.service, route.resource, map[], ""))
  {
    var rest, wild :| Answer(slots, names, Root, segs, map[], m, rest, wild);
    LiteralsFit(segs);
    assert Candidate(slots, Root, segs, Literals(segs), false);
    OnlyLiteralsMatchLiterals(rest, wild, segs);
    LiteralsBindNothing(names, Root, segs, map[]);
    LiteralsLength(segs);
  }

  lemma {:induction false} LiteralsLength(segs: seq<string>)
    ensures |Literals(segs)| == |segs|
  {
    if segs != [] {
      LiteralsLength(segs[1..]);
    }
  }

  lemma {:induction false} LiteralsBindNothing(names: map<Path, string>, at: Path, segs: seq<string>,
                                               params: map<string, string>)
    ensures Bind(names, at, Literals(segs), segs, params) == params
    decreases |segs|
  {
    if segs != [] {
      LiteralsBindNothing(names, Step(at, Lit(segs[0])), segs[1..], params);
      assert Literals(segs)[1..] == Literals(segs[1..]);
    }
  }

  // --- slots ---

  /** A path and the same path ending in a wildcard are two slots of one position. */
  lemma {:induction false} WildcardSlotApart(at: Path, segs: seq<string>)
    requires "*" !in segs
    ensures SlotOf(at, segs + ["*"]) == Slot(SlotOf(at, segs).path, true) && !SlotOf(at, segs).wild
    decreases |segs|
  {
    if segs == [] {
      assert segs + ["*"] == ["*"];
    } else {
      assert (segs + ["*"])[1..] == segs[1..] + ["*"];
      WildcardSlotApart(if segs[0] == "" then at else Step(at, TokenOf(segs[0])), segs[1..]);
    }
  }

  /**
   A resource whose whole path is empty is never matched exactly: with or without it every request gets the same
   answers.
   */
  lemma EmptyPathNeverExact(slots: map<Slot, Route>, names: map<Path, string>, requestPath: string,
                            m: Option<PathMatch>)
    ensures
      var segs := RequestSegments(requestPath);
      IsLookup(slots, names, segs, m) <==> IsLookup(slots - {Slot(Root, false)}, names, segs, m)
  {
    var segs, fewer := RequestSegments(requestPath), slots - {Slot(Root, false)};
    forall rest, wild
      ensures Candidate(slots, Root, segs, rest, wild) <==> Candidate(fewer, Root, segs, rest, wild)
    {
      WalkDepth(Root, rest);
    }
    if rest, wild :| Answer(slots, names, Root, segs, map[], m, rest, wild) {
      assert Answer(fewer, names, Root, segs, map[], m, rest, wild);
    }
    if rest, wild :| Answer(fewer, names, Root, segs, map[], m, rest, wild) {
      assert Answer(slots, names, Root, segs, map[], m, rest, wild);
    }
  }

  // --- bulk loading and deleting ---

  // The last of the entries to take slot s, or -1.
  function Last(entries: seq<Entry>, s: Slot): (i: int)
    ensures -1 <= i < |entries|
    ensures i >= 0 ==> SlotOf(Root, entries[i].segs) == s
    ensures forall j :: i < j < |entries| ==> SlotOf(Root, entries[j].segs) != s
  {
    if entries == [] then -1
    else
      var n := |entries| - 1;
      if SlotOf(Root, entries[n].segs) == s then n else Last(entries[..n], s)
  }

  /** A loaded slot holds exactly the last route registered for it. */
  lemma {:induction false} LastWriterWins(entries: seq<Entry>, s: Slot)
    ensures
      var slots, i := LoadSlots(map[], entries), Last(entries, s);
      if i == -1 then s !in slots else s in slots && slots[s] == entries[i].route
  {
    if entries != [] {
      LastWriterWins(entries[..|entries| - 1], s);
    }
  }

  // The entries of every service but one.
  function Others(entries: seq<Entry>, id: string): seq<Entry> {
    if entries == [] then []
    else
      var n := |entries| - 1;
      var rest := Others(entries[..n], id);
      if entries[n].route.service.id == id then rest else rest + [entries[n]]
  }

  // The last entry of another service to take slot s, or -1.
  function LastOther(entries: seq<Entry>, id: string, s: Slot): (i: int)
    ensures -1 <= i < |entries|
    ensures i >= 0 ==> SlotOf(Root, entries[i].segs) == s && entries[i].route.service.id != id
    ensures forall j :: i < j < |entries| && SlotOf(Root, entries[j].segs) == s ==> entries[j].route.service.id == id
  {
    if entries == [] then -1
    else
      var n := |entries| - 1;
      if SlotOf(Root, entries[n].segs) == s && entries[n].route.service.id != id then n
      else LastOther(entries[..n], id, s)
  }

  lemma {:induction false} OthersSlot(entries: seq<Entry>, id: string, s: Slot)
    ensures
      var slots, i := LoadSlots(map[], Others(entries, id)), LastOther(entries, id, s);
      if i == -1 then s !in slots else s in slots && slots[s] == entries[i].route
  {
    if entries != [] {
      var n := |entries| - 1;
      OthersSlot(entries[..n], id, s);
      if entries[n].route.service.id != id {
        LoadOne(map[], map[], Others(entries[..n], id), entries[n]);
      }
    }
  }

  // No other service registered a slot that `id` ends up holding.
  ghost predicate Uncontested(entries: seq<Entry>, id: string) {
    forall i, j | 0 <= i < |entries| && 0 <= j < |entries| &&
      entries[i].route.service.id == id && Last(entries, SlotOf(Root, entries[i].segs)) == i &&
      SlotOf(Root, entries[j].segs) == SlotOf(Root, entries[i].segs) :: entries[j].route.service.id == id
  }

  lemma SlotAgrees(entries: seq<Entry>, id: string, s: Slot)
    ensures
      var kept, reloaded := Without(LoadSlots(map[], entries), id), LoadSlots(map[], Others(entries, id));
      var last := Last(entries, s);
      var stolen := last >= 0 && entries[last].route.service.id == id && LastOther(entries, id, s) >= 0;
      if stolen then s !in kept && s in reloaded
      else (s in kept <==> s in reloaded) && (s in kept ==> kept[s] == reloaded[s])
  {
    LastWriterWins(entries, s);
    OthersSlot(entries, id, s);
    var last, other := Last(entries, s), LastOther(entries, id, s);
    if last >= 0 && entries[last].route.service.id != id {
      assert last == other;
    }
  }

  /**
   Deleting a service leaves the table of a bulk load without it exactly when no other service had
   registered a slot it holds: such a slot would come back with a reload but stays empty after a delete.
   */
  lemma DeleteIsReload(entries: seq<Entry>, id: string)
    ensures Without(LoadSlots(map[], entries), id) == LoadSlots(map[], Others(entries, id))
       <==> Uncontested(entries, id)
  {
    var kept, reloaded := Without(LoadSlots(map[], entries), id), LoadSlots(map[], Others(entries, id));
    if Uncontested(entries, id) {
      forall s ensures (s in kept <==> s in reloaded) && (s in kept ==> kept[s] == reloaded[s]) {
        SlotAgrees(entries, id, s);
      }
      assert kept.Keys == reloaded.Keys;
      assert kept == reloaded;
    } else {
      var i, j :| 0 <= i < |entries| && 0 <= j < |entries| &&
        entries[i].route.service.id == id && Last(entries, SlotOf(Root, entries[i].segs)) == i &&
        SlotOf(Root, entries[j].segs) == SlotOf(Root, entries[i].segs) && entries[j].route.service.id != id;
      SlotAgrees(entries, id, SlotOf(Root, entries[i].segs));
    }
  }

  function Remaining(services: seq<Service>, id: string): seq<Service> {
    if services == [] then []
    else
      var n := |services| - 1;
      var rest := Remaining(services[..n], id);
      if services[n].id == id then rest else rest + [services[n]]
  }

  lemma {:induction false} OthersOfService(before: seq<Entry>, svc: Service, n: nat, id: string)
    requires n <= |svc.resources|
    ensures Others(before + ServiceEntries(svc, n), id)
         == Others(before, id) + if svc.id == id then [] else ServiceEntries(svc, n)
  {
    if n == 0 {
      assert before + ServiceEntries(svc, 0) == before;
    } else {
      OthersOfService(before, svc, n - 1, id);
      var all := before + ServiceEntries(svc, n);
      assert all == (before + ServiceEntries(svc, n - 1)) + [EntryOf(svc, svc.resources[n - 1])];
      assert all[..|all| - 1] == before + ServiceEntries(svc, n - 1);
    }
  }

  lemma {:induction false} OthersOfServices(services: seq<Service>, id: string)
    ensures Others(AllEntries(services), id) == AllEntries(Remaining(services, id))
  {
    if services != [] {
      var n := |services| - 1;
      OthersOfServices(services[..n], id);
      OthersOfService(AllEntries(services[..n]), services[n], |services[n].resources|, id);
      var rest := Remaining(services[..n], id);
      assert (rest + [services[n]])[..|rest|] == rest;
    }
  }

  // --- up to parameter names ---

  // The names and the values a match binds, in order.
  function BoundNames(names: map<Path, string>, at: Path, rest: seq<Token>, segs: seq<string>): seq<string>
    decreases |rest|
  {
    if rest == [] || segs == [] then []
    else
      var more := BoundNames(names, Step(at, rest[0]), rest[1..], segs[1..]);
      match rest[0]
      case Param =>
        var name := if at in names then names[at] else "";
        [if name == "" then "_" else name] + more
      case Lit(s) => if s == segs[0] then more else [PatternParamName(s)] + more
  }

  function BoundValues(rest: seq<Token>, segs: seq<string>): seq<string> {
    if rest == [] || segs == [] then []
    else
      var more := BoundValues(rest[1..], segs[1..]);
      match rest[0]
      case Param => [segs[0]] + more
      case Lit(s) => if s == segs[0] then more else [PatternParamValue(segs[0])] + more
  }

  // A later value takes a name from an earlier one.
  function Assign(params: map<string, string>, names: seq<string>, values: seq<string>): map<string, string>
    decreases |names|
  {
    if names == [] || values == [] then params
    else Assign(params[names[0] := values[0]], names[1..], values[1..])
  }

  lemma {:induction false} BindAssigns(names: map<Path, string>, at: Path, rest: seq<Token>, segs: seq<string>,
                                       params: map<string, string>)
    ensures Bind(names, at, rest, segs, params) ==
      Assign(params, BoundNames(names, at, rest, segs), BoundValues(rest, segs))
    decreases |rest|
  {
    if rest != [] && segs != [] {
      var next, vs := BoundNames(names, Step(at, rest[0]), rest[1..], segs[1..]), BoundValues(rest[1..], segs[1..]);
      match rest[0]
      case Param =>
        var name := if at in names then names[at] else "";
        var bound := if name == "" then "_" else name;
        BindAssigns(names, Step(at, Param), rest[1..], segs[1..], params[bound := segs[0]]);
        assert ([bound] + next)[1..] == next && ([segs[0]] + vs)[1..] == vs;
      case Lit(s) =>
        if s == segs[0] {
          BindAssigns(names, Step(at, Lit(s)), rest[1..], segs[1..], params);
        } else {
          var value := PatternParamValue(segs[0]);
          BindAssigns(names, Step(at, Lit(s)), rest[1..], segs[1..], params[PatternParamName(s) := value]);
          assert ([PatternParamName(s)] + next)[1..] == next && ([value] + vs)[1..] == vs;
        }
    }
  }

  // The same route, the same remainder, and the same values bound along one path, each under the names of its index.
  ghost predicate SameUpToNames(names: map<Path, string>, names': map<Path, string>, segs: seq<string>,
                                m: Option<PathMatch>, m': Option<PathMatch>) {
    match (m, m')
    case (Some(a), Some(b)) =>
      a.service == b.service && a.resource == b.resource && a.remaining == b.remaining &&
      exists rest {:trigger BoundValues(rest, segs)} ::
        a.params == Assign(map[], BoundNames(names, Root, rest, segs), BoundValues(rest, segs)) &&
        b.params == Assign(map[], BoundNames(names', Root, rest, segs), BoundValues(rest, segs))
    case _ => m.None? && m'.None?
  }

  // One path read with two sets of names.
  lemma SamePathOtherNames(slots: map<Slot, Route>, names: map<Path, string>, names': map<Path, string>,
                           segs: seq<string>,
                           m: Option<PathMatch>, rest: seq<Token>, wild: bool) returns (m': Option<PathMatch>)
    requires Answer(slots, names, Root, segs, map[], m, rest, wild)
    ensures Answer(slots, names', Root, segs, map[], m', rest, wild) && SameUpToNames(names, names', segs, m, m')
  {
    m' := None;
    if m.Some? {
      m' := Some(MatchOf(slots, names', Root, segs, map[], rest, wild));
      BindAssigns(names, Root, rest, segs, map[]);
      BindAssigns(names', Root, rest, segs, map[]);
      assert BoundValues(rest, segs) == BoundValues(rest, segs);
    }
  }

  /**
   After a delete every lookup is that of a gateway loaded without the service, up to the names of parameters:
   whatever one index can answer the other can answer too, and the deleted service is never the answer.
   */
  lemma DeletedServiceIsGone(services: seq<Service>, id: string, names: map<Path, string>, names': map<Path, string>,
                             segs: seq<string>, m: Option<PathMatch>) returns (m': Option<PathMatch>)
    requires Uncontested(AllEntries(services), id)
    requires
      var deleted, reloaded :=
        Without(LoadSlots(map[], AllEntries(services)), id), LoadSlots(map[], AllEntries(Remaining(services, id)));
      IsLookup(deleted, names, segs, m) || IsLookup(reloaded, names, segs, m)
    ensures
      var deleted, reloaded :=
        Without(LoadSlots(map[], AllEntries(services)), id), LoadSlots(map[], AllEntries(Remaining(services, id)));
      IsLookup(deleted, names', segs, m') && IsLookup(reloaded, names', segs, m')
    ensures SameUpToNames(names, names', segs, m, m') && (m.Some? ==> m.value.service.id != id)
  {
    DeleteIsReload(AllEntries(services), id);
    OthersOfServices(services, id);
    var slots := Without(LoadSlots(map[], AllEntries(services)), id);
    var rest, wild :| Answer(slots, names, Root, segs, map[], m, rest, wild);
    m' := SamePathOtherNames(slots, names, names', segs, m, rest, wild);
    assert IsLookup(slots, names', segs, m');
  }

  // --- what is loaded ---

  // How many resources the services before the i-th have.
  function Offset(services: seq<Service>, i: nat): nat
    requires i <= |services|
  {
    if i == 0 then 0 else Offset(services, i - 1) + |services[i - 1].resources|
  }

  lemma {:induction false} ServiceEntriesAt(svc: Service, n: nat, j: nat)
    requires j < n <= |svc.resources|
    ensures |ServiceEntries(svc, n)| == n && ServiceEntries(svc, n)[j] == EntryOf(svc, svc.resources[j])
  {
    ServiceEntriesCount(svc, n - 1);
    if j < n - 1 {
      ServiceEntriesAt(svc, n - 1, j);
    }
  }

  lemma {:induction false} ServiceEntriesCount(svc: Service, n: nat)
    requires n <= |svc.resources|
    ensures |ServiceEntries(svc, n)| == n
  {
    if n > 0 {
      ServiceEntriesCount(svc, n - 1);
    }
  }

  lemma {:induction false} EntriesCount(services: seq<Service>)
    ensures |AllEntries(services)| == Offset(services, |services|)
  {
    if services != [] {
      var n := |services| - 1;
      EntriesCount(services[..n]);
      OffsetOfPrefix(services, n, n);
      ServiceEntriesCount(services[n], |services[n].resources|);
    }
  }

  lemma {:induction false} OffsetOfPrefix(services: seq<Service>, n: nat, i: nat)
    requires i <= n <= |services|
    ensures Offset(services[..n], i) == Offset(services, i)
    decreases i
  {
    if i > 0 {
      OffsetOfPrefix(services, n, i - 1);
    }
  }

  // The entries of the last service come after those of the others.
  lemma EntriesSplit(services: seq<Service>)
    requires services != []
    ensures
      var n := |services| - 1;
      AllEntries(services) == AllEntries(services[..n]) + ServiceEntries(services[n], |services[n].resources|) &&
      |AllEntries(services[..n])| == Offset(services, n)
  {
    var n := |services| - 1;
    EntriesCount(services[..n]);
    OffsetOfPrefix(services, n, n);
  }

  /** A load registers every resource of every service once, service by service and in each service's order. */
  lemma {:induction false} EveryResourceIsLoaded(services: seq<Service>, i: nat, j: nat, k: nat)
    requires i < |services| && j < |services[i].resources| && k == Offset(services, i) + j
    ensures k < |AllEntries(services)| == Offset(services, |services|)
    ensures AllEntries(services)[k] == EntryOf(services[i], services[i].resources[j])
  {
    var n := |services| - 1;
    EntriesCount(services);
    EntriesSplit(services);
    if i < n {
      OffsetOfPrefix(services, n, i);
      EveryResourceIsLoaded(services[..n], i, j, k);
    } else {
      ServiceEntriesAt(services[n], |services[n].resources|, j);
    }
  }
}
