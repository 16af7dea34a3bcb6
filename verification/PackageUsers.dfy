/** Moving users between packages, and the count of users each package carries. */
module PackageUsers {
  import opened GoStrings
  import opened ObjectIds

  datatype User = User(package: Option<ObjectId>, deleted: bool)

  datatype Package = Package(userCount: int, deleted: bool)

  datatype Records = Records(users: map<ObjectId, User>, packages: map<ObjectId, Package>)

  function Members(users: map<ObjectId, User>, pid: ObjectId): set<ObjectId> {
    set u | u in users && !users[u].deleted && users[u].package == Some(pid)
  }

  // Every live package carries the number of its live users.
  ghost predicate CountsRight(db: Records) {
    forall p {:trigger p in db.packages} :: p in db.packages && !db.packages[p].deleted ==>
      db.packages[p].userCount == |Members(db.users, p)|
  }

  predicate Live(db: Records, pid: ObjectId) {
    pid in db.packages && !db.packages[pid].deleted
  }

  // --- the queries ---

  // The live users among ids that are not in the package yet.
  function Moved(users: map<ObjectId, User>, ids: set<ObjectId>, pid: ObjectId): set<ObjectId> {
    set u | u in ids && u in users && !users[u].deleted && users[u].package != Some(pid)
  }

  function Gone(users: map<ObjectId, User>, pid: ObjectId, ids: set<ObjectId>): set<ObjectId> {
    Members(users, pid) * ids
  }

  // Of the moved users, the ones that come from one package.
  function From(users: map<ObjectId, User>, moved: set<ObjectId>, source: ObjectId): set<ObjectId> {
    set u | u in moved && u in users && users[u].package == Some(source)
  }

  function Sources(users: map<ObjectId, User>, moved: set<ObjectId>): set<ObjectId> {
    set u | u in moved && u in users && users[u].package.Some? :: users[u].package.value
  }

  function CountByOldPackage(users: map<ObjectId, User>, ids: set<ObjectId>, pid: ObjectId): map<ObjectId, int> {
    var moved := Moved(users, ids, pid);
    map q | q in Sources(users, moved) :: |From(users, moved, q)|
  }

  function BulkSet(users: map<ObjectId, User>, moved: set<ObjectId>, to: Option<ObjectId>): map<ObjectId, User> {
    map u | u in users :: if u in moved then users[u].(package := to) else users[u]
  }

  // A deleted or unknown package is left alone.
  function Incr(packages: map<ObjectId, Package>, pid: ObjectId, delta: int): map<ObjectId, Package> {
    if pid in packages && !packages[pid].deleted
    then packages[pid := packages[pid].(userCount := packages[pid].userCount + delta)]
    else packages
  }

  function IncrAll(packages: map<ObjectId, Package>, deltas: map<ObjectId, int>, sign: int): map<ObjectId, Package> {
    map p | p in packages ::
      if p in deltas && !packages[p].deleted
      then packages[p].(userCount := packages[p].userCount + sign * deltas[p])
      else packages[p]
  }

  // --- what the operations do ---

  // counted: whether the old counts could be read; if not the packages left behind keep theirs.
  function AfterAssign(db: Records, pid: ObjectId, ids: set<ObjectId>, counted: bool): Records {
    if !Live(db, pid) then db
    else
      var moved := Moved(db.users, ids, pid);
      var left := if counted then CountByOldPackage(db.users, ids, pid) else map[];
      Records(BulkSet(db.users, moved, Some(pid)), IncrAll(Incr(db.packages, pid, |moved|), left, -1))
  }

  function AfterRemove(db: Records, pid: ObjectId, ids: set<ObjectId>): Records {
    if !Live(db, pid) then db
    else
      var gone := Gone(db.users, pid, ids);
      Records(BulkSet(db.users, gone, None), Incr(db.packages, pid, -|gone|))
  }

  lemma JoinedMembers(users: map<ObjectId, User>, ids: set<ObjectId>, pid: ObjectId)
    ensures
      var moved := Moved(users, ids, pid);
      |Members(BulkSet(users, moved, Some(pid)), pid)| == |Members(users, pid)| + |moved|
  {
    var moved := Moved(users, ids, pid);
    var after := BulkSet(users, moved, Some(pid));
    forall u ensures u in Members(after, pid) <==> u in Members(users, pid) || u in moved {
    }
    assert Members(after, pid) == Members(users, pid) + moved;
  }

  lemma LeftMembers(users: map<ObjectId, User>, ids: set<ObjectId>, pid: ObjectId, q: ObjectId)
    requires q != pid
    ensures
      var moved := Moved(users, ids, pid);
      |Members(BulkSet(users, moved, Some(pid)), q)| == |Members(users, q)| - |From(users, moved, q)|
  {
    var moved := Moved(users, ids, pid);
    var after, left := BulkSet(users, moved, Some(pid)), From(users, moved, q);
    forall u ensures u in Members(after, q) <==> u in Members(users, q) && u !in left {
    }
    assert Members(after, q) == Members(users, q) - left && left <= Members(users, q);
  }

  lemma AssignMembers(users: map<ObjectId, User>, ids: set<ObjectId>, pid: ObjectId, q: ObjectId)
    ensures
      var moved := Moved(users, ids, pid);
      |Members(BulkSet(users, moved, Some(pid)), q)| ==
        |Members(users, q)| + if q == pid then |moved| else -|From(users, moved, q)|
  {
    if q == pid {
      JoinedMembers(users, ids, pid);
    } else {
      LeftMembers(users, ids, pid, q);
    }
  }

  lemma RemoveMembers(users: map<ObjectId, User>, ids: set<ObjectId>, pid: ObjectId, q: ObjectId)
    ensures
      var gone := Gone(users, pid, ids);
      |Members(BulkSet(users, gone, None), q)| == |Members(users, q)| - if q == pid then |gone| else 0
  {
    var gone := Gone(users, pid, ids);
    var after := Members(BulkSet(users, gone, None), q);
    if q == pid {
      assert after == Members(users, pid) - gone && gone <= Members(users, pid);
    } else {
      assert after == Members(users, q);
    }
  }

  /**
   Assigning users keeps every live package's count right exactly when the old counts could be read or nobody was
   taken from a live package.
   */
  lemma AssignKeepsCounts(db: Records, pid: ObjectId, ids: set<ObjectId>, counted: bool)
    requires CountsRight(db) && Live(db, pid)
    ensures CountsRight(AfterAssign(db, pid, ids, counted))
       <==> counted || forall q :: q in Sources(db.users, Moved(db.users, ids, pid)) ==> !Live(db, q)
  {
    var moved, after := Moved(db.users, ids, pid), AfterAssign(db, pid, ids, counted);
    forall q | Live(db, q)
      ensures after.packages[q].userCount == |Members(after.users, q)|
         <==> counted || q !in Sources(db.users, moved)
    {
      AssignMembers(db.users, ids, pid, q);
      if q in Sources(db.users, moved) {
        var u :| u in moved && u in db.users && db.users[u].package == Some(q);
        assert u in From(db.users, moved, q);
      } else {
        assert From(db.users, moved, q) == {};
      }
    }
    forall q ensures Live(after, q) <==> Live(db, q) {
    }
    if CountsRight(after) && !counted {
      forall q | q in Sources(db.users, moved) ensures !Live(db, q) {
        assert Live(db, q) ==> q in after.packages;
      }
    }
  }

  lemma RemoveKeepsCounts(db: Records, pid: ObjectId, ids: set<ObjectId>)
    requires CountsRight(db)
    ensures CountsRight(AfterRemove(db, pid, ids))
  {
    if Live(db, pid) {
      var after := AfterRemove(db, pid, ids);
      forall q | Live(after, q) ensures after.packages[q].userCount == |Members(after.users, q)| {
        RemoveMembers(db.users, ids, pid, q);
      }
    }
  }

  datatype Operation = Assign(pid: ObjectId, ids: set<ObjectId>) | Remove(pid: ObjectId, ids: set<ObjectId>)

  function AfterAll(db: Records, ops: seq<Operation>): Records {
    if ops == [] then db
    else
      var before := AfterAll(db, ops[..|ops| - 1]);
      match ops[|ops| - 1]
      case Assign(pid, ids) => AfterAssign(before, pid, ids, true)
      case Remove(pid, ids) => AfterRemove(before, pid, ids)
  }

  /** Over any run of operations whose queries succeed the counts stay right. */
  lemma {:induction false} EveryRunKeepsCounts(db: Records, ops: seq<Operation>)
    requires CountsRight(db)
    ensures CountsRight(AfterAll(db, ops))
  {
    if ops != [] {
      EveryRunKeepsCounts(db, ops[..|ops| - 1]);
      var before := AfterAll(db, ops[..|ops| - 1]);
      match ops[|ops| - 1]
      case Assign(pid, ids) =>
        if Live(before, pid) {
          AssignKeepsCounts(before, pid, ids, true);
        }
      case Remove(pid, ids) => RemoveKeepsCounts(before, pid, ids);
    }
  }

  // --- whom the operations move ---

  // Some raw id is the text of this user's id.
  ghost predicate Named(raw: seq<string>, u: ObjectId) {
    exists i {:trigger raw[i]} :: 0 <= i < |raw| && ParseObjectId(raw[i]) == Some(u)
  }

  ghost predicate NamedInside(users: map<ObjectId, User>, u: ObjectId, pid: ObjectId, raw: seq<string>) {
    u in users && !users[u].deleted && users[u].package == Some(pid) && Named(raw, u)
  }

  ghost predicate NamedOutside(users: map<ObjectId, User>, u: ObjectId, pid: ObjectId, raw: seq<string>) {
    u in users && !users[u].deleted && users[u].package != Some(pid) && Named(raw, u)
  }

  /**
   A removal: the named live members have no package any more, everybody else is as before, n of them were members,
   and the package alone counts n fewer.
   */
  ghost predicate Removal(db: Records, after: Records, pid: ObjectId, raw: seq<string>, n: int) {
    after.users.Keys == db.users.Keys && after.packages.Keys == db.packages.Keys &&
    (forall u {:trigger after.users[u]} :: u in db.users ==>
      after.users[u] == if NamedInside(db.users, u, pid, raw) then db.users[u].(package := None) else db.users[u]) &&
    n == |set u | u in db.users && NamedInside(db.users, u, pid, raw)| &&
    forall q {:trigger after.packages[q]} :: q in db.packages ==> after.packages[q] == Fewer(db.packages[q], q, pid, n)
  }

  function Fewer(p: Package, q: ObjectId, pid: ObjectId, n: int): Package {
    if q == pid then p.(userCount := p.userCount - n) else p
  }

  /**
   An assignment: the named live users outside the package are in it, everybody else is as before, n of them came, the
   package counts n more, and if the old counts were read every live package they left counts fewer by those.
   */
  ghost predicate Assignment(db: Records, after: Records, pid: ObjectId, raw: seq<string>, counted: bool, n: int) {
    after.users.Keys == db.users.Keys && after.packages.Keys == db.packages.Keys &&
    (forall u {:trigger after.users[u]} :: u in db.users ==>
      after.users[u] ==
      if NamedOutside(db.users, u, pid, raw) then db.users[u].(package := Some(pid)) else db.users[u]) &&
    n == |set u | u in db.users && NamedOutside(db.users, u, pid, raw)| &&
    forall q {:trigger after.packages[q]} :: q in db.packages ==>
      after.packages[q] == db.packages[q].(userCount := db.packages[q].userCount + Change(db, q, pid, raw, counted))
  }

  // By how much an assignment changes a package's count.
  ghost function Change(db: Records, q: ObjectId, pid: ObjectId, raw: seq<string>, counted: bool): int {
    if q == pid then |set u | u in db.users && NamedOutside(db.users, u, pid, raw)|
    else if counted && Live(db, q)
    then -|set u | u in db.users && NamedOutside(db.users, u, pid, raw) && db.users[u].package == Some(q)|
    else 0
  }

  lemma ParsedIsNamed(raw: seq<string>)
    ensures forall u {:trigger u in Parsed(raw)} :: u in Parsed(raw) <==> Named(raw, u)
  {
  }

  lemma GoneIsNamed(users: map<ObjectId, User>, pid: ObjectId, raw: seq<string>)
    ensures Gone(users, pid, Parsed(raw)) == set u | u in users && NamedInside(users, u, pid, raw)
  {
    ParsedIsNamed(raw);
  }

  lemma MovedIsNamed(users: map<ObjectId, User>, pid: ObjectId, raw: seq<string>)
    ensures Moved(users, Parsed(raw), pid) == set u | u in users && NamedOutside(users, u, pid, raw)
  {
    ParsedIsNamed(raw);
  }

  lemma FewerInOne(packages: map<ObjectId, Package>, pid: ObjectId, n: int)
    requires pid in packages && !packages[pid].deleted
    ensures
      var after := Incr(packages, pid, -n);
      after.Keys == packages.Keys &&
      forall q {:trigger after[q]} :: q in packages ==> after[q] == Fewer(packages[q], q, pid, n)
  {
  }

  lemma RemoveRemoves(db: Records, pid: ObjectId, raw: seq<string>)
    requires Live(db, pid)
    ensures Removal(db, AfterRemove(db, pid, Parsed(raw)), pid, raw, |Gone(db.users, pid, Parsed(raw))|)
  {
    GoneIsNamed(db.users, pid, raw);
    var gone := Gone(db.users, pid, Parsed(raw));
    assert forall u | u in db.users :: u in gone <==> NamedInside(db.users, u, pid, raw);
    FewerInOne(db.packages, pid, |gone|);
  }

  lemma SameRecords(a: Records, b: Records)
    requires a.users.Keys == b.users.Keys && a.packages.Keys == b.packages.Keys
    requires forall u :: u in a.users ==> a.users[u] == b.users[u]
    requires forall q :: q in a.packages ==> a.packages[q] == b.packages[q]
    ensures a == b
  {
    assert a.users == b.users && a.packages == b.packages;
  }

  lemma OneRemoval(db: Records, a: Records, b: Records, pid: ObjectId, raw: seq<string>, n: int, m: int)
    requires Removal(db, a, pid, raw, n) && Removal(db, b, pid, raw, m)
    ensures a == b && n == m
  {
    SameRecords(a, b);
  }

  /** Whatever ids are handed in, exactly the named live members leave. */
  lemma RemovesTheNamed(db: Records, pid: ObjectId, raw: seq<string>, after: Records, n: int)
    requires Live(db, pid)
    ensures Removal(db, after, pid, raw, n)
       <==> after == AfterRemove(db, pid, Parsed(raw)) && n == |Gone(db.users, pid, Parsed(raw))|
  {
    var outcome, m := AfterRemove(db, pid, Parsed(raw)), |Gone(db.users, pid, Parsed(raw))|;
    RemoveRemoves(db, pid, raw);
    if Removal(db, after, pid, raw, n) {
      OneRemoval(db, after, outcome, pid, raw, n, m);
    }
  }

  lemma SourcesExactly(users: map<ObjectId, User>, moved: set<ObjectId>, q: ObjectId)
    ensures q in Sources(users, moved) <==> From(users, moved, q) != {}
  {
    if q in Sources(users, moved) {
      var u :| u in moved && u in users && users[u].package == Some(q);
      assert u in From(users, moved, q);
    }
    if From(users, moved, q) != {} {
      var u :| u in From(users, moved, q);
    }
  }

  lemma LeftBehind(db: Records, pid: ObjectId, raw: seq<string>, counted: bool, q: ObjectId)
    requires Live(db, pid) && q in db.packages
    ensures AfterAssign(db, pid, Parsed(raw), counted).packages[q]
         == db.packages[q].(userCount := db.packages[q].userCount + Change(db, q, pid, raw, counted))
  {
    MovedIsNamed(db.users, pid, raw);
    var moved := Moved(db.users, Parsed(raw), pid);
    var from := set u | u in db.users && NamedOutside(db.users, u, pid, raw) && db.users[u].package == Some(q);
    assert From(db.users, moved, q) == from;
    SourcesExactly(db.users, moved, q);
  }

  lemma AssignAssigns(db: Records, pid: ObjectId, raw: seq<string>, counted: bool)
    requires Live(db, pid)
    ensures Assignment(db, AfterAssign(db, pid, Parsed(raw), counted), pid, raw, counted,
                       |Moved(db.users, Parsed(raw), pid)|)
  {
    MovedIsNamed(db.users, pid, raw);
    var moved := Moved(db.users, Parsed(raw), pid);
    assert forall u | u in db.users :: u in moved <==> NamedOutside(db.users, u, pid, raw);
    forall q | q in db.packages
      ensures AfterAssign(db, pid, Parsed(raw), counted).packages[q]
           == db.packages[q].(userCount := db.packages[q].userCount + Change(db, q, pid, raw, counted))
    {
      LeftBehind(db, pid, raw, counted, q);
    }
  }

  lemma OneAssignment(db: Records, a: Records, b: Records, pid: ObjectId, raw: seq<string>, counted: bool,
                      n: int, m: int)
    requires Assignment(db, a, pid, raw, counted, n) && Assignment(db, b, pid, raw, counted, m)
    ensures a == b && n == m
  {
    SameRecords(a, b);
  }

  /** Whatever ids are handed in, exactly the named live users outside the package join it. */
  lemma AssignsTheNamed(db: Records, pid: ObjectId, raw: seq<string>, counted: bool, after: Records, n: int)
    requires Live(db, pid)
    ensures Assignment(db, after, pid, raw, counted, n)
       <==> after == AfterAssign(db, pid, Parsed(raw), counted) && n == |Moved(db.users, Parsed(raw), pid)|
  {
    var outcome, m := AfterAssign(db, pid, Parsed(raw), counted), |Moved(db.users, Parsed(raw), pid)|;
    AssignAssigns(db, pid, raw, counted);
    if Assignment(db, after, pid, raw, counted, n) {
      OneAssignment(db, after, outcome, pid, raw, counted, n, m);
    }
  }

  /** The malformed ids are counted one by one. */
  lemma {:induction false} MalformedCounts(raw: seq<string>)
    ensures Malformed(raw) == |set i | 0 <= i < |raw| && ParseObjectId(raw[i]) == None|
  {
    if raw != [] {
      var n := |raw| - 1;
      MalformedCounts(raw[..n]);
      var before := set i | 0 <= i < n && ParseObjectId(raw[..n][i]) == None;
      var all := set i | 0 <= i < |raw| && ParseObjectId(raw[i]) == None;
      assert all == before + if ParseObjectId(raw[n]) == None then {n} else {};
    }
  }

  // --- conservation ---

  ghost function Sum(counts: map<ObjectId, int>): int {
    if counts == map[] then 0
    else
      var k :| k in counts;
      counts[k] + Sum(counts - {k})
  }

  // The moved users that come from one of these packages.
  function FromAny(users: map<ObjectId, User>, moved: set<ObjectId>, sources: set<ObjectId>): set<ObjectId> {
    set u | u in moved && u in users && users[u].package.Some? && users[u].package.value in sources
  }

  lemma {:induction false} SumCounts(users: map<ObjectId, User>, moved: set<ObjectId>, counts: map<ObjectId, int>)
    requires forall q {:trigger counts[q]} :: q in counts ==> counts[q] == |From(users, moved, q)|
    ensures Sum(counts) == |FromAny(users, moved, counts.Keys)|
  {
    if counts == map[] {
      assert FromAny(users, moved, counts.Keys) == {};
    } else {
      var k :| k in counts && Sum(counts) == counts[k] + Sum(counts - {k});
      SumCounts(users, moved, counts - {k});
      var rest := FromAny(users, moved, (counts - {k}).Keys);
      assert FromAny(users, moved, counts.Keys) == rest + From(users, moved, k) && rest !! From(users, moved, k);
    }
  }

  function Unassigned(users: map<ObjectId, User>, moved: set<ObjectId>): set<ObjectId> {
    set u | u in moved && u in users && users[u].package == None
  }

  /** What the old packages lose, together with the users that had none, is what the new package gains. */
  lemma DecrementsBalance(users: map<ObjectId, User>, ids: set<ObjectId>, pid: ObjectId)
    ensures
      var moved := Moved(users, ids, pid);
      Sum(CountByOldPackage(users, ids, pid)) + |Unassigned(users, moved)| == |moved|
  {
    var moved := Moved(users, ids, pid);
    var counts := CountByOldPackage(users, ids, pid);
    var unassigned := Unassigned(users, moved);
    SumCounts(users, moved, counts);
    var rest := FromAny(users, moved, counts.Keys);
    forall u | u in moved ensures u in rest + unassigned {
      if users[u].package.Some? {
        assert users[u].package.value in Sources(users, moved);
      }
    }
    assert moved == rest + unassigned && rest !! unassigned;
  }

  // --- the code ---

  // The well-formed ids, and how many raw ids are malformed; a repeated id counts once and is not malformed.
  function Parsed(raw: seq<string>): set<ObjectId> {
    set i | 0 <= i < |raw| && ParseObjectId(raw[i]).Some? :: ParseObjectId(raw[i]).value
  }

  function Malformed(raw: seq<string>): nat {
    if raw == [] then 0
    else Malformed(raw[..|raw| - 1]) + if ParseObjectId(raw[|raw| - 1]) == None then 1 else 0
  }

  function Elements(ids: seq<ObjectId>): set<ObjectId> {
    set id | id in ids
  }

  method ParseIds(raw: seq<string>) returns (ids: seq<ObjectId>, skipped: nat)
    ensures Elements(ids) == Parsed(raw) && skipped == Malformed(raw)
    ensures forall i, j :: 0 <= i < j < |ids| ==> ids[i] != ids[j]
  {
    var seen: set<ObjectId> := {};
    ids, skipped := [], 0;
    for i := 0 to |raw|
      invariant seen == Elements(ids) == Parsed(raw[..i]) && skipped == Malformed(raw[..i])
      invariant forall a, b :: 0 <= a < b < |ids| ==> ids[a] != ids[b]
    {
      assert raw[..i + 1][..i] == raw[..i];
      var id := ParseObjectId(raw[i]);
      ParsedMore(raw, i);
      if id == None {
        skipped := skipped + 1;
        continue;
      }
      if id.value in seen {
        continue;
      }
      seen := seen + {id.value};
      ids := ids + [id.value];
    }
    assert raw[..|raw|] == raw;
  }

  lemma ParsedMore(raw: seq<string>, n: nat)
    requires n < |raw|
    ensures Parsed(raw[..n + 1])
         == Parsed(raw[..n]) + if ParseObjectId(raw[n]).Some? then {ParseObjectId(raw[n]).value} else {}
  {
    var a, b := raw[..n], raw[..n + 1];
    forall id ensures id in Parsed(b) <==> id in Parsed(a) || ParseObjectId(raw[n]) == Some(id) {
      if id in Parsed(b) {
        var i :| 0 <= i < |b| && ParseObjectId(b[i]) == Some(id);
        assert i < n ==> a[i] == b[i];
      }
      if id in Parsed(a) {
        var i :| 0 <= i < |a| && ParseObjectId(a[i]) == Some(id);
        assert a[i] == b[i];
      }
      assert b[n] == raw[n];
    }
  }

  class Database {
    var users: map<ObjectId, User>
    var packages: map<ObjectId, Package>

    ghost function View(): Records
      reads this
    {
      Records(users, packages)
    }

    constructor (users: map<ObjectId, User>, packages: map<ObjectId, Package>)
      ensures this.users == users && this.packages == packages
    {
      this.users, this.packages := users, packages;
    }

    method IncrUserCount(pid: ObjectId, delta: int)
      modifies `packages
      ensures packages == Incr(old(packages), pid, delta)
    {
      if pid in packages && !packages[pid].deleted {
        packages := packages[pid := packages[pid].(userCount := packages[pid].userCount + delta)];
      }
    }

    method DecrementAll(counts: map<ObjectId, int>)
      modifies `packages
      ensures packages == IncrAll(old(packages), counts, -1)
    {
      var todo := counts.Keys;
      while todo != {}
        invariant todo <= counts.Keys
        invariant packages == IncrAll(old(packages), counts - todo, -1)
        decreases todo
      {
        var q :| q in todo;
        IncrUserCount(q, -counts[q]);
        todo := todo - {q};
      }
    }

    /**
     Moves the users to the package. The ids that do not parse are skipped, those that name no live user outside
     the package do nothing, and a package that does not exist or is deleted changes nothing.
     */
    method AssignUsers(pid: ObjectId, raw: seq<string>, counted: bool) returns (r: Option<(nat, nat)>)
      modifies this
      ensures r.Some? <==> Live(old(View()), pid)
      ensures View() == AfterAssign(old(View()), pid, Parsed(raw), counted)
      ensures r.Some? ==> r.value == (|Moved(old(users), Parsed(raw), pid)|, Malformed(raw))
      ensures r.Some? ==> Assignment(old(View()), View(), pid, raw, counted, r.value.0)
      ensures r == None ==> View() == old(View())
    {
      if !(pid in packages && !packages[pid].deleted) {
        return None;
      }
      ghost var before := View();
      var ids, skipped := ParseIds(raw);
      var n := 0;
      if ids == [] {
        NobodyMoved(View(), pid, counted);
      } else {
        n := Move(pid, Elements(ids), counted);
      }
      AssignsTheNamed(before, pid, raw, counted, View(), n);
      return Some((n, skipped));
    }

    // Moves the live users among these, and counts them.
    method Move(pid: ObjectId, named: set<ObjectId>, counted: bool) returns (n: nat)
      requires Live(View(), pid)
      modifies this
      ensures View() == AfterAssign(old(View()), pid, named, counted) && n == |Moved(old(users), named, pid)|
    {
      var moved := Moved(users, named, pid);
      var left := if counted then CountByOldPackage(users, named, pid) else map[];
      users := BulkSet(users, moved, Some(pid));
      if |moved| > 0 {
        IncrUserCount(pid, |moved|);
        DecrementAll(left);
      } else {
        NobodyLeft(old(View()), pid, named, counted);
      }
      return |moved|;
    }

    method RemoveUsers(pid: ObjectId, raw: seq<string>) returns (r: Option<(nat, nat)>)
      modifies this
      ensures r.Some? <==> Live(old(View()), pid)
      ensures View() == AfterRemove(old(View()), pid, Parsed(raw))
      ensures r.Some? ==> r.value == (|Gone(old(users), pid, Parsed(raw))|, Malformed(raw))
      ensures r.Some? ==> Removal(old(View()), View(), pid, raw, r.value.0)
      ensures r == None ==> View() == old(View())
    {
      if !(pid in packages && !packages[pid].deleted) {
        return None;
      }
      ghost var before := View();
      var ids, skipped := ParseIds(raw);
      var n := 0;
      if ids == [] {
        NobodyGone(View(), pid, {});
      } else {
        n := Unset(pid, Elements(ids));
      }
      RemovesTheNamed(before, pid, raw, View(), n);
      return Some((n, skipped));
    }

    // Takes the members among these out, and counts them off.
    method Unset(pid: ObjectId, named: set<ObjectId>) returns (n: nat)
      requires Live(View(), pid)
      modifies this
      ensures View() == AfterRemove(old(View()), pid, named) && n == |Gone(old(users), pid, named)|
    {
      var gone := Gone(users, pid, named);
      users := BulkSet(users, gone, None);
      if |gone| > 0 {
        IncrUserCount(pid, -|gone|);
      } else {
        NobodyGone(old(View()), pid, named);
      }
      return |gone|;
    }
  }

  // With nobody to move nothing is counted either.
  lemma NobodyLeft(db: Records, pid: ObjectId, ids: set<ObjectId>, counted: bool)
    requires Live(db, pid) && Moved(db.users, ids, pid) == {}
    ensures AfterAssign(db, pid, ids, counted) == db.(users := BulkSet(db.users, {}, Some(pid)))
  {
    assert Sources(db.users, {}) == {};
  }

  lemma NobodyMoved(db: Records, pid: ObjectId, counted: bool)
    requires Live(db, pid)
    ensures AfterAssign(db, pid, {}, counted) == db
  {
    assert Moved(db.users, {}, pid) == {};
    NobodyLeft(db, pid, {}, counted);
    assert BulkSet(db.users, {}, Some(pid)) == db.users;
  }

  lemma NobodyGone(db: Records, pid: ObjectId, ids: set<ObjectId>)
    requires Live(db, pid) && Gone(db.users, pid, ids) == {}
    ensures AfterRemove(db, pid, ids) == db
  {
    assert BulkSet(db.users, {}, None) == db.users;
    assert Incr(db.packages, pid, 0) == db.packages;
  }
}
