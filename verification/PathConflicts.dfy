/**
 The control plane's check that a service's resource paths do not collide, against what the gateway's route
 index does with them.
 */
module PathConflicts {
  import opened GoStrings
  import opened RouteTable

  // --- the code ---

  predicate ValidWildcard(path: string) {
    '*' !in path || HasSuffix(path, "/*")
  }

  function NormSegment(seg: string): string {
    if IsPathParam(seg) then "{*}" else seg
  }

  function NormSegments(segs: seq<string>): (r: seq<string>)
    ensures |r| == |segs|
  {
    if segs == [] then [] else [NormSegment(segs[0])] + NormSegments(segs[1..])
  }

  function Norm(path: string): string {
    Join(NormSegments(Split(path, '/')), '/')
  }

  method NormalizePath(path: string) returns (norm: string)
    ensures norm == Norm(path)
  {
    var split := Split(path, '/');
    var segments := new string[|split|](i requires 0 <= i < |split| => split[i]);
    for i := 0 to segments.Length
      invariant forall k :: 0 <= k < i ==> segments[k] == NormSegment(split[k])
      invariant forall k :: i <= k < |split| ==> segments[k] == split[k]
    {
      if HasPrefix(segments[i], "{") && HasSuffix(segments[i], "}") {
        segments[i] := "{*}";
      }
    }
    NormSegmentsAt(split);
    assert segments[..] == NormSegments(split);
    return Join(segments[..], '/');
  }

  lemma {:induction false} NormSegmentsAt(segs: seq<string>)
    ensures forall k :: 0 <= k < |segs| ==> NormSegments(segs)[k] == NormSegment(segs[k])
  {
    if segs != [] {
      NormSegmentsAt(segs[1..]);
    }
  }

  // The paths with one normal form, in order.
  function GroupOf(paths: seq<string>, norm: string): seq<string> {
    if paths == [] then []
    else
      var last := paths[|paths| - 1];
      GroupOf(paths[..|paths| - 1], norm) + if Norm(last) == norm then [last] else []
  }

  // The normal forms in order of first appearance.
  function Order(paths: seq<string>): seq<string> {
    if paths == [] then []
    else
      var before, last := paths[..|paths| - 1], paths[|paths| - 1];
      Order(before) + if GroupOf(before, Norm(last)) == [] then [Norm(last)] else []
  }

  function Crowded(paths: seq<string>, order: seq<string>): seq<seq<string>> {
    if order == [] then []
    else
      var group := GroupOf(paths, order[|order| - 1]);
      Crowded(paths, order[..|order| - 1]) + if |group| > 1 then [group] else []
  }

  function Reported(paths: seq<string>): seq<seq<string>> {
    Crowded(paths, Order(paths))
  }

  function Stored(groups: map<string, seq<string>>, norm: string): seq<string> {
    if norm in groups then groups[norm] else []
  }

  ghost predicate Grouped(groups: map<string, seq<string>>, groupOf: string -> seq<string>) {
    (forall n {:trigger Stored(groups, n)} :: Stored(groups, n) == groupOf(n)) &&
    (forall n {:trigger n in groups} :: n in groups ==> groups[n] != [])
  }

  function GroupsOf(paths: seq<string>): string -> seq<string> {
    n => GroupOf(paths, n)
  }

  lemma GroupSnoc(paths: seq<string>, p: string, n: string)
    ensures GroupOf(paths + [p], n) == GroupOf(paths, n) + if Norm(p) == n then [p] else []
  {
    assert (paths + [p])[..|paths|] == paths;
  }

  lemma StoreOneMore(groups: map<string, seq<string>>, was: string -> seq<string>, now: string -> seq<string>,
                     p: string, norm: string)
    requires Grouped(groups, was) && forall n {:trigger now(n)} :: now(n) == was(n) + if norm == n then [p] else []
    ensures norm in groups <==> was(norm) != []
    ensures Grouped(groups[norm := Stored(groups, norm) + [p]], now)
  {
    var next := groups[norm := Stored(groups, norm) + [p]];
    assert Stored(groups, norm) == was(norm);
    forall n ensures Stored(next, n) == now(n) {
      assert Stored(groups, n) == was(n);
    }
  }

  lemma GroupOneMore(groups: map<string, seq<string>>, paths: seq<string>, p: string)
    requires Grouped(groups, GroupsOf(paths))
    ensures Order(paths + [p]) == Order(paths) + if Norm(p) in groups then [] else [Norm(p)]
    ensures Grouped(groups[Norm(p) := Stored(groups, Norm(p)) + [p]], GroupsOf(paths + [p]))
  {
    forall n ensures GroupsOf(paths + [p])(n) == GroupsOf(paths)(n) + if Norm(p) == n then [p] else [] {
      GroupSnoc(paths, p, n);
    }
    StoreOneMore(groups, GroupsOf(paths), GroupsOf(paths + [p]), p, Norm(p));
    assert (paths + [p])[..|paths|] == paths;
  }

  lemma CrowdedOneMore(paths: seq<string>, order: seq<string>, i: nat)
    requires i < |order|
    ensures
      var group := GroupsOf(paths)(order[i]);
      Crowded(paths, order[..i + 1]) == Crowded(paths, order[..i]) + if |group| > 1 then [group] else []
  {
    assert order[..i + 1][..i] == order[..i];
  }

  method CheckInternalPathConflicts(paths: seq<string>) returns (conflicts: seq<seq<string>>)
    ensures conflicts == Reported(paths)
  {
    var groups: map<string, seq<string>> := map[];
    var order: seq<string> := [];
    for i := 0 to |paths|
      invariant order == Order(paths[..i]) && Grouped(groups, GroupsOf(paths[..i]))
    {
      assert paths[..i + 1] == paths[..i] + [paths[i]];
      var norm := NormalizePath(paths[i]);
      GroupOneMore(groups, paths[..i], paths[i]);
      if norm !in groups {
        order := order + [norm];
      }
      groups := groups[norm := Stored(groups, norm) + [paths[i]]];
    }
    assert paths[..|paths|] == paths;
    conflicts := [];
    for i := 0 to |order|
      invariant conflicts == Crowded(paths, order[..i])
    {
      CrowdedOneMore(paths, order, i);
      if |Stored(groups, order[i])| > 1 {
        conflicts := conflicts + [Stored(groups, order[i])];
      }
    }
    assert order[..|order|] == order;
  }

  // --- where a path goes in the route index ---

  // What of its segments decides a path's slot.
  function Tokens(segs: seq<string>): seq<Token> {
    if segs == [] || segs[0] == "*" then []
    else if segs[0] == "" then Tokens(segs[1..])
    else [TokenOf(segs[0])] + Tokens(segs[1..])
  }

  predicate Starred(segs: seq<string>) {
    segs != [] && (segs[0] == "*" || Starred(segs[1..]))
  }

  lemma {:induction false} SlotOfTokens(at: Path, segs: seq<string>)
    ensures SlotOf(at, segs) == Slot(Walk(at, Tokens(segs)), Starred(segs))
    decreases |segs|
  {
    if segs != [] && segs[0] != "*" {
      if segs[0] == "" {
        SlotOfTokens(at, segs[1..]);
      } else {
        SlotOfTokens(Step(at, TokenOf(segs[0])), segs[1..]);
        var t := Tokens(segs);
        assert t[1..] == Tokens(segs[1..]);
      }
    }
  }

  lemma {:induction false} TokensConcat(a: seq<string>, b: seq<string>)
    ensures Tokens(a + b) == if Starred(a) then Tokens(a) else Tokens(a) + Tokens(b)
    ensures Starred(a + b) <==> Starred(a) || Starred(b)
  {
    if a == [] {
      assert a + b == b;
    } else {
      TokensConcat(a[1..], b);
      assert (a + b)[0] == a[0] && (a + b)[1..] == a[1..] + b;
    }
  }

  // --- trimming and joining make no difference to the slot ---

  lemma SplitConcat(a: string, b: string)
    ensures Split(a + "/" + b, '/') == Split(a, '/') + Split(b, '/')
  {
    JoinOfSplit(a, '/');
    JoinOfSplit(b, '/');
    JoinConcat(Split(a, '/'), Split(b, '/'), '/');
    SplitOfJoin(Split(a, '/') + Split(b, '/'), '/');
  }

  ghost predicate SameKey(a: seq<string>, b: seq<string>) {
    Tokens(a) == Tokens(b) && (Starred(a) <==> Starred(b))
  }

  lemma {:induction false} TrimLeftKey(s: string)
    ensures SameKey(Split(TrimLeft(s, '/'), '/'), Split(s, '/'))
  {
    if s != "" && s[0] == '/' {
      TrimLeftKey(s[1..]);
      var rest := Split(s[1..], '/');
      assert ([""] + rest)[1..] == rest;
    }
  }

  lemma {:induction false} TrimRightKey(s: string)
    ensures SameKey(Split(TrimRight(s, '/'), '/'), Split(s, '/'))
  {
    if s != "" && s[|s| - 1] == '/' {
      var before := s[..|s| - 1];
      TrimRightKey(before);
      SplitConcat(before, "");
      assert s == before + "/" + "";
      TokensConcat(Split(before, '/'), [""]);
    }
  }

  // A resource goes where its base path's segments and its own lead, however many slashes lie between.
  lemma SegmentsKey(basePath: string, path: string)
    ensures SameKey(Segments(basePath, path), Split(basePath, '/') + Split(path, '/'))
  {
    var b, p := TrimRight(basePath, '/'), TrimLeft(path, '/');
    var full := b + "/" + p;
    TrimRightKey(full);
    TrimLeftKey(TrimRight(full, '/'));
    SplitConcat(b, p);
    TrimRightKey(basePath);
    TrimLeftKey(path);
    TokensConcat(Split(b, '/'), Split(p, '/'));
    TokensConcat(Split(basePath, '/'), Split(path, '/'));
  }

  function SlotFor(basePath: string, path: string): Slot {
    SlotOf(Root, Segments(basePath, path))
  }

  predicate StarredBase(basePath: string) {
    Starred(Split(basePath, '/'))
  }

  /** Two resources share a slot exactly when the base path swallows them or their own segments lead to one place. */
  lemma SameSlot(basePath: string, p: string, q: string)
    ensures SlotFor(basePath, p) == SlotFor(basePath, q)
       <==> StarredBase(basePath) || SameKey(Split(p, '/'), Split(q, '/'))
  {
    var b, ps, qs := Split(basePath, '/'), Split(p, '/'), Split(q, '/');
    SegmentsKey(basePath, p);
    SegmentsKey(basePath, q);
    TokensConcat(b, ps);
    TokensConcat(b, qs);
    SlotOfTokens(Root, Segments(basePath, p));
    SlotOfTokens(Root, Segments(basePath, q));
    if SlotFor(basePath, p) == SlotFor(basePath, q) {
      WalkInjective(Root, Tokens(b + ps), Tokens(b + qs));
      if !Starred(b) {
        assert Tokens(ps) == Tokens(b + ps)[|Tokens(b)|..] && Tokens(qs) == Tokens(b + qs)[|Tokens(b)|..];
      }
    }
  }

  // --- the normal form ---

  lemma {:induction false} NormSlashFree(segs: seq<string>)
    requires forall s :: s in segs ==> '/' !in s
    ensures forall s :: s in NormSegments(segs) ==> '/' !in s
  {
    if segs != [] {
      NormSlashFree(segs[1..]);
      assert segs[0] in segs;
    }
  }

  lemma NormEqual(p: string, q: string)
    ensures Norm(p) == Norm(q) <==> NormSegments(Split(p, '/')) == NormSegments(Split(q, '/'))
  {
    var ps, qs := Split(p, '/'), Split(q, '/');
    JoinOfSplit(p, '/');
    JoinOfSplit(q, '/');
    NormSlashFree(ps);
    NormSlashFree(qs);
    if Norm(p) == Norm(q) {
      JoinInjective(NormSegments(ps), NormSegments(qs), '/');
    }
  }

  lemma {:induction false} NormDecidesKey(a: seq<string>, b: seq<string>)
    requires NormSegments(a) == NormSegments(b)
    ensures SameKey(a, b)
  {
    assert |NormSegments(a)| == |a| && |NormSegments(b)| == |b|;
    if a != [] {
      assert NormSegments(a)[0] == NormSegment(a[0]) && NormSegments(b)[0] == NormSegment(b[0]);
      assert NormSegments(a)[1..] == NormSegments(a[1..]) && NormSegments(b)[1..] == NormSegments(b[1..]);
      NormDecidesKey(a[1..], b[1..]);
    }
  }

  // No empty segments and "*" only as the last.
  predicate CanonicalTail(segs: seq<string>) {
    segs == [] || (segs[0] != "" && (segs[0] == "*" ==> |segs| == 1) && CanonicalTail(segs[1..]))
  }

  predicate Canonical(path: string) {
    var segs := Split(path, '/');
    path == "/" || (|segs| > 1 && segs[0] == "" && CanonicalTail(segs[1..]))
  }

  lemma {:induction false} KeyDecidesNorm(a: seq<string>, b: seq<string>)
    requires CanonicalTail(a) && CanonicalTail(b) && SameKey(a, b)
    ensures NormSegments(a) == NormSegments(b)
  {
    if a != [] && b != [] && a[0] != "*" && b[0] != "*" {
      assert Tokens(a)[0] == TokenOf(a[0]) && Tokens(b)[0] == TokenOf(b[0]);
      assert Tokens(a)[1..] == Tokens(a[1..]) && Tokens(b)[1..] == Tokens(b[1..]);
      KeyDecidesNorm(a[1..], b[1..]);
    }
  }

  // --- the theorems ---

  /** Paths with one normal form share a slot whatever the base path; canonical paths share one only then. */
  lemma NormDecidesSlot(basePath: string, p: string, q: string)
    ensures Norm(p) == Norm(q) ==> SlotFor(basePath, p) == SlotFor(basePath, q)
    ensures Canonical(p) && Canonical(q) && !StarredBase(basePath) ==>
              (SlotFor(basePath, p) == SlotFor(basePath, q) <==> Norm(p) == Norm(q))
  {
    var ps, qs := Split(p, '/'), Split(q, '/');
    SameSlot(basePath, p, q);
    NormEqual(p, q);
    if Norm(p) == Norm(q) {
      NormDecidesKey(ps, qs);
    } else if Canonical(p) && Canonical(q) && p != "/" && q != "/" && SameKey(ps, qs) {
      KeyDecidesNorm(ps[1..], qs[1..]);
    } else if Canonical(p) && Canonical(q) {
      assert "/"[1..] == "" && Split("/", '/') == ["", ""];
      if p != "/" {
        NotRoot(p);
      } else if q != "/" {
        NotRoot(q);
      }
    }
  }

  lemma NotRoot(p: string)
    requires Canonical(p) && p != "/"
    ensures !SameKey(Split(p, '/'), ["", ""])
  {
    var tail := Split(p, '/')[1..];
    assert tail[0] != "" && Tokens(Split(p, '/')) == Tokens(tail) && Starred(Split(p, '/')) == Starred(tail);
    assert ["", ""][1..] == [""] && [""][1..] == [];
  }

  lemma {:induction false} GroupMembers(paths: seq<string>, norm: string)
    ensures forall p :: p in GroupOf(paths, norm) ==> Norm(p) == norm
    ensures forall p :: p in paths && Norm(p) == norm ==> p in GroupOf(paths, norm)
  {
    if paths != [] {
      var before := paths[..|paths| - 1];
      GroupMembers(before, norm);
      assert paths == before + [paths[|paths| - 1]];
    }
  }

  /** Every reported group maps to one shared slot. */
  lemma {:induction false} GroupsShareSlots(paths: seq<string>, order: seq<string>, basePath: string)
    ensures forall g, i, j {:trigger g[i], g[j]} :: g in Crowded(paths, order) && 0 <= i < |g| && 0 <= j < |g| ==>
              SlotFor(basePath, g[i]) == SlotFor(basePath, g[j])
  {
    if order != [] {
      var n := order[|order| - 1];
      GroupsShareSlots(paths, order[..|order| - 1], basePath);
      GroupMembers(paths, n);
      var group := GroupOf(paths, n);
      forall i, j | 0 <= i < |group| && 0 <= j < |group|
        ensures SlotFor(basePath, group[i]) == SlotFor(basePath, group[j])
      {
        NormDecidesSlot(basePath, group[i], group[j]);
      }
    }
  }

  ghost predicate DistinctNorms(paths: seq<string>) {
    forall i, j {:trigger paths[i], paths[j]} :: 0 <= i < j < |paths| ==> Norm(paths[i]) != Norm(paths[j])
  }

  lemma {:induction false} TwoInGroup(paths: seq<string>, i: nat, j: nat)
    requires i < j < |paths| && Norm(paths[i]) == Norm(paths[j])
    ensures |GroupOf(paths, Norm(paths[i]))| > 1
  {
    var before := paths[..|paths| - 1];
    if j == |paths| - 1 {
      assert before[i] in before;
      GroupMembers(before, Norm(paths[i]));
    } else {
      TwoInGroup(before, i, j);
    }
  }

  lemma {:induction false} OrderHasAll(paths: seq<string>, p: string)
    requires p in paths
    ensures Norm(p) in Order(paths)
  {
    var before, last := paths[..|paths| - 1], paths[|paths| - 1];
    assert paths == before + [last];
    if p in before {
      OrderHasAll(before, p);
    } else {
      GroupMembers(before, Norm(last));
      if GroupOf(before, Norm(last)) != [] {
        var q := GroupOf(before, Norm(last))[0];
        InGroupInPaths(before, Norm(last), q);
        OrderHasAll(before, q);
      }
    }
  }

  lemma {:induction false} InGroupInPaths(paths: seq<string>, norm: string, p: string)
    requires p in GroupOf(paths, norm)
    ensures p in paths && Norm(p) == norm
  {
    var before, last := paths[..|paths| - 1], paths[|paths| - 1];
    assert paths == before + [last];
    if p in GroupOf(before, norm) {
      InGroupInPaths(before, norm, p);
    }
  }

  lemma {:induction false} CrowdedHas(paths: seq<string>, order: seq<string>, norm: string)
    requires norm in order && |GroupOf(paths, norm)| > 1
    ensures GroupOf(paths, norm) in Crowded(paths, order)
  {
    var before, last := order[..|order| - 1], order[|order| - 1];
    assert order == before + [last];
    if norm in before {
      CrowdedHas(paths, before, norm);
    }
  }

  lemma {:induction false} DistinctGroups(paths: seq<string>, norm: string)
    requires DistinctNorms(paths)
    ensures |GroupOf(paths, norm)| <= 1
  {
    if paths != [] {
      var before, last := paths[..|paths| - 1], paths[|paths| - 1];
      DistinctGroups(before, norm);
      if Norm(last) == norm {
        forall k | 0 <= k < |before| ensures Norm(before[k]) != norm {
          assert Norm(paths[k]) != Norm(paths[|paths| - 1]);
        }
        EmptyGroup(before, norm);
      }
    }
  }

  lemma {:induction false} EmptyGroup(paths: seq<string>, norm: string)
    requires forall k :: 0 <= k < |paths| ==> Norm(paths[k]) != norm
    ensures GroupOf(paths, norm) == []
  {
    if paths != [] {
      EmptyGroup(paths[..|paths| - 1], norm);
    }
  }

  lemma {:induction false} NoneCrowded(paths: seq<string>, order: seq<string>)
    requires DistinctNorms(paths)
    ensures Crowded(paths, order) == []
  {
    if order != [] {
      NoneCrowded(paths, order[..|order| - 1]);
      DistinctGroups(paths, order[|order| - 1]);
    }
  }

  /** Nothing is reported exactly when no two paths have one normal form. */
  lemma NothingReported(paths: seq<string>)
    ensures Reported(paths) == [] <==> DistinctNorms(paths)
  {
    if DistinctNorms(paths) {
      NoneCrowded(paths, Order(paths));
    } else {
      var i, j :| 0 <= i < j < |paths| && Norm(paths[i]) == Norm(paths[j]);
      TwoInGroup(paths, i, j);
      OrderHasAll(paths, paths[i]);
      CrowdedHas(paths, Order(paths), Norm(paths[i]));
    }
  }

  // --- when the check errs ---

  // Without empty segments, and without what follows a star.
  function Reduced(segs: seq<string>): seq<string> {
    if segs == [] then []
    else if segs[0] == "*" then ["*"]
    else if segs[0] == "" then Reduced(segs[1..])
    else [segs[0]] + Reduced(segs[1..])
  }

  lemma {:induction false} ReducedKey(segs: seq<string>)
    ensures CanonicalTail(Reduced(segs)) && SameKey(Reduced(segs), segs)
  {
    if segs != [] {
      ReducedKey(segs[1..]);
      if segs[0] != "" && segs[0] != "*" {
        assert Reduced(segs)[1..] == Reduced(segs[1..]);
      } else if segs[0] == "*" {
        assert ["*"][1..] == [];
      }
    }
  }

  // The normal form of what is left of a path.
  function ReducedNorm(path: string): seq<string> {
    NormSegments(Reduced(Split(path, '/')))
  }

  // Two resources really collide.
  predicate Collide(basePath: string, p: string, q: string) {
    StarredBase(basePath) || ReducedNorm(p) == ReducedNorm(q)
  }

  /**
   Two resources of a service share a slot exactly when their paths have one normal form once empty segments and all
   after a star are removed, or when the base path has a star.
   */
  lemma CollideExactly(basePath: string, p: string, q: string)
    ensures SlotFor(basePath, p) == SlotFor(basePath, q) <==> Collide(basePath, p, q)
  {
    var ps, qs := Split(p, '/'), Split(q, '/');
    SameSlot(basePath, p, q);
    ReducedKey(ps);
    ReducedKey(qs);
    if SameKey(ps, qs) {
      KeyDecidesNorm(Reduced(ps), Reduced(qs));
    }
    if ReducedNorm(p) == ReducedNorm(q) {
      NormDecidesKey(Reduced(ps), Reduced(qs));
    }
  }

  ghost predicate SomeCollide(basePath: string, paths: seq<string>) {
    exists i, j {:trigger paths[i], paths[j]} :: 0 <= i < j < |paths| && Collide(basePath, paths[i], paths[j])
  }

  ghost predicate OwnSlots(basePath: string, paths: seq<string>) {
    forall i, j {:trigger paths[i], paths[j]} :: 0 <= i < j < |paths| ==>
      SlotFor(basePath, paths[i]) != SlotFor(basePath, paths[j])
  }

  /**
   Whatever the paths, the check reports something exactly when two resources share a slot, unless it reports nothing
   although two of them collide. It never reports too much.
   */
  lemma CheckErrsExactly(basePath: string, paths: seq<string>)
    ensures (Reported(paths) == [] <==> OwnSlots(basePath, paths)) <==>
            !(DistinctNorms(paths) && SomeCollide(basePath, paths))
    ensures OwnSlots(basePath, paths) ==> Reported(paths) == []
  {
    NothingReported(paths);
    forall i, j | 0 <= i < j < |paths|
      ensures SlotFor(basePath, paths[i]) == SlotFor(basePath, paths[j]) <==> Collide(basePath, paths[i], paths[j])
      ensures Norm(paths[i]) == Norm(paths[j]) ==>
                SlotFor(basePath, paths[i]) == SlotFor(basePath, paths[j])
    {
      CollideExactly(basePath, paths[i], paths[j]);
      NormDecidesSlot(basePath, paths[i], paths[j]);
    }
    CollisionsDecide(basePath, paths);
  }

  lemma CollisionsDecide(basePath: string, paths: seq<string>)
    requires forall i, j {:trigger paths[i], paths[j]} :: 0 <= i < j < |paths| ==>
      (SlotFor(basePath, paths[i]) == SlotFor(basePath, paths[j]) <==> Collide(basePath, paths[i], paths[j])) &&
      (Norm(paths[i]) == Norm(paths[j]) ==> SlotFor(basePath, paths[i]) == SlotFor(basePath, paths[j]))
    ensures OwnSlots(basePath, paths) <==> !SomeCollide(basePath, paths)
    ensures OwnSlots(basePath, paths) ==> DistinctNorms(paths)
  {
  }

  function PathsOf(resources: seq<Resource>): (paths: seq<string>)
    ensures |paths| == |resources| && forall i :: 0 <= i < |paths| ==> paths[i] == resources[i].path
  {
    seq(|resources|, i requires 0 <= i < |resources| => resources[i].path)
  }

  /**
   A service with canonical paths passes the check exactly when every resource has a slot of its own in the
   gateway's index, so that none of its routes overwrites another.
   */
  lemma CheckedServiceKeepsAllRoutes(svc: Service)
    requires !StarredBase(svc.basePath)
    requires forall i :: 0 <= i < |svc.resources| ==> Canonical(svc.resources[i].path)
    ensures Reported(PathsOf(svc.resources)) == []
       <==> forall i, j {:trigger svc.resources[i], svc.resources[j]} :: 0 <= i < j < |svc.resources| ==>
              SlotFor(svc.basePath, svc.resources[i].path) != SlotFor(svc.basePath, svc.resources[j].path)
  {
    var paths := PathsOf(svc.resources);
    NothingReported(paths);
    forall i, j | 0 <= i < j < |paths|
      ensures SlotFor(svc.basePath, paths[i]) == SlotFor(svc.basePath, paths[j]) <==> Norm(paths[i]) == Norm(paths[j])
    {
      NormDecidesSlot(svc.basePath, paths[i], paths[j]);
    }
  }

  // Distinct slots hold their own routes after loading.
  lemma {:induction false} DistinctSlotsSurvive(svc: Service, n: nat, i: nat)
    requires i < n <= |svc.resources|
    requires forall a, b {:trigger svc.resources[a], svc.resources[b]} :: 0 <= a < b < |svc.resources| ==>
               SlotFor(svc.basePath, svc.resources[a].path) != SlotFor(svc.basePath, svc.resources[b].path)
    ensures
      var slots, s := LoadSlots(map[], ServiceEntries(svc, n)), SlotFor(svc.basePath, svc.resources[i].path);
      s in slots && slots[s] == Route(svc, svc.resources[i])
  {
    var last := EntryOf(svc, svc.resources[n - 1]);
    LoadOne(map[], map[], ServiceEntries(svc, n - 1), last);
    if i < n - 1 {
      DistinctSlotsSurvive(svc, n - 1, i);
      assert SlotFor(svc.basePath, svc.resources[i].path) != SlotFor(svc.basePath, svc.resources[n - 1].path);
    }
  }

  lemma TwoPaths(p: string, q: string)
    requires NormSegments(Split(p, '/')) != NormSegments(Split(q, '/'))
    ensures Reported([p, q]) == []
  {
    NormEqual(p, q);
    NothingReported([p, q]);
  }

  // Two paths, of which one goes on where the other ends, have different normal forms.
  lemma LongerIsNotReported(p: string, more: string)
    ensures Reported([p, p + "/" + more]) == []
  {
    SplitConcat(p, more);
    TwoPaths(p, p + "/" + more);
  }

  // They share a slot when the rest decides nothing.
  lemma RestDecidesNothing(basePath: string, p: string, more: string)
    requires Starred(Split(p, '/')) || more == ""
    ensures SlotFor(basePath, p) == SlotFor(basePath, p + "/" + more)
  {
    SplitConcat(p, more);
    TokensConcat(Split(p, '/'), Split(more, '/'));
    SameSlot(basePath, p, p + "/" + more);
  }

  /** A trailing slash is not canonical and slips through, whatever the path. */
  lemma TrailingSlashSlipsThrough(basePath: string, p: string)
    ensures Reported([p, p + "/"]) == [] && SlotFor(basePath, p) == SlotFor(basePath, p + "/")
  {
    assert p + "/" + "" == p + "/";
    LongerIsNotReported(p, "");
    RestDecidesNothing(basePath, p, "");
  }

  /** So does all that is written between two stars: the wildcard check asks for one at the end only. */
  lemma InnerStarSlipsThrough(basePath: string, p: string, between: string)
    requires HasSuffix(p, "/*")
    ensures
      var longer := p + "/" + (between + "/*");
      ValidWildcard(p) && ValidWildcard(longer) && Reported([p, longer]) == [] &&
      SlotFor(basePath, p) == SlotFor(basePath, longer)
  {
    StarAtEnd(p);
    LongerIsNotReported(p, between + "/*");
    RestDecidesNothing(basePath, p, between + "/*");
  }

  lemma StarAtEnd(p: string)
    requires HasSuffix(p, "/*")
    ensures Starred(Split(p, '/'))
  {
    var front := p[..|p| - 2];
    assert p == front + "/" + "*";
    SplitConcat(front, "*");
    SplitOfJoin(["*"], '/');
    TokensConcat(Split(front, '/'), ["*"]);
  }

  // --- what is reported ---

  // Where the paths with a normal form are.
  function Where(paths: seq<string>, norm: string): (at: seq<nat>)
    ensures |at| == |GroupOf(paths, norm)|
    ensures forall k {:trigger k in at} :: k in at ==> k < |paths|
  {
    if paths == [] then []
    else
      var n := |paths| - 1;
      Where(paths[..n], norm) + if Norm(paths[n]) == norm then [n] else []
  }

  lemma {:induction false} WhereRises(paths: seq<string>, norm: string, i: nat, j: nat)
    requires i < j < |Where(paths, norm)|
    ensures Where(paths, norm)[i] < Where(paths, norm)[j]
  {
    var n := |paths| - 1;
    var before := Where(paths[..n], norm);
    if j < |before| {
      WhereRises(paths[..n], norm, i, j);
    } else {
      assert before[i] in before;
    }
  }

  lemma {:induction false} WhereHolds(paths: seq<string>, norm: string, i: nat)
    requires i < |Where(paths, norm)|
    ensures
      var k := Where(paths, norm)[i];
      k < |paths| && paths[k] == GroupOf(paths, norm)[i] && Norm(paths[k]) == norm
  {
    var n := |paths| - 1;
    if i < |Where(paths[..n], norm)| {
      WhereHolds(paths[..n], norm, i);
    }
  }

  lemma {:induction false} WhereFinds(paths: seq<string>, norm: string, k: nat) returns (i: nat)
    requires k < |paths| && Norm(paths[k]) == norm
    ensures i < |Where(paths, norm)| && Where(paths, norm)[i] == k
  {
    var n := |paths| - 1;
    if k < n {
      i := WhereFinds(paths[..n], norm, k);
    } else {
      i := |Where(paths[..n], norm)|;
    }
  }

  // A group is all the paths with one normal form, in order.
  lemma GroupIsAll(paths: seq<string>, norm: string)
    ensures
      var group, at := GroupOf(paths, norm), Where(paths, norm);
      (forall i, j {:trigger at[i], at[j]} :: 0 <= i < j < |group| ==> at[i] < at[j]) &&
      (forall i {:trigger group[i]} :: 0 <= i < |group| ==> at[i] < |paths| && group[i] == paths[at[i]]) &&
      (forall k {:trigger paths[k]} :: 0 <= k < |paths| ==> (Norm(paths[k]) == norm <==> k in at))
  {
    var group, at := GroupOf(paths, norm), Where(paths, norm);
    forall i, j | 0 <= i < j < |group| ensures at[i] < at[j] {
      WhereRises(paths, norm, i, j);
    }
    forall i | 0 <= i < |group| ensures at[i] < |paths| && group[i] == paths[at[i]] && Norm(paths[at[i]]) == norm {
      WhereHolds(paths, norm, i);
    }
    forall k | 0 <= k < |paths| && Norm(paths[k]) == norm ensures k in at {
      var i := WhereFinds(paths, norm, k);
    }
  }

  lemma {:induction false} OrderHoldsAll(paths: seq<string>, norm: string)
    ensures norm in Order(paths) <==> GroupOf(paths, norm) != []
  {
    if paths != [] {
      OrderHoldsAll(paths[..|paths| - 1], norm);
    }
  }

  predicate IsGroup(paths: seq<string>, norm: string, group: seq<string>) {
    group == GroupOf(paths, norm)
  }

  ghost predicate IsCrowd(paths: seq<string>, order: seq<string>, group: seq<string>, norm: string) {
    norm in order && IsGroup(paths, norm, group) && |group| > 1
  }

  lemma {:induction false} CrowdedExactly(paths: seq<string>, order: seq<string>, group: seq<string>)
    ensures group in Crowded(paths, order) <==> exists norm :: IsCrowd(paths, order, group, norm)
  {
    if order != [] {
      var before, last := order[..|order| - 1], order[|order| - 1];
      CrowdedExactly(paths, before, group);
      forall norm
        ensures IsCrowd(paths, order, group, norm)
           <==> IsCrowd(paths, before, group, norm) ||
                (norm == last && group == GroupOf(paths, last) && |group| > 1)
      {
        assert norm in order <==> norm in before || norm == last;
      }
      if group == GroupOf(paths, last) && |group| > 1 {
        assert IsCrowd(paths, order, group, last);
      }
    }
  }

  /** Reported is exactly every group of several paths: all those with one normal form, in order. */
  lemma ReportedExactly(paths: seq<string>, group: seq<string>)
    ensures group in Reported(paths) <==>
            |group| > 1 && exists norm :: IsGroup(paths, norm, group)
  {
    CrowdedExactly(paths, Order(paths), group);
    forall norm ensures norm in Order(paths) <==> GroupOf(paths, norm) != [] {
      OrderHoldsAll(paths, norm);
    }
    forall norm
      ensures IsCrowd(paths, Order(paths), group, norm) <==> IsGroup(paths, norm, group) && |group| > 1
    {
      assert |group| > 1 ==> group != [];
    }
  }
}
