/**
 Patterns of one extension at one position are visited in map order. When that makes a lookup ambiguous, and when
 it lets a worse route win.
 */
module RouteAmbiguity {
  import opened GoStrings
  import opened RouteTable
  import opened RouteLaws

  // What may follow a segment of a request: no slashes, and trimming leaves nothing empty at the end.
  predicate Continuation(more: seq<string>) {
    (forall i {:trigger more[i]} :: 0 <= i < |more| ==> '/' !in more[i]) && (more != [] ==> more[|more| - 1] != "")
  }

  predicate Tidy(segs: seq<string>) {
    segs == [] || Continuation(segs[1..])
  }

  predicate SiblingPatterns(a: string, b: string) {
    a != b && IsPattern(a) && IsPattern(b) && Extension(a) == Extension(b)
  }

  // Two patterns of one extension at one position, with routes below that fit one continuation.
  ghost predicate Clash(slots: map<Slot, Route>, at: Path, a: string, b: string, ra: seq<Token>, wa: bool,
                        rb: seq<Token>, wb: bool, more: seq<string>) {
    SiblingPatterns(a, b) && Continuation(more) &&
    Candidate(slots, Step(at, Lit(a)), more, ra, wa) && Candidate(slots, Step(at, Lit(b)), more, rb, wb)
  }

  ghost predicate Unambiguous(slots: map<Slot, Route>) {
    forall at, a, b, ra, wa, rb, wb, more :: !Clash(slots, at, a, b, ra, wa, rb, wb, more)
  }

  // Of the two, a best route below the one is worse than some route below the other.
  ghost predicate Skew(slots: map<Slot, Route>, at: Path, a: string, b: string, ra: seq<Token>, wa: bool,
                       rb: seq<Token>, wb: bool, more: seq<string>) {
    Clash(slots, at, a, b, ra, wa, rb, wb, more) && Best(slots, Step(at, Lit(a)), more, ra, wa) &&
    !LexLeq(Ranks(ra, wa, more), Ranks(rb, wb, more))
  }

  ghost predicate Even(slots: map<Slot, Route>) {
    forall at, a, b, ra, wa, rb, wb, more :: !Skew(slots, at, a, b, ra, wa, rb, wb, more)
  }

  // Least in the lexicographic order of priorities: exact, pattern, param, wildcard, segment by segment.
  ghost predicate LexBest(slots: map<Slot, Route>, at: Path, segs: seq<string>, rest: seq<Token>, wild: bool) {
    Candidate(slots, at, segs, rest, wild) &&
    forall other, w :: Candidate(slots, at, segs, other, w) ==> LexLeq(Ranks(rest, wild, segs), Ranks(other, w, segs))
  }

  // --- without a clash ---

  // Two matches that part ways with equal priority do so at two patterns of one extension.
  lemma PartAtPatterns(slots: map<Slot, Route>, at: Path, segs: seq<string>,
                       a: seq<Token>, aw: bool, b: seq<Token>, bw: bool)
    requires Tidy(segs) && a != [] && b != [] && a[0] != b[0]
    requires Candidate(slots, at, segs, a, aw) && Candidate(slots, at, segs, b, bw)
    requires Rank(a[0], segs[0]) == Rank(b[0], segs[0])
    ensures a[0].Lit? && b[0].Lit? && Clash(slots, at, a[0].seg, b[0].seg, a[1..], aw, b[1..], bw, segs[1..])
  {
    CandidateStep(slots, at, segs, a, aw);
    CandidateStep(slots, at, segs, b, bw);
  }

  lemma {:induction false} OnlyOne(slots: map<Slot, Route>, at: Path, segs: seq<string>,
                                   a: seq<Token>, aw: bool, b: seq<Token>, bw: bool)
    requires Unambiguous(slots) && Tidy(segs)
    requires Candidate(slots, at, segs, a, aw) && Candidate(slots, at, segs, b, bw)
    requires NotWorse(a, aw, b, bw, segs) && NotWorse(b, bw, a, aw, segs)
    ensures a == b && aw == bw
    decreases |a|
  {
    if a != [] && b != [] {
      if a[0] != b[0] {
        PartAtPatterns(slots, at, segs, a, aw, b, bw);
      }
      CandidateStep(slots, at, segs, a, aw);
      CandidateStep(slots, at, segs, b, bw);
      OnlyOne(slots, Step(at, a[0]), segs[1..], a[1..], aw, b[1..], bw);
      assert a == [a[0]] + a[1..] && b == [b[0]] + b[1..];
    }
  }

  // The tail of a best match is best below its first token.
  lemma BestTail(slots: map<Slot, Route>, at: Path, segs: seq<string>, a: seq<Token>, aw: bool)
    requires a != [] && Best(slots, at, segs, a, aw)
    ensures segs != [] && Accepts(a[0], segs[0]) && Best(slots, Step(at, a[0]), segs[1..], a[1..], aw)
  {
    CandidateStep(slots, at, segs, a, aw);
    forall other, w | Candidate(slots, Step(at, a[0]), segs[1..], other, w)
      ensures NotWorse(a[1..], aw, other, w, segs[1..])
    {
      var full := [a[0]] + other;
      assert full[0] == a[0] && full[1..] == other;
      assert Candidate(slots, at, segs, full, w);
    }
  }

  lemma {:induction false} BestIsLeast(slots: map<Slot, Route>, at: Path, segs: seq<string>,
                                       a: seq<Token>, aw: bool, b: seq<Token>, bw: bool)
    requires Even(slots) && Tidy(segs) && Best(slots, at, segs, a, aw) && Candidate(slots, at, segs, b, bw)
    ensures LexLeq(Ranks(a, aw, segs), Ranks(b, bw, segs))
    decreases |a|
  {
    assert NotWorse(a, aw, b, bw, segs);
    if a != [] && b != [] && Rank(a[0], segs[0]) == Rank(b[0], segs[0]) {
      BestTail(slots, at, segs, a, aw);
      CandidateStep(slots, at, segs, b, bw);
      assert Ranks(a, aw, segs)[1..] == Ranks(a[1..], aw, segs[1..]);
      assert Ranks(b, bw, segs)[1..] == Ranks(b[1..], bw, segs[1..]);
      if a[0] == b[0] {
        BestIsLeast(slots, Step(at, a[0]), segs[1..], a[1..], aw, b[1..], bw);
      } else {
        PartAtPatterns(slots, at, segs, a, aw, b, bw);
        assert !Skew(slots, at, a[0].seg, b[0].seg, a[1..], aw, b[1..], bw, segs[1..]);
      }
    } else if a == [] && b == [] {
      assert Ranks(a, aw, segs)[1..] == [] && Ranks(b, bw, segs)[1..] == [];
    }
  }

  // --- there is a best match whenever there is a match ---

  lemma {:induction false} BestExists(slots: map<Slot, Route>, at: Path, segs: seq<string>)
    returns (rest: seq<Token>, wild: bool)
    ensures Best(slots, at, segs, rest, wild) || Barren(slots, at, segs)
    decreases |segs|
  {
    rest, wild := [], false;
    if segs == [] {
      BestEnd(slots, at);
      wild := Slot(at, false) !in slots;
    } else if t :| !DeadVia(slots, at, segs, t) && forall u :: Rank(u, segs[0]) < Rank(t, segs[0]) ==>
      DeadVia(slots, at, segs, u) {
      rest, wild := BestExists(slots, Step(at, t), segs[1..]);
      BestStep(slots, at, segs, t, rest, wild);
      rest := [t] + rest;
    } else {
      AllDead(slots, at, segs);
      BestWildcard(slots, at, segs);
      wild := true;
    }
  }

  // Without a live token of least rank there is no live token.
  lemma AllDead(slots: map<Slot, Route>, at: Path, segs: seq<string>)
    requires segs != []
    requires !exists t :: !DeadVia(slots, at, segs, t) &&
               forall u :: Rank(u, segs[0]) < Rank(t, segs[0]) ==> DeadVia(slots, at, segs, u)
    ensures forall t :: DeadVia(slots, at, segs, t)
  {
    forall t | Rank(t, segs[0]) == 0 ensures DeadVia(slots, at, segs, t) {
    }
    forall t | Rank(t, segs[0]) == 1 ensures DeadVia(slots, at, segs, t) {
    }
    forall t | Rank(t, segs[0]) == 2 ensures DeadVia(slots, at, segs, t) {
    }
  }

  // --- a request that leads to a given position and nowhere else ---

  function Xs(n: nat): (s: string)
    ensures |s| == n && forall i :: 0 <= i < n ==> s[i] == 'x'
  {
    seq(n, _ => 'x')
  }

  // All literals on the way are shorter than n, not empty and without slashes.
  predicate Plain(p: Path, n: nat) {
    p.Root? ||
    (Plain(p.parent, n) && (p.token.Lit? ==> 0 < |p.token.seg| < n && '/' !in p.token.seg))
  }

  ghost predicate AllPlain(slots: map<Slot, Route>, n: nat) {
    forall s {:trigger s in slots} :: s in slots ==> Plain(s.path, n)
  }

  lemma {:induction false} PlainAbove(p: Path, rest: seq<Token>, n: nat)
    requires Plain(Walk(p, rest), n)
    ensures Plain(p, n)
    decreases |rest|
  {
    if rest != [] {
      PlainAbove(Step(p, rest[0]), rest[1..], n);
    }
  }

  // No route lies below a literal that long.
  lemma LongIsDead(slots: map<Slot, Route>, at: Path, segs: seq<string>, seg: string, n: nat)
    requires AllPlain(slots, n) && |seg| >= n && segs != []
    ensures DeadVia(slots, at, segs, Lit(seg))
  {
    forall rest, wild ensures !Candidate(slots, Step(at, Lit(seg)), segs[1..], rest, wild) {
      if Slot(Walk(Step(at, Lit(seg)), rest), wild) in slots {
        PlainAbove(Step(at, Lit(seg)), rest, n);
      }
    }
  }

  // A literal is asked for by itself, a parameter by something no literal or pattern accepts.
  function Spelling(t: Token, n: nat): string {
    match t
    case Lit(s) => s
    case Param => Xs(n)
  }

  function Spelled(p: Path, n: nat): seq<string> {
    if p.Root? then [] else Spelled(p.parent, n) + [Spelling(p.token, n)]
  }

  function TokensTo(p: Path): seq<Token> {
    if p.Root? then [] else TokensTo(p.parent) + [p.token]
  }

  lemma SpellingAccepted(t: Token, n: nat)
    ensures Accepts(t, Spelling(t, n))
  {
  }

  // A best match below a position is best when asked for from one position up.
  lemma BestFromParent(slots: map<Slot, Route>, n: nat, at: Path, t: Token, segs: seq<string>, rest: seq<Token>,
                       wild: bool)
    requires n > 0 && AllPlain(slots, n) && Best(slots, Step(at, t), segs, rest, wild)
    ensures Best(slots, at, [Spelling(t, n)] + segs, [t] + rest, wild)
  {
    var seg := Spelling(t, n);
    var all := [seg] + segs;
    assert all[0] == seg && all[1..] == segs;
    forall u | Rank(u, seg) < Rank(t, seg) ensures DeadVia(slots, at, all, u) {
      assert t.Param? && u.Lit?;
      if u.seg == seg {
        LongIsDead(slots, at, all, seg, n);
      } else {
        assert LastIndex(seg, '.') == -1;
      }
    }
    BestStep(slots, at, all, t, rest, wild);
  }

  lemma CandidateFromParent(slots: map<Slot, Route>, at: Path, t: Token, seg: string, segs: seq<string>,
                            rest: seq<Token>, wild: bool)
    requires Accepts(t, seg) && Candidate(slots, Step(at, t), segs, rest, wild)
    ensures Candidate(slots, at, [seg] + segs, [t] + rest, wild)
  {
    assert ([seg] + segs)[1..] == segs && ([t] + rest)[1..] == rest;
  }

  // From the root, all the way.
  lemma {:induction false} BestFromRoot(slots: map<Slot, Route>, n: nat, p: Path, segs: seq<string>, rest: seq<Token>,
                                        wild: bool)
    requires n > 0 && AllPlain(slots, n) && Best(slots, p, segs, rest, wild)
    ensures Best(slots, Root, Spelled(p, n) + segs, TokensTo(p) + rest, wild)
  {
    if p.Root? {
      assert [] + segs == segs && [] + rest == rest;
    } else {
      BestFromParent(slots, n, p.parent, p.token, segs, rest, wild);
      BestFromRoot(slots, n, p.parent, [Spelling(p.token, n)] + segs, [p.token] + rest, wild);
      assert Spelled(p, n) + segs == Spelled(p.parent, n) + ([Spelling(p.token, n)] + segs);
      assert TokensTo(p) + rest == TokensTo(p.parent) + ([p.token] + rest);
    }
  }

  // A request segment that the patterns of an extension accept and no literal spells.
  function PatternSpelling(a: string, n: nat): string {
    Xs(n) + Extension(a)
  }

  lemma PatternAccepts(a: string, b: string, n: nat)
    requires IsPattern(a) && IsPattern(b) && Extension(a) == Extension(b) && |b| < n
    ensures
      var seg := PatternSpelling(a, n);
      Accepts(Lit(b), seg) && Rank(Lit(b), seg) == 1 && |seg| >= n
  {
    var i, x, ext := LastIndex(a, '.'), Xs(n), Extension(a);
    assert ext[0] == '.' && ext[1..] == a[i + 1..];
    LastDot(x, ext);
  }

  // The last dot of s + ext is the first character of ext when it is ext's only one.
  lemma {:induction false} LastDot(s: string, ext: string)
    requires ext != "" && ext[0] == '.' && '.' !in ext[1..]
    ensures LastIndex(s + ext, '.') == |s|
    decreases |ext|
  {
    var all := s + ext;
    if |ext| == 1 {
      assert all[|all| - 1] == '.';
    } else {
      var shorter := ext[..|ext| - 1];
      assert ext[|ext| - 1] == ext[1..][|ext| - 2];
      assert shorter[1..] == ext[1..][..|ext| - 2];
      LastDot(s, shorter);
      assert all[..|all| - 1] == s + shorter;
    }
  }

  // Below a pattern: no literal spells the segment, so a best match there is best from the position itself.
  lemma BestFromPattern(slots: map<Slot, Route>, n: nat, at: Path, a: string, b: string, more: seq<string>,
                        rest: seq<Token>, wild: bool)
    requires AllPlain(slots, n) && IsPattern(a) && IsPattern(b) && Extension(a) == Extension(b) && |b| < n
    requires Best(slots, Step(at, Lit(b)), more, rest, wild)
    ensures Best(slots, at, [PatternSpelling(a, n)] + more, [Lit(b)] + rest, wild)
  {
    var seg := PatternSpelling(a, n);
    var all := [seg] + more;
    PatternAccepts(a, b, n);
    assert all[0] == seg && all[1..] == more;
    forall u | Rank(u, seg) < 1 ensures DeadVia(slots, at, all, u) {
      LongIsDead(slots, at, all, seg, n);
    }
    BestStep(slots, at, all, Lit(b), rest, wild);
  }

  // --- requests ---

  // The segments some request path comes to.
  lemma Ask(segs: seq<string>) returns (path: string)
    requires segs != [] && segs[0] != "" && Continuation(segs)
    ensures RequestSegments(path) == segs
  {
    path := Join(segs, '/');
    JoinEnds(segs);
    assert segs[0][0] in segs[0] && segs[|segs| - 1][|segs[|segs| - 1]| - 1] in segs[|segs| - 1];
    assert Trim(path, '/') == path;
    SplitOfJoin(segs, '/');
  }

  lemma {:induction false} JoinEnds(parts: seq<string>)
    requires parts != []
    ensures
      var s, last := Join(parts, '/'), parts[|parts| - 1];
      (parts[0] != "" ==> s != "" && s[0] == parts[0][0]) &&
      (last != "" ==> s != "" && s[|s| - 1] == last[|last| - 1]) &&
      (|parts| > 1 && last == "" ==> s != "" && s[|s| - 1] == '/')
  {
    if |parts| > 1 {
      JoinEnds(parts[1..]);
      assert parts[1..][|parts| - 2] == parts[|parts| - 1];
    }
  }

  lemma {:induction false} TrimRightEnd(s: string)
    ensures var t := TrimRight(s, '/'); t == "" || t[|t| - 1] != '/'
  {
    if s != "" && s[|s| - 1] == '/' {
      TrimRightEnd(s[..|s| - 1]);
    }
  }

  lemma {:induction false} TrimLeftEnd(s: string)
    ensures var t := TrimLeft(s, '/'); t == "" || (s != "" && t[|t| - 1] == s[|s| - 1])
  {
    if s != "" && s[0] == '/' {
      TrimLeftEnd(s[1..]);
    }
  }

  lemma TrimmedEnd(path: string)
    ensures var t := Trim(path, '/'); t == "" || t[|t| - 1] != '/'
  {
    TrimRightEnd(path);
    TrimLeftEnd(TrimRight(path, '/'));
  }

  lemma RequestsAreTidy(path: string)
    ensures RequestSegments(path) != [] && Tidy(RequestSegments(path))
  {
    var t, segs := Trim(path, '/'), RequestSegments(path);
    TrimmedEnd(path);
    JoinOfSplit(t, '/');
    JoinEnds(segs);
    TailContinues(segs);
  }

  lemma TailContinues(segs: seq<string>)
    requires segs != [] && (forall s :: s in segs ==> '/' !in s) && (|segs| > 1 ==> segs[|segs| - 1] != "")
    ensures Continuation(segs[1..])
  {
    var more := segs[1..];
    assert forall i :: 0 <= i < |more| ==> more[i] == segs[i + 1] && segs[i + 1] in segs;
  }

  // --- what indexes hold ---

  function RegisteredSlot(r: Route): Slot {
    SlotOf(Root, Segments(r.service.basePath, r.resource.path))
  }

  // Every slot is held by a route registered for it, as in every index reached by inserts, loads and deletes.
  ghost predicate Registered(slots: map<Slot, Route>) {
    forall s {:trigger slots[s]} :: s in slots ==> RegisteredSlot(slots[s]) == s
  }

  // An entry registers its route where it belongs.
  predicate Proper(e: Entry) {
    e.segs == Segments(e.route.service.basePath, e.route.resource.path)
  }

  lemma {:induction false} LoadStaysRegistered(slots: map<Slot, Route>, entries: seq<Entry>)
    requires Registered(slots) && forall e :: e in entries ==> Proper(e)
    ensures Registered(LoadSlots(slots, entries))
  {
    if entries != [] {
      var before, last := entries[..|entries| - 1], entries[|entries| - 1];
      LoadStaysRegistered(slots, before);
      OneMoreRegistered(LoadSlots(slots, before), last);
    }
  }

  lemma OneMoreRegistered(slots: map<Slot, Route>, e: Entry)
    requires Registered(slots) && Proper(e)
    ensures Registered(slots[SlotOf(Root, e.segs) := e.route])
  {
  }

  lemma {:induction false} ServiceEntriesAreProper(svc: Service, n: nat)
    requires n <= |svc.resources|
    ensures forall e :: e in ServiceEntries(svc, n) ==> Proper(e)
  {
    if n > 0 {
      ServiceEntriesAreProper(svc, n - 1);
    }
  }

  lemma {:induction false} AllEntriesAreProper(services: seq<Service>)
    ensures forall e :: e in AllEntries(services) ==> Proper(e)
  {
    if services != [] {
      var last := services[|services| - 1];
      AllEntriesAreProper(services[..|services| - 1]);
      ServiceEntriesAreProper(last, |last.resources|);
    }
  }

  lemma DeleteStaysRegistered(slots: map<Slot, Route>, id: string)
    requires Registered(slots)
    ensures Registered(Without(slots, id))
  {
  }

  lemma {:induction false} SlotIsPlain(at: Path, segs: seq<string>, n: nat)
    requires Plain(at, n)
    requires forall i {:trigger segs[i]} :: 0 <= i < |segs| ==> |segs[i]| < n && '/' !in segs[i]
    ensures Plain(SlotOf(at, segs).path, n)
    decreases |segs|
  {
    if segs != [] && segs[0] != "*" {
      var rest := segs[1..];
      assert forall i :: 0 <= i < |rest| ==> rest[i] == segs[i + 1];
      SlotIsPlain(if segs[0] == "" then at else Step(at, TokenOf(segs[0])), rest, n);
    }
  }

  lemma {:induction false} LongerThan(segs: seq<string>) returns (n: nat)
    ensures forall i {:trigger segs[i]} :: 0 <= i < |segs| ==> |segs[i]| < n
  {
    n := 1;
    if segs != [] {
      n := LongerThan(segs[1..]);
      assert forall i :: 1 <= i < |segs| ==> segs[i] == segs[1..][i - 1];
      n := if |segs[0]| < n then n else |segs[0]| + 1;
    }
  }

  lemma {:induction false} PlainForMore(p: Path, n: nat, m: nat)
    requires Plain(p, n) && n <= m
    ensures Plain(p, m)
  {
    if p.Step? {
      PlainForMore(p.parent, n, m);
    }
  }

  // Some length is beyond all literals of the index.
  lemma {:induction false} RegisteredIsPlain(slots: map<Slot, Route>) returns (n: nat)
    requires Registered(slots)
    ensures n > 0 && AllPlain(slots, n)
    decreases |slots|
  {
    n := 1;
    if s :| s in slots {
      var fewer := slots - {s};
      assert fewer.Keys < slots.Keys;
      assert |fewer| < |slots| by {
        assert slots.Keys == fewer.Keys + {s} && |slots| == |slots.Keys| && |fewer| == |fewer.Keys|;
      }
      var k := RegisteredIsPlain(fewer);
      var m := SlotBound(slots[s]);
      n := if k < m then m else k;
      PlainForMore(s.path, m, n);
      forall t | t in slots ensures Plain(t.path, n) {
        if t != s {
          assert t in fewer;
          PlainForMore(t.path, k, n);
        }
      }
    }
  }

  lemma SlotBound(r: Route) returns (n: nat)
    ensures Plain(RegisteredSlot(r).path, n)
  {
    var segs := Segments(r.service.basePath, r.resource.path);
    JoinOfSplit(Trim(TrimRight(r.service.basePath, '/') + "/" + TrimLeft(r.resource.path, '/'), '/'), '/');
    assert forall i :: 0 <= i < |segs| ==> segs[i] in segs;
    n := LongerThan(segs);
    SlotIsPlain(Root, segs, n);
  }

  // --- the theorems ---

  // A request that clashing patterns both answer: it leads to their position, and no literal there spells it.
  function ClashingRequest(at: Path, a: string, n: nat, more: seq<string>): seq<string> {
    Spelled(at, n) + ([PatternSpelling(a, n)] + more)
  }

  lemma {:induction false} SpelledIsPlain(p: Path, n: nat)
    requires n > 0 && Plain(p, n)
    ensures forall i {:trigger Spelled(p, n)[i]} :: 0 <= i < |Spelled(p, n)| ==>
      Spelled(p, n)[i] != "" && '/' !in Spelled(p, n)[i]
  {
    if p.Step? {
      SpelledIsPlain(p.parent, n);
    }
  }

  lemma AskClashing(at: Path, a: string, n: nat, more: seq<string>) returns (path: string)
    requires n > 0 && Plain(at, n) && '/' !in a && IsPattern(a) && Continuation(more)
    ensures RequestSegments(path) == ClashingRequest(at, a, n, more)
  {
    var before, seg, segs := Spelled(at, n), PatternSpelling(a, n), ClashingRequest(at, a, n, more);
    SpelledIsPlain(at, n);
    assert '/' !in seg by {
      assert forall c :: c in Extension(a) ==> c in a;
    }
    assert seg[0] == 'x';
    var i := |before|;
    assert segs[..i] == before && segs[i] == seg && segs[i + 1..] == more;
    forall k | 0 <= k < |segs| ensures '/' !in segs[k] {
      assert k < i ==> segs[k] == before[k];
      assert k > i ==> segs[k] == more[k - i - 1];
    }
    assert segs[0] != "" by {
      assert i > 0 ==> segs[0] == before[0];
    }
    assert segs[|segs| - 1] != "" by {
      assert more != [] ==> segs[|segs| - 1] == more[|more| - 1];
    }
    path := Ask(segs);
  }

  // Both sides of a clash, seen from the root.
  lemma ClashFromRoot(slots: map<Slot, Route>, n: nat, at: Path, a: string, b: string, more: seq<string>,
                      rest: seq<Token>, wild: bool)
    requires n > 0 && AllPlain(slots, n) && IsPattern(a) && IsPattern(b) && Extension(a) == Extension(b) && |b| < n
    requires Best(slots, Step(at, Lit(b)), more, rest, wild)
    ensures Best(slots, Root, ClashingRequest(at, a, n, more), TokensTo(at) + ([Lit(b)] + rest), wild)
  {
    BestFromPattern(slots, n, at, a, b, more, rest, wild);
    BestFromRoot(slots, n, at, [PatternSpelling(a, n)] + more, [Lit(b)] + rest, wild);
  }

  // Distinct slots answer with distinct routes.
  lemma AnswerTellsSlot(slots: map<Slot, Route>, names: map<Path, string>, segs: seq<string>, m: Option<PathMatch>,
                        a: seq<Token>, aw: bool, b: seq<Token>, bw: bool)
    requires Registered(slots) && m.Some?
    requires Candidate(slots, Root, segs, a, aw) && m.value == MatchOf(slots, names, Root, segs, map[], a, aw)
    requires Candidate(slots, Root, segs, b, bw) && m.value == MatchOf(slots, names, Root, segs, map[], b, bw)
    ensures a == b && aw == bw
  {
    var s, t := Slot(Walk(Root, a), aw), Slot(Walk(Root, b), bw);
    assert slots[s] == slots[t];
    WalkInjective(Root, a, b);
  }

  lemma PlainClash(slots: map<Slot, Route>, at: Path, a: string, rest: seq<Token>, wild: bool, n: nat)
    requires AllPlain(slots, n) && Slot(Walk(Step(at, Lit(a)), rest), wild) in slots
    ensures Plain(at, n) && |a| < n && '/' !in a
  {
    PlainAbove(Step(at, Lit(a)), rest, n);
  }

  // A clash gives some request two answers.
  lemma ClashIsAmbiguous(slots: map<Slot, Route>, names: map<Path, string>, at: Path, a: string, b: string,
                         ra: seq<Token>, wa: bool, rb: seq<Token>, wb: bool, more: seq<string>)
    returns (path: string, m: Option<PathMatch>, m': Option<PathMatch>)
    requires Registered(slots) && Clash(slots, at, a, b, ra, wa, rb, wb, more)
    ensures IsLookup(slots, names, RequestSegments(path), m) && IsLookup(slots, names, RequestSegments(path), m') &&
      m != m'
  {
    var n := RegisteredIsPlain(slots);
    PlainClash(slots, at, a, ra, wa, n);
    PlainClash(slots, at, b, rb, wb, n);
    path := AskClashing(at, a, n, more);
    var segs := RequestSegments(path);
    var x, xw := BestExists(slots, Step(at, Lit(a)), more);
    var y, yw := BestExists(slots, Step(at, Lit(b)), more);
    ClashFromRoot(slots, n, at, a, a, more, x, xw);
    ClashFromRoot(slots, n, at, a, b, more, y, yw);
    var i, fx, fy := |TokensTo(at)|, TokensTo(at) + ([Lit(a)] + x), TokensTo(at) + ([Lit(b)] + y);
    assert fx[i] == Lit(a) && fy[i] == Lit(b);
    m, m' := TwoAnswers(slots, names, segs, fx, xw, fy, yw);
  }

  lemma AnswerOf(slots: map<Slot, Route>, names: map<Path, string>, segs: seq<string>, rest: seq<Token>, wild: bool)
    returns (m: Option<PathMatch>)
    requires Best(slots, Root, segs, rest, wild)
    ensures m == Some(MatchOf(slots, names, Root, segs, map[], rest, wild)) && IsLookup(slots, names, segs, m)
  {
    m := Some(MatchOf(slots, names, Root, segs, map[], rest, wild));
    assert Answer(slots, names, Root, segs, map[], m, rest, wild);
  }

  lemma TwoAnswers(slots: map<Slot, Route>, names: map<Path, string>, segs: seq<string>,
                   a: seq<Token>, aw: bool, b: seq<Token>, bw: bool)
    returns (m: Option<PathMatch>, m': Option<PathMatch>)
    requires Registered(slots) && a != b && Best(slots, Root, segs, a, aw) && Best(slots, Root, segs, b, bw)
    ensures IsLookup(slots, names, segs, m) && IsLookup(slots, names, segs, m') && m != m'
  {
    m := AnswerOf(slots, names, segs, a, aw);
    m' := AnswerOf(slots, names, segs, b, bw);
    if m == m' {
      AnswerTellsSlot(slots, names, segs, m, a, aw, b, bw);
    }
  }

  // No request has two answers.
  ghost predicate OneAnswer(slots: map<Slot, Route>, names: map<Path, string>) {
    forall path, m, m' |
      IsLookup(slots, names, RequestSegments(path), m) && IsLookup(slots, names, RequestSegments(path), m') :: m == m'
  }

  /**
   A lookup is a function of the index exactly when no position has two patterns of one extension with routes below
   that fit one continuation: then no request has two answers, and otherwise some request has.
   */
  lemma OneAnswerExactly(slots: map<Slot, Route>, names: map<Path, string>)
    requires Registered(slots)
    ensures OneAnswer(slots, names) <==> Unambiguous(slots)
  {
    if Unambiguous(slots) {
      forall path, m, m' |
        IsLookup(slots, names, RequestSegments(path), m) && IsLookup(slots, names, RequestSegments(path), m')
        ensures m == m'
      {
        AnswersAgree(slots, names, names, path, m, m');
      }
    } else {
      var at, a, b, ra, wa, rb, wb, more :| Clash(slots, at, a, b, ra, wa, rb, wb, more);
      var path, m, m' := ClashIsAmbiguous(slots, names, at, a, b, ra, wa, rb, wb, more);
    }
  }

  /**
   Without a clash two answers to one request, by whatever history of inserts, loads and deletes the two indexes came
   about and in whatever order children were tried, are the same up to the names of parameters.
   */
  lemma AnswersAgree(slots: map<Slot, Route>, names: map<Path, string>, names': map<Path, string>, path: string,
                     m: Option<PathMatch>, m': Option<PathMatch>)
    requires Unambiguous(slots)
    requires IsLookup(slots, names, RequestSegments(path), m) && IsLookup(slots, names', RequestSegments(path), m')
    ensures SameUpToNames(names, names', RequestSegments(path), m, m') && (names == names' ==> m == m')
  {
    var segs := RequestSegments(path);
    var rest, wild :| Answer(slots, names, Root, segs, map[], m, rest, wild);
    var rest', wild' :| Answer(slots, names', Root, segs, map[], m', rest', wild');
    RequestsAreTidy(path);
    if m.Some? {
      assert Candidate(slots, Root, segs, rest, wild);
    }
    if m'.Some? {
      assert Candidate(slots, Root, segs, rest', wild');
    }
    if m.Some? && m'.Some? {
      OnlyOne(slots, Root, segs, rest, wild, rest', wild');
      var again := SamePathOtherNames(slots, names, names', segs, m, rest, wild);
    }
  }

  // A correct answer by a lexicographically least match.
  ghost predicate IsLeastLookup(slots: map<Slot, Route>, names: map<Path, string>, segs: seq<string>,
                                m: Option<PathMatch>)
  {
    match m
    case None => Barren(slots, Root, segs)
    case Some(found) =>
      exists rest, wild ::
        LexBest(slots, Root, segs, rest, wild) && found == MatchOf(slots, names, Root, segs, map[], rest, wild)
  }

  lemma EvenIsLeast(slots: map<Slot, Route>, names: map<Path, string>, path: string, m: Option<PathMatch>)
    requires Even(slots) && IsLookup(slots, names, RequestSegments(path), m)
    ensures IsLeastLookup(slots, names, RequestSegments(path), m)
  {
    var segs := RequestSegments(path);
    var rest, wild :| Answer(slots, names, Root, segs, map[], m, rest, wild);
    RequestsAreTidy(path);
    if m.Some? {
      forall other, w | Candidate(slots, Root, segs, other, w)
        ensures LexLeq(Ranks(rest, wild, segs), Ranks(other, w, segs))
      {
        BestIsLeast(slots, Root, segs, rest, wild, other, w);
      }
      assert LexBest(slots, Root, segs, rest, wild);
    }
  }

  // The ranks of a way that starts alike.
  lemma RanksFromParent(t: Token, seg: string, segs: seq<string>, a: seq<Token>, aw: bool, b: seq<Token>, bw: bool,
                        u: Token)
    requires Accepts(t, seg) && Accepts(u, seg) && Rank(t, seg) == Rank(u, seg)
    requires Fits(a, aw, segs) && Fits(b, bw, segs) && !LexLeq(Ranks(a, aw, segs), Ranks(b, bw, segs))
    ensures
      var all := [seg] + segs;
      Fits([t] + a, aw, all) && Fits([u] + b, bw, all) && !LexLeq(Ranks([t] + a, aw, all), Ranks([u] + b, bw, all))
  {
    var all, ta, ub := [seg] + segs, [t] + a, [u] + b;
    assert all[1..] == segs && ta[1..] == a && ub[1..] == b;
    assert Ranks(ta, aw, all)[1..] == Ranks(a, aw, segs) && Ranks(ub, bw, all)[1..] == Ranks(b, bw, segs);
  }

  // One match fits a request, another is a candidate for it and is better.
  ghost predicate Beaten(slots: map<Slot, Route>, at: Path, segs: seq<string>, a: seq<Token>, aw: bool,
                         b: seq<Token>, bw: bool)
  {
    Candidate(slots, at, segs, b, bw) && Fits(a, aw, segs) && !LexLeq(Ranks(a, aw, segs), Ranks(b, bw, segs))
  }

  lemma BeatenFromParent(slots: map<Slot, Route>, p: Path, n: nat, segs: seq<string>,
                         a: seq<Token>, aw: bool, b: seq<Token>, bw: bool)
    requires p.Step? && Beaten(slots, p, segs, a, aw, b, bw)
    ensures Beaten(slots, p.parent, [Spelling(p.token, n)] + segs, [p.token] + a, aw, [p.token] + b, bw)
  {
    SpellingAccepted(p.token, n);
    RanksFromParent(p.token, Spelling(p.token, n), segs, a, aw, b, bw, p.token);
    CandidateFromParent(slots, p.parent, p.token, Spelling(p.token, n), segs, b, bw);
  }

  lemma {:induction false} RanksFromRoot(slots: map<Slot, Route>, p: Path, n: nat, segs: seq<string>,
                                         a: seq<Token>, aw: bool, b: seq<Token>, bw: bool)
    requires Beaten(slots, p, segs, a, aw, b, bw)
    ensures Beaten(slots, Root, Spelled(p, n) + segs, TokensTo(p) + a, aw, TokensTo(p) + b, bw)
  {
    if p.Root? {
      assert [] + segs == segs && [] + a == a && [] + b == b;
    } else {
      var t, seg := p.token, Spelling(p.token, n);
      BeatenFromParent(slots, p, n, segs, a, aw, b, bw);
      RanksFromRoot(slots, p.parent, n, [seg] + segs, [t] + a, aw, [t] + b, bw);
      SpelledOn(p, n, segs, a);
      SpelledOn(p, n, segs, b);
    }
  }

  lemma SpelledOn(p: Path, n: nat, segs: seq<string>, a: seq<Token>)
    requires p.Step?
    ensures Spelled(p, n) + segs == Spelled(p.parent, n) + ([Spelling(p.token, n)] + segs)
    ensures TokensTo(p) + a == TokensTo(p.parent) + ([p.token] + a)
  {
  }

  // A skew gives some request an answer that is not least.
  lemma SkewIsWorse(slots: map<Slot, Route>, names: map<Path, string>, at: Path, a: string, b: string,
                    ra: seq<Token>, wa: bool, rb: seq<Token>, wb: bool, more: seq<string>)
    returns (path: string, m: Option<PathMatch>)
    requires Registered(slots) && Skew(slots, at, a, b, ra, wa, rb, wb, more)
    ensures IsLookup(slots, names, RequestSegments(path), m) && !IsLeastLookup(slots, names, RequestSegments(path), m)
  {
    var n := RegisteredIsPlain(slots);
    PlainClash(slots, at, a, ra, wa, n);
    PlainClash(slots, at, b, rb, wb, n);
    path := AskClashing(at, a, n, more);
    var segs, seg := RequestSegments(path), PatternSpelling(a, n);
    ClashFromRoot(slots, n, at, a, a, more, ra, wa);
    SkewFromRoot(slots, n, at, a, b, more, ra, wa, rb, wb);
    var fa := TokensTo(at) + ([Lit(a)] + ra);
    m := AnswerOf(slots, names, segs, fa, wa);
    NotLeast(slots, names, segs, m, fa, wa, TokensTo(at) + ([Lit(b)] + rb), wb);
  }

  lemma SkewFromRoot(slots: map<Slot, Route>, n: nat, at: Path, a: string, b: string, more: seq<string>,
                     ra: seq<Token>, wa: bool, rb: seq<Token>, wb: bool)
    requires Skew(slots, at, a, b, ra, wa, rb, wb, more) && |a| < n && |b| < n
    ensures
      var segs := ClashingRequest(at, a, n, more);
      var fa, fb := TokensTo(at) + ([Lit(a)] + ra), TokensTo(at) + ([Lit(b)] + rb);
      Candidate(slots, Root, segs, fb, wb) && Fits(fa, wa, segs) && !LexLeq(Ranks(fa, wa, segs), Ranks(fb, wb, segs))
  {
    var seg := PatternSpelling(a, n);
    PatternAccepts(a, a, n);
    PatternAccepts(a, b, n);
    RanksFromParent(Lit(a), seg, more, ra, wa, rb, wb, Lit(b));
    CandidateFromParent(slots, at, Lit(b), seg, more, rb, wb);
    RanksFromRoot(slots, at, n, [seg] + more, [Lit(a)] + ra, wa, [Lit(b)] + rb, wb);
  }

  lemma NotLeast(slots: map<Slot, Route>, names: map<Path, string>, segs: seq<string>, m: Option<PathMatch>,
                 a: seq<Token>, aw: bool, b: seq<Token>, bw: bool)
    requires Registered(slots) && Candidate(slots, Root, segs, a, aw) && Candidate(slots, Root, segs, b, bw)
    requires m == Some(MatchOf(slots, names, Root, segs, map[], a, aw))
    requires !LexLeq(Ranks(a, aw, segs), Ranks(b, bw, segs))
    ensures !IsLeastLookup(slots, names, segs, m)
  {
    forall rest, wild |
      LexBest(slots, Root, segs, rest, wild) && m.value == MatchOf(slots, names, Root, segs, map[], rest, wild)
      ensures false
    {
      AnswerTellsSlot(slots, names, segs, m, a, aw, rest, wild);
    }
  }

  // Every answer is a lexicographically least match.
  ghost predicate AlwaysLeast(slots: map<Slot, Route>, names: map<Path, string>) {
    forall path, m :: IsLookup(slots, names, RequestSegments(path), m) ==>
      IsLeastLookup(slots, names, RequestSegments(path), m)
  }

  /**
   Every answer is lexicographically best exactly when no two patterns of one extension at one position have, for one
   continuation, a best route below the one that is worse than a route below the other.
   */
  lemma LexicographicExactly(slots: map<Slot, Route>, names: map<Path, string>)
    requires Registered(slots)
    ensures AlwaysLeast(slots, names) <==> Even(slots)
  {
    if Even(slots) {
      forall path, m | IsLookup(slots, names, RequestSegments(path), m)
        ensures IsLeastLookup(slots, names, RequestSegments(path), m)
      {
        EvenIsLeast(slots, names, path, m);
      }
    } else {
      var at, a, b, ra, wa, rb, wb, more :| Skew(slots, at, a, b, ra, wa, rb, wb, more);
      var path, m := SkewIsWorse(slots, names, at, a, b, ra, wa, rb, wb, more);
    }
  }

  /** An index without a clash has no skew either. */
  lemma UnambiguousIsEven(slots: map<Slot, Route>)
    requires Unambiguous(slots)
    ensures Even(slots)
  {
  }

  // --- histories ---

  datatype Change = Inserted(svc: Service) | Loaded(services: seq<Service>) | Deleted(id: string)

  // The table after the index went through some changes.
  function TableAfter(history: seq<Change>): map<Slot, Route> {
    if history == [] then map[]
    else
      var before := TableAfter(history[..|history| - 1]);
      match history[|history| - 1]
      case Inserted(svc) => LoadSlots(before, ServiceEntries(svc, |svc.resources|))
      case Loaded(services) => LoadSlots(map[], AllEntries(services))
      case Deleted(id) => Without(before, id)
  }

  lemma {:induction false} HistoryIsRegistered(history: seq<Change>)
    ensures Registered(TableAfter(history))
  {
    if history != [] {
      var before := history[..|history| - 1];
      HistoryIsRegistered(before);
      match history[|history| - 1]
      case Inserted(svc) =>
        ServiceEntriesAreProper(svc, |svc.resources|);
        LoadStaysRegistered(TableAfter(before), ServiceEntries(svc, |svc.resources|));
      case Loaded(services) =>
        AllEntriesAreProper(services);
        LoadStaysRegistered(map[], AllEntries(services));
      case Deleted(id) => DeleteStaysRegistered(TableAfter(before), id);
    }
  }

  /**
   Whatever inserts, loads and deletes built an index, it gives every request one answer exactly when its table is
   unambiguous and only best answers exactly when it is even; and one answer is always a best one.
   */
  lemma AfterAnyHistory(history: seq<Change>, names: map<Path, string>)
    ensures OneAnswer(TableAfter(history), names) <==> Unambiguous(TableAfter(history))
    ensures AlwaysLeast(TableAfter(history), names) <==> Even(TableAfter(history))
    ensures OneAnswer(TableAfter(history), names) ==> AlwaysLeast(TableAfter(history), names)
  {
    var slots := TableAfter(history);
    HistoryIsRegistered(history);
    OneAnswerExactly(slots, names);
    LexicographicExactly(slots, names);
    if Unambiguous(slots) {
      UnambiguousIsEven(slots);
    }
  }

  // --- an index in which a worse route wins ---

  predicate Rivals(x: Token, y: Token, seg: string) {
    x != y && Accepts(x, seg) && Accepts(y, seg) && Rank(x, seg) == 1 && Rank(y, seg) == 1
  }

  // A wildcard below one token, and a route spelled out below another.
  function TwoRoutes(x: Token, y: Token, next: string, wildcard: Route, exact: Route): map<Slot, Route> {
    map[Slot(Step(Root, x), true) := wildcard, Slot(Step(Step(Root, y), Lit(next)), false) := exact]
  }

  lemma WalkOne(t: Token)
    ensures Walk(Root, [t]) == Step(Root, t)
  {
    assert [t][1..] == [];
  }

  lemma WalkTwo(t: Token, u: Token)
    ensures Walk(Root, [t, u]) == Step(Step(Root, t), u)
  {
    WalkOne(t);
    WalkSnoc(Root, [t], u);
    assert [t] + [u] == [t, u];
  }

  // Nothing but the two can match.
  lemma OnlyTwo(x: Token, y: Token, next: string, wildcard: Route, exact: Route, segs: seq<string>, other: seq<Token>,
                w: bool)
    requires Candidate(TwoRoutes(x, y, next, wildcard, exact), Root, segs, other, w)
    ensures if w then other == [x] else other == [y, Lit(next)]
  {
    WalkOne(x);
    WalkTwo(y, Lit(next));
    if w {
      WalkInjective(Root, other, [x]);
    } else {
      WalkInjective(Root, other, [y, Lit(next)]);
    }
  }

  lemma RivalFits(x: Token, y: Token, seg: string, next: string)
    requires Rivals(x, y, seg)
    ensures
      var segs := [seg, next];
      Fits([x], true, segs) && Ranks([x], true, segs) == [1, 3] &&
      Fits([y, Lit(next)], false, segs) && Ranks([y, Lit(next)], false, segs) == [1, 0, 0]
  {
    var segs := [seg, next];
    assert [x][1..] == [] && segs[1..] == [next] && [next][1..] == [];
    assert [y, Lit(next)][1..] == [Lit(next)] && [Lit(next)][1..] == [];
    assert Ranks([], true, [next]) == [3] && Ranks([], false, []) == [0];
    assert Fits([Lit(next)], false, [next]) && Ranks([Lit(next)], false, [next]) == [0, 0];
  }

  // Each of the two is best: they part at tokens of equal rank.
  lemma BothBest(x: Token, y: Token, seg: string, next: string, wildcard: Route, exact: Route)
    requires Rivals(x, y, seg)
    ensures
      var slots, segs := TwoRoutes(x, y, next, wildcard, exact), [seg, next];
      Best(slots, Root, segs, [x], true) && Best(slots, Root, segs, [y, Lit(next)], false)
  {
    var slots, segs, long := TwoRoutes(x, y, next, wildcard, exact), [seg, next], [y, Lit(next)];
    RivalFits(x, y, seg, next);
    WalkOne(x);
    WalkTwo(y, Lit(next));
    forall other, w | Candidate(slots, Root, segs, other, w)
      ensures NotWorse([x], true, other, w, segs) && NotWorse(long, false, other, w, segs)
    {
      OnlyTwo(x, y, next, wildcard, exact, segs, other, w);
      NotWorseThanItself(other, w, segs);
    }
  }

  lemma {:induction false} NotWorseThanItself(a: seq<Token>, aw: bool, segs: seq<string>)
    requires Fits(a, aw, segs)
    ensures NotWorse(a, aw, a, aw, segs)
  {
    if a != [] {
      NotWorseThanItself(a[1..], aw, segs[1..]);
    }
  }

  lemma ExtensionAccepts(x: string, seg: string, ext: string)
    requires '{' in x && x != seg && |ext| > 1 && ext[0] == '.' && '.' !in ext[1..]
    ensures Accepts(Lit(x + ext), seg + ext) && Rank(Lit(x + ext), seg + ext) == 1
  {
    LastDot(x, ext);
    LastDot(seg, ext);
    var p, s := x + ext, seg + ext;
    assert p[|x|] == '.' && p[..|x|] == x && s[..|seg|] == seg;
    assert Extension(p) == ext && Extension(s) == ext;
    assert exists i :: 0 <= i < |x| && x[i] == '{' && p[i] == '{';
  }

  lemma TwoSegmentRequest(a: string, b: string)
    requires a != "" && b != "" && '/' !in a && '/' !in b
    ensures RequestSegments("/" + a + "/" + b) == [a, b]
  {
    var path, joined := "/" + a + "/" + b, a + "/" + b;
    assert path[|path| - 1] == b[|b| - 1] && b[|b| - 1] in b;
    assert joined[0] == a[0] && a[0] in a && path[1..] == joined;
    assert TrimRight(path, '/') == path && TrimLeft(path, '/') == TrimLeft(joined, '/') == joined;
    assert [a, b][1..] == [b] && Join([a, b], '/') == joined;
    SplitOfJoin([a, b], '/');
  }

  // The request may be answered by the wildcard and by the exact route, and the wildcard is lexicographically worse.
  ghost predicate EitherAnswers(x: Token, y: Token, segs: seq<string>, next: string, wildcard: Route, exact: Route,
                                names: map<Path, string>, m: PathMatch, m': PathMatch) {
    var slots, long := TwoRoutes(x, y, next, wildcard, exact), [y, Lit(next)];
    IsLookup(slots, names, segs, Some(m)) && m.resource == wildcard.resource && m.remaining == next &&
    IsLookup(slots, names, segs, Some(m')) && m'.resource == exact.resource && m'.remaining == "" &&
    Fits([x], true, segs) && Fits(long, false, segs) && !LexLeq(Ranks([x], true, segs), Ranks(long, false, segs))
  }

  lemma RivalsAnswer(x: Token, y: Token, seg: string, next: string, wildcard: Route, exact: Route,
                     names: map<Path, string>)
    returns (m: PathMatch, m': PathMatch)
    requires Rivals(x, y, seg)
    ensures EitherAnswers(x, y, [seg, next], next, wildcard, exact, names, m, m')
  {
    var slots, segs, long := TwoRoutes(x, y, next, wildcard, exact), [seg, next], [y, Lit(next)];
    BothBest(x, y, seg, next, wildcard, exact);
    RivalFits(x, y, seg, next);
    WalkOne(x);
    WalkTwo(y, Lit(next));
    var a := AnswerOf(slots, names, segs, [x], true);
    var b := AnswerOf(slots, names, segs, long, false);
    m, m' := a.value, b.value;
    assert segs[1..] == [next] && segs[2..] == [];
    assert [1, 3][1..] == [3] && [1, 0, 0][1..] == [0, 0];
  }

  /**
   A wildcard can win over an exact route. Below two patterns x and y of one extension, say {x}.png and {y}.png, let
   there be a wildcard and a route to next: then any other name with that extension followed by next, say t.png/foo,
   may be answered by either.
   */
  lemma WorseRouteWins(x: string, y: string, t: string, ext: string, next: string, wildcard: Route, exact: Route,
                       names: map<Path, string>) returns (m: PathMatch, m': PathMatch)
    requires '{' in x && '{' in y && x != y && t !in {x, y} && t != "" && '/' !in t
    requires |ext| > 1 && ext[0] == '.' && '.' !in ext[1..] && '/' !in ext && next != "" && '/' !in next
    ensures EitherAnswers(Lit(x + ext), Lit(y + ext), RequestSegments("/" + (t + ext) + "/" + next), next,
                          wildcard, exact, names, m, m')
  {
    ExtensionAccepts(x, t, ext);
    ExtensionAccepts(y, t, ext);
    assert (x + ext)[..|x + ext| - |ext|] == x && (y + ext)[..|y + ext| - |ext|] == y;
    TwoSegmentRequest(t + ext, next);
    m, m' := RivalsAnswer(Lit(x + ext), Lit(y + ext), t + ext, next, wildcard, exact, names);
  }
}
