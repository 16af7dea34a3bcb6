/**
 The gateway's route index: a mutable trie keyed by path segments, searched with backtracking.
 The specification is flat: a map from slot to route, and a relation saying which matching slot wins.
 */
module RouteTable {
  import opened GoStrings

  datatype Resource = Resource(path: string, methods: seq<string>, sourceAlias: string)

  datatype Service = Service(id: string, basePath: string, resources: seq<Resource>)

  datatype Route = Route(service: Service, resource: Resource)

  // One step of a registered path: a literal segment (possibly a pattern such as {y}.png) or {name}.
  datatype Token = Lit(seg: string) | Param

  // A position in the index, reached from the root one token at a time.
  datatype Path = Root | Step(parent: Path, token: Token)

  // A place a route can occupy: the exact end of a path, or a wildcard anchored there.
  datatype Slot = Slot(path: Path, wild: bool)

  datatype PathMatch =
    PathMatch(service: Service, resource: Resource, params: map<string, string>, remaining: string)

  // Positions are closed under going up, and slots and names live at known positions.
  ghost predicate Closed(positions: set<Path>, slots: map<Slot, Route>, names: map<Path, string>) {
    (forall p {:trigger p in positions} :: p in positions && p.Step? ==> p.parent in positions) &&
    (forall s {:trigger s in slots} :: s in slots ==> s.path in positions) &&
    (forall p {:trigger p in names} :: p in names ==> p in positions)
  }

  function Walk(at: Path, tokens: seq<Token>): Path
    decreases |tokens|
  {
    if tokens == [] then at else Walk(Step(at, tokens[0]), tokens[1..])
  }

  predicate IsPathParam(segment: string) {
    HasPrefix(segment, "{") && HasSuffix(segment, "}")
  }

  function ParamName(segment: string): string
    requires IsPathParam(segment)
  {
    assert segment[0] == '{' && segment[|segment| - 1] == '}';
    segment[1..|segment| - 1]
  }

  function Segments(basePath: string, path: string): seq<string> {
    Split(Trim(TrimRight(basePath, '/') + "/" + TrimLeft(path, '/'), '/'), '/')
  }

  function RequestSegments(path: string): seq<string> {
    Split(Trim(path, '/'), '/')
  }

  function TokenOf(seg: string): Token {
    if IsPathParam(seg) then Param else Lit(seg)
  }

  lemma {:induction false} WalkStaysInside(positions: set<Path>, slots: map<Slot, Route>, names: map<Path, string>,
                                           p: Path, rest: seq<Token>)
    requires Closed(positions, slots, names) && Walk(p, rest) in positions
    ensures p in positions
    decreases |rest|
  {
    if rest != [] {
      WalkStaysInside(positions, slots, names, Step(p, rest[0]), rest[1..]);
    }
  }

  // Empty segments are skipped and everything after a "*" segment is ignored.
  function SlotOf(at: Path, segs: seq<string>): Slot
    decreases |segs|
  {
    if segs == [] then Slot(at, false)
    else if segs[0] == "" then SlotOf(at, segs[1..])
    else if segs[0] == "*" then Slot(at, true)
    else SlotOf(Step(at, TokenOf(segs[0])), segs[1..])
  }

  // The param names met along a path; a position keeps the name it was first given.
  function AddNames(names: map<Path, string>, at: Path, segs: seq<string>): map<Path, string>
    decreases |segs|
  {
    if segs == [] then names
    else if segs[0] == "" then AddNames(names, at, segs[1..])
    else if segs[0] == "*" then names
    else if IsPathParam(segs[0]) then
      AddNames(if at in names then names else names[at := ParamName(segs[0])], Step(at, Param), segs[1..])
    else AddNames(names, Step(at, Lit(segs[0])), segs[1..])
  }

  // --- loading many services ---

  // A route together with the segments it is registered under.
  datatype Entry = Entry(segs: seq<string>, route: Route)

  function EntryOf(svc: Service, res: Resource): Entry {
    Entry(Segments(svc.basePath, res.path), Route(svc, res))
  }

  function ServiceEntries(svc: Service, n: nat): seq<Entry>
    requires n <= |svc.resources|
  {
    if n == 0 then [] else ServiceEntries(svc, n - 1) + [EntryOf(svc, svc.resources[n - 1])]
  }

  function AllEntries(services: seq<Service>): seq<Entry> {
    if services == [] then []
    else
      var last := services[|services| - 1];
      AllEntries(services[..|services| - 1]) + ServiceEntries(last, |last.resources|)
  }

  function LoadSlots(slots: map<Slot, Route>, entries: seq<Entry>): map<Slot, Route> {
    if entries == [] then slots
    else
      var last := entries[|entries| - 1];
      LoadSlots(slots, entries[..|entries| - 1])[SlotOf(Root, last.segs) := last.route]
  }

  function LoadNames(names: map<Path, string>, entries: seq<Entry>): map<Path, string> {
    if entries == [] then names
    else AddNames(LoadNames(names, entries[..|entries| - 1]), Root, entries[|entries| - 1].segs)
  }

  lemma LoadOne(slots: map<Slot, Route>, names: map<Path, string>, entries: seq<Entry>, e: Entry)
    ensures LoadSlots(slots, entries + [e]) == LoadSlots(slots, entries)[SlotOf(Root, e.segs) := e.route]
    ensures LoadNames(names, entries + [e]) == AddNames(LoadNames(names, entries), Root, e.segs)
  {
    assert (entries + [e])[..|entries|] == entries;
  }

  lemma {:induction false} LoadMore(slots: map<Slot, Route>, names: map<Path, string>,
                                    first: seq<Entry>, more: seq<Entry>)
    ensures LoadSlots(slots, first + more) == LoadSlots(LoadSlots(slots, first), more)
    ensures LoadNames(names, first + more) == LoadNames(LoadNames(names, first), more)
  {
    if more == [] {
      assert first + more == first;
    } else {
      var last := |more| - 1;
      LoadMore(slots, names, first, more[..last]);
      assert (first + more)[..|first + more| - 1] == first + more[..last];
    }
  }

  // p is `at` or lies below it.
  predicate Under(at: Path, p: Path) {
    p == at || (p.Step? && Under(at, p.parent))
  }

  // The first token on the way from `at` down to p.
  function Next(at: Path, p: Path): Token
    requires Under(at, p) && p != at
  {
    if p.parent == at then p.token else Next(at, p.parent)
  }

  lemma {:induction false} NextUnder(at: Path, p: Path, t: Token)
    ensures Under(Step(at, t), p) <==> Under(at, p) && p != at && Next(at, p) == t
    ensures !Under(Step(at, t), at)
  {
    NotAboveItself(at, t);
    if p.Step? && p.parent != at {
      NextUnder(at, p.parent, t);
    }
  }

  function Depth(p: Path): nat {
    if p.Root? then 0 else Depth(p.parent) + 1
  }

  lemma {:induction false} WalkDepth(at: Path, ts: seq<Token>)
    ensures Depth(Walk(at, ts)) == Depth(at) + |ts|
    decreases |ts|
  {
    if ts != [] {
      WalkDepth(Step(at, ts[0]), ts[1..]);
    }
  }

  lemma {:induction false} WalkSnoc(at: Path, ts: seq<Token>, t: Token)
    ensures Walk(at, ts + [t]) == Step(Walk(at, ts), t)
    decreases |ts|
  {
    if ts != [] {
      WalkSnoc(Step(at, ts[0]), ts[1..], t);
      assert (ts + [t])[1..] == ts[1..] + [t];
    }
  }

  lemma {:induction false} WalkInjective(at: Path, a: seq<Token>, b: seq<Token>)
    requires Walk(at, a) == Walk(at, b)
    ensures a == b
    decreases |a|
  {
    WalkDepth(at, a);
    WalkDepth(at, b);
    if a != [] {
      var a', b' := a[..|a| - 1], b[..|b| - 1];
      WalkSnoc(at, a', a[|a| - 1]);
      WalkSnoc(at, b', b[|b| - 1]);
      assert a == a' + [a[|a| - 1]] && b == b' + [b[|b| - 1]];
      WalkInjective(at, a', b');
    }
  }

  lemma {:induction false} UnderIsDeeper(at: Path, p: Path)
    requires Under(at, p)
    ensures Depth(at) <= Depth(p)
  {
    if p != at {
      UnderIsDeeper(at, p.parent);
    }
  }

  lemma NotAboveItself(at: Path, t: Token)
    ensures !Under(Step(at, t), at)
  {
    if Under(Step(at, t), at) {
      UnderIsDeeper(Step(at, t), at);
    }
  }

  // The position next below `at` on the way to p.
  lemma {:induction false} NextInside(positions: set<Path>, slots: map<Slot, Route>, names: map<Path, string>,
                                      at: Path, p: Path)
    requires Closed(positions, slots, names) && p in positions && Under(at, p) && p != at
    ensures Step(at, Next(at, p)) in positions
  {
    if p.parent != at {
      NextInside(positions, slots, names, at, p.parent);
    }
  }

  // The slots left when service `id` is removed at `at` itself and below it through the given tokens.
  function PrunedVia(slots: map<Slot, Route>, at: Path, id: string, done: set<Token>): map<Slot, Route> {
    map s | s in slots &&
      !(slots[s].service.id == id && Under(at, s.path) && (s.path == at || Next(at, s.path) in done))
      :: slots[s]
  }

  function Pruned(slots: map<Slot, Route>, at: Path, id: string): map<Slot, Route> {
    map s | s in slots && !(slots[s].service.id == id && Under(at, s.path)) :: slots[s]
  }

  function Drop(slots: map<Slot, Route>, s: Slot, id: string): map<Slot, Route> {
    if s in slots && slots[s].service.id == id then slots - {s} else slots
  }

  lemma DropBoth(slots: map<Slot, Route>, at: Path, id: string)
    ensures Drop(Drop(slots, Slot(at, false), id), Slot(at, true), id) == PrunedVia(slots, at, id, {})
  {
    assert forall s: Slot :: s.path == at ==> s == Slot(at, false) || s == Slot(at, true);
  }

  lemma PruneOneMore(slots: map<Slot, Route>, at: Path, id: string, done: set<Token>, t: Token)
    ensures Pruned(PrunedVia(slots, at, id, done), Step(at, t), id) == PrunedVia(slots, at, id, done + {t})
  {
    forall s | s in slots
      ensures Under(Step(at, t), s.path) <==> Under(at, s.path) && s.path != at && Next(at, s.path) == t
    {
      NextUnder(at, s.path, t);
    }
  }

  lemma PruneComplete(positions: set<Path>, slots: map<Slot, Route>, names: map<Path, string>,
                      at: Path, id: string, done: set<Token>)
    requires Closed(positions, slots, names)
    requires forall t :: Step(at, t) in positions ==> t in done
    ensures PrunedVia(slots, at, id, done) == Pruned(slots, at, id)
  {
    forall s | s in slots && Under(at, s.path) && s.path != at ensures Next(at, s.path) in done {
      NextInside(positions, slots, names, at, s.path);
    }
  }

  lemma {:induction false} RootIsAbove(p: Path)
    ensures Under(Root, p)
  {
    if p.Step? {
      RootIsAbove(p.parent);
    }
  }

  // All slots except those of service `id`.
  function Without(slots: map<Slot, Route>, id: string): map<Slot, Route> {
    map s | s in slots && slots[s].service.id != id :: slots[s]
  }

  // --- matching ---

  predicate IsPattern(lit: string) {
    '{' in lit && '.' in lit
  }

  // The text from the last dot on, or "".
  function Extension(s: string): string {
    var i := LastIndex(s, '.');
    if i == -1 then "" else s[i..]
  }

  predicate MatchesPattern(segment: string, pattern: string) {
    '{' in pattern && Extension(segment) != "" && Extension(segment) == Extension(pattern)
  }

  // The first capture of \{([^}]+)\}, or "_".
  function PatternParamName(pattern: string): string {
    if pattern == "" then "_"
    else if pattern[0] != '{' then PatternParamName(pattern[1..])
    else
      var j := IndexOfChar(pattern, '}');
      if j >= 2 then pattern[1..j] else PatternParamName(pattern[1..])
  }

  function PatternParamValue(segment: string): string {
    var i := LastIndex(segment, '.');
    if i == -1 then segment else segment[..i]
  }

  predicate Accepts(t: Token, seg: string) {
    match t
    case Lit(s) => s == seg || (IsPattern(s) && MatchesPattern(seg, s))
    case Param => true
  }

  // Exact beats pattern beats param.
  function Rank(t: Token, seg: string): nat {
    match t
    case Lit(s) => if s == seg then 0 else 1
    case Param => 2
  }

  predicate Fits(path: seq<Token>, wild: bool, segs: seq<string>) {
    if path == [] then wild || segs == []
    else segs != [] && Accepts(path[0], segs[0]) && Fits(path[1..], wild, segs[1..])
  }

  // Below position `at`, the path `rest` carries a route that matches the segments still to be read.
  predicate Candidate(slots: map<Slot, Route>, at: Path, segs: seq<string>, rest: seq<Token>, wild: bool) {
    Slot(Walk(at, rest), wild) in slots && Fits(rest, wild, segs)
  }

  /**
   Segment-by-segment priority between two matching paths: exact, then pattern, then param, then
   wildcard; at the end of the segments, exact before wildcard. Two different patterns accepting one
   segment have the same priority, and nothing is said of what lies below them.
   */
  predicate NotWorse(a: seq<Token>, aWild: bool, b: seq<Token>, bWild: bool, segs: seq<string>)
    requires Fits(a, aWild, segs) && Fits(b, bWild, segs)
  {
    if a == [] then !aWild || (b == [] && bWild)
    else if b == [] then bWild
    else
      var ra, rb := Rank(a[0], segs[0]), Rank(b[0], segs[0]);
      ra < rb || (ra == rb && (a[0] == b[0] ==> NotWorse(a[1..], aWild, b[1..], bWild, segs[1..])))
  }

  ghost predicate Best(slots: map<Slot, Route>, at: Path, segs: seq<string>, rest: seq<Token>, wild: bool) {
    Candidate(slots, at, segs, rest, wild) &&
    forall other, w :: Candidate(slots, at, segs, other, w) ==> NotWorse(rest, wild, other, w, segs)
  }

  // The parameters bound while walking down `rest` from position `at`.
  function Bind(names: map<Path, string>, at: Path, rest: seq<Token>, segs: seq<string>,
                params: map<string, string>): map<string, string>
    decreases |rest|
  {
    if rest == [] || segs == [] then params
    else
      var params' :=
        match rest[0]
        case Param =>
          var name := if at in names then names[at] else "";
          params[(if name == "" then "_" else name) := segs[0]]
        case Lit(s) =>
          if s == segs[0] then params else params[PatternParamName(s) := PatternParamValue(segs[0])];
      Bind(names, Step(at, rest[0]), rest[1..], segs[1..], params')
  }

  function MatchOf(slots: map<Slot, Route>, names: map<Path, string>, at: Path, segs: seq<string>,
                   params: map<string, string>, rest: seq<Token>, wild: bool): PathMatch
    requires Candidate(slots, at, segs, rest, wild)
  {
    FitsLength(rest, wild, segs);
    var route := slots[Slot(Walk(at, rest), wild)];
    PathMatch(route.service, route.resource, Bind(names, at, rest, segs, params), Join(segs[|rest|..], '/'))
  }

  lemma FitsLength(path: seq<Token>, wild: bool, segs: seq<string>)
    requires Fits(path, wild, segs)
    ensures |path| <= |segs| && (!wild ==> |path| == |segs|)
  {
  }

  // Nothing below `at` matches.
  ghost predicate Barren(slots: map<Slot, Route>, at: Path, segs: seq<string>) {
    forall rest, wild :: !Candidate(slots, at, segs, rest, wild)
  }

  // Nothing below `at` that goes on with token t matches.
  ghost predicate DeadVia(slots: map<Slot, Route>, at: Path, segs: seq<string>, t: Token)
    requires segs != []
  {
    Accepts(t, segs[0]) ==> Barren(slots, Step(at, t), segs[1..])
  }

  lemma CandidateStep(slots: map<Slot, Route>, at: Path, segs: seq<string>, rest: seq<Token>, wild: bool)
    requires rest != [] && Candidate(slots, at, segs, rest, wild)
    ensures segs != [] && Accepts(rest[0], segs[0]) && Candidate(slots, Step(at, rest[0]), segs[1..], rest[1..], wild)
  {
  }

  lemma BestStep(slots: map<Slot, Route>, at: Path, segs: seq<string>, t: Token, rest: seq<Token>, wild: bool)
    requires segs != [] && Accepts(t, segs[0]) && Best(slots, Step(at, t), segs[1..], rest, wild)
    requires forall u :: Rank(u, segs[0]) < Rank(t, segs[0]) ==> DeadVia(slots, at, segs, u)
    ensures Best(slots, at, segs, [t] + rest, wild)
  {
    var full := [t] + rest;
    assert full[0] == t && full[1..] == rest;
    assert Candidate(slots, at, segs, full, wild);
    forall other, w | Candidate(slots, at, segs, other, w) ensures NotWorse(full, wild, other, w, segs) {
      if other != [] {
        CandidateStep(slots, at, segs, other, w);
        assert !DeadVia(slots, at, segs, other[0]);
      }
    }
  }

  lemma MatchStep(slots: map<Slot, Route>, names: map<Path, string>, at: Path, segs: seq<string>, t: Token,
                  params: map<string, string>, params': map<string, string>, rest: seq<Token>, wild: bool)
    requires segs != [] && Accepts(t, segs[0]) && Candidate(slots, Step(at, t), segs[1..], rest, wild)
    requires Bind(names, at, [t], segs, params) == params'
    ensures Candidate(slots, at, segs, [t] + rest, wild)
    ensures MatchOf(slots, names, at, segs, params, [t] + rest, wild)
         == MatchOf(slots, names, Step(at, t), segs[1..], params', rest, wild)
  {
    var full := [t] + rest;
    assert full[0] == t && full[1..] == rest && [t][1..] == [];
    FitsLength(rest, wild, segs[1..]);
    assert segs[|full|..] == segs[1..][|rest|..];
  }

  /**
   A correct answer to a search below `at`: None exactly when nothing there matches, otherwise a best
   match, its bound parameters and the segments it left over.
   */
  ghost predicate Answer(slots: map<Slot, Route>, names: map<Path, string>, at: Path, segs: seq<string>,
                         params: map<string, string>, m: Option<PathMatch>, rest: seq<Token>, wild: bool)
  {
    match m
    case None => Barren(slots, at, segs)
    case Some(found) =>
      Best(slots, at, segs, rest, wild) && found == MatchOf(slots, names, at, segs, params, rest, wild)
  }

  /** A correct answer to a lookup of these segments from the root. */
  ghost predicate IsLookup(slots: map<Slot, Route>, names: map<Path, string>, segs: seq<string>, m: Option<PathMatch>) {
    exists rest, wild :: Answer(slots, names, Root, segs, map[], m, rest, wild)
  }

  lemma AnswerStep(slots: map<Slot, Route>, names: map<Path, string>, at: Path, segs: seq<string>, t: Token,
                   params: map<string, string>, params': map<string, string>,
                   m: Option<PathMatch>, rest: seq<Token>, wild: bool)
    requires segs != [] && Accepts(t, segs[0]) && Bind(names, at, [t], segs, params) == params'
    requires m.Some? && Answer(slots, names, Step(at, t), segs[1..], params', m, rest, wild)
    requires forall u :: Rank(u, segs[0]) < Rank(t, segs[0]) ==> DeadVia(slots, at, segs, u)
    ensures Answer(slots, names, at, segs, params, m, [t] + rest, wild)
  {
    BestStep(slots, at, segs, t, rest, wild);
    MatchStep(slots, names, at, segs, t, params, params', rest, wild);
  }

  // A pattern child gives the answer when the exact child gives none.
  lemma AnswerPattern(slots: map<Slot, Route>, names: map<Path, string>, at: Path, segs: seq<string>, child: string,
                      params: map<string, string>, m: Option<PathMatch>, rest: seq<Token>, wild: bool)
    requires segs != [] && IsPattern(child) && MatchesPattern(segs[0], child) && DeadVia(slots, at, segs, Lit(segs[0]))
    requires
      var params' := params[PatternParamName(child) := PatternParamValue(segs[0])];
      m.Some? && Answer(slots, names, Step(at, Lit(child)), segs[1..], params', m, rest, wild)
    requires child != segs[0]
    ensures Answer(slots, names, at, segs, params, m, [Lit(child)] + rest, wild)
  {
    var params' := params[PatternParamName(child) := PatternParamValue(segs[0])];
    forall u | Rank(u, segs[0]) < Rank(Lit(child), segs[0]) ensures DeadVia(slots, at, segs, u) {
      assert u == Lit(segs[0]);
    }
    AnswerStep(slots, names, at, segs, Lit(child), params, params', m, rest, wild);
  }

  lemma BestWildcard(slots: map<Slot, Route>, at: Path, segs: seq<string>)
    requires segs != [] && (forall t :: DeadVia(slots, at, segs, t))
    ensures Slot(at, true) in slots ==> Best(slots, at, segs, [], true)
    ensures Slot(at, true) !in slots ==> Barren(slots, at, segs)
  {
    forall rest, wild | rest != [] ensures !Candidate(slots, at, segs, rest, wild) {
      assert DeadVia(slots, at, segs, rest[0]);
      if Candidate(slots, at, segs, rest, wild) {
        CandidateStep(slots, at, segs, rest, wild);
      }
    }
  }

  lemma BestEnd(slots: map<Slot, Route>, at: Path)
    ensures Slot(at, false) in slots ==> Best(slots, at, [], [], false)
    ensures Slot(at, false) !in slots && Slot(at, true) in slots ==> Best(slots, at, [], [], true)
    ensures Slot(at, false) !in slots && Slot(at, true) !in slots ==> Barren(slots, at, [])
  {
  }
}

/** `TrieNode` and `PathTrie` as the gateway mutates them, proved against `RouteTable`. */
module RouteIndex {
  import opened GoStrings
  import opened RouteTable

  class TrieNode {
    ghost const position: Path
    var children: map<string, TrieNode>
    var paramChild: TrieNode?
    var paramName: string
    var isEnd: bool
    var service: Option<Service>
    var resource: Option<Resource>
    var hasWildcard: bool
    var wildcardService: Option<Service>
    var wildcardResource: Option<Resource>

    constructor (ghost position: Path)
      ensures this.position == position
      ensures children == map[] && paramChild == null && paramName == "" && !isEnd && !hasWildcard
    {
      this.position := position;
      children, paramChild, paramName := map[], null, "";
      isEnd, service, resource := false, None, None;
      hasWildcard, wildcardService, wildcardResource := false, None, None;
    }

    ghost function Child(t: Token): TrieNode?
      reads `children, `paramChild
    {
      match t
      case Lit(s) => if s in children then children[s] else null
      case Param => paramChild
    }

    // The edges out of this node lead to the nodes one token further on, and nowhere else.
    ghost predicate Linked(nodes: map<Path, TrieNode>)
      reads `children, `paramChild
    {
      forall t {:trigger Child(t)} ::
        Child(t) == if Step(position, t) in nodes then nodes[Step(position, t)] else null
    }

    // What the fields say about this position.
    ghost function Says(): Facts
      reads this
    {
      Facts(if paramChild == null then None else Some(paramName),
            if isEnd then Some((service, resource)) else None,
            if hasWildcard then Some((wildcardService, wildcardResource)) else None)
    }

    ghost predicate Sound(nodes: map<Path, TrieNode>, slots: map<Slot, Route>, names: map<Path, string>)
      reads this
    {
      Linked(nodes) && Says() == FactsAt(position, slots, names)
    }

    // Changes at another position do not concern this node.
    lemma StaysSound(nodes: map<Path, TrieNode>, slots: map<Slot, Route>, names: map<Path, string>,
                     p: Path, t: Token, child: TrieNode, name: string)
      requires Sound(nodes, slots, names) && p != position
      ensures Sound(nodes[Step(p, t) := child], slots, names)
      ensures Sound(nodes[Step(p, t) := child], slots, names[p := name])
    {
    }
  }

  // A position's param name and the routes of its two slots.
  datatype Facts = Facts(param: Option<string>,
                         exact: Option<(Option<Service>, Option<Resource>)>,
                         wild: Option<(Option<Service>, Option<Resource>)>)

  ghost function Held(slots: map<Slot, Route>, s: Slot): Option<(Option<Service>, Option<Resource>)> {
    if s in slots then Some((Some(slots[s].service), Some(slots[s].resource))) else None
  }

  ghost function FactsAt(p: Path, slots: map<Slot, Route>, names: map<Path, string>): Facts {
    Facts(if p in names then Some(names[p]) else None, Held(slots, Slot(p, false)), Held(slots, Slot(p, true)))
  }

  class PathTrie {
    var root: TrieNode

    // Every node by its position, and what the whole index means.
    ghost var nodes: map<Path, TrieNode>
    ghost var slots: map<Slot, Route>
    ghost var names: map<Path, string>
    ghost var repr: set<TrieNode>

    ghost predicate Valid()
      reads this, repr
    {
      Closed(nodes.Keys, slots, names) && Has(root) && root.position == Root &&
      (forall p {:trigger nodes[p]} :: p in nodes ==> nodes[p] in repr && nodes[p].position == p) &&
      (forall p {:trigger Stored(p)} :: p in nodes ==> Stored(p))
    }

    // The node at position p holds what the index says it holds.
    ghost predicate Stored(p: Path)
      requires p in nodes
      reads this, repr
    {
      nodes[p] in repr && nodes[p].Sound(nodes, slots, names)
    }

    ghost predicate Has(node: TrieNode)
      reads this
    {
      node.position in nodes && nodes[node.position] == node
    }

    constructor ()
      ensures Valid() && fresh(repr)
      ensures slots == map[] && names == map[]
    {
      root := new TrieNode(Root);
      new;
      nodes, slots, names, repr := map[Root := root], map[], map[], {root};
    }

    // Hangs a new, empty node under `node` for a literal segment.
    method AddLiteral(node: TrieNode, seg: string) returns (child: TrieNode)
      requires Valid() && Has(node) && seg !in node.children
      modifies this`nodes, this`repr, node`children
      ensures Valid() && Has(child) && fresh(child) && repr == old(repr) + {child}
      ensures child.position == Step(node.position, Lit(seg))
    {
      ghost var p, t := node.position, Lit(seg);
      assert Stored(p) && node.Child(t) == null;
      child := new TrieNode(Step(p, t));
      node.children := node.children[seg := child];
      nodes, repr := nodes[Step(p, t) := child], repr + {child};
      assert Stored(Step(p, t));
      assert nodes.Keys == old(nodes).Keys + {Step(p, t)};
      assert node.Linked(nodes) by {
        forall u ensures node.Child(u) == if Step(p, u) in nodes then nodes[Step(p, u)] else null {
          assert u != t ==> node.Child(u) == old(node.Child(u));
        }
      }
      assert Stored(p);
      forall q | q in old(nodes) && q != p ensures Stored(q) {
        ghost var n := nodes[q];
        assert n.position == q && n != node && n != child;
        assert old(Stored(q));
        assert n.Sound(old(nodes), slots, old(names));
        n.StaysSound(old(nodes), slots, old(names), p, t, child, "");
      }
    }

    // Hangs a new, empty node under `node` for a path param; the caller names it.
    method AddParam(node: TrieNode) returns (child: TrieNode)
      requires Valid() && Has(node) && node.paramChild == null
      modifies this`nodes, this`names, this`repr, node`paramChild
      ensures Valid() && Has(child) && fresh(child) && repr == old(repr) + {child}
      ensures child.position == Step(node.position, Param)
      ensures names == old(names)[node.position := node.paramName] && node.paramChild != null && Has(node)
    {
      ghost var p := node.position;
      assert Stored(p) && node.Child(Param) == null;
      child := new TrieNode(Step(p, Param));
      node.paramChild := child;
      nodes, names, repr := nodes[Step(p, Param) := child], names[p := node.paramName], repr + {child};
      assert Stored(Step(p, Param));
      assert node.Linked(nodes) by {
        assert forall u :: u != Param ==> node.Child(u) == old(node.Child(u));
      }
      assert Stored(p);
      forall q | q in old(nodes) && q != p ensures Stored(q) {
        ghost var n := nodes[q];
        assert n.position == q && n != node && n != child;
        assert old(Stored(q));
        assert n.Sound(old(nodes), slots, old(names));
        n.StaysSound(old(nodes), slots, old(names), p, Param, child, node.paramName);
      }
    }

    method SetParamName(node: TrieNode, name: string)
      requires Valid() && Has(node) && node.paramChild != null
      modifies this`names, node`paramName
      ensures Valid() && names == old(names)[node.position := name]
    {
      assert Stored(node.position);
      node.paramName := name;
      names := names[node.position := name];
      assert Stored(node.position);
      forall q | q in nodes && q != node.position ensures Stored(q) {
        assert old(Stored(q));
        assert nodes[q].Sound(nodes, slots, old(names));
      }
    }

    method SetExact(node: TrieNode, svc: Service, res: Resource)
      requires Valid() && Has(node)
      modifies this`slots, node`isEnd, node`service, node`resource
      ensures Valid() && slots == old(slots)[Slot(node.position, false) := Route(svc, res)]
    {
      assert Stored(node.position);
      node.isEnd, node.service, node.resource := true, Some(svc), Some(res);
      slots := slots[Slot(node.position, false) := Route(svc, res)];
      assert Stored(node.position);
      forall q | q in nodes && q != node.position ensures Stored(q) {
        assert old(Stored(q));
        assert nodes[q].Sound(nodes, old(slots), names);
      }
    }

    method SetWildcard(node: TrieNode, svc: Service, res: Resource)
      requires Valid() && Has(node)
      modifies this`slots, node`hasWildcard, node`wildcardService, node`wildcardResource
      ensures Valid() && slots == old(slots)[Slot(node.position, true) := Route(svc, res)]
    {
      assert Stored(node.position);
      node.hasWildcard, node.wildcardService, node.wildcardResource := true, Some(svc), Some(res);
      slots := slots[Slot(node.position, true) := Route(svc, res)];
      assert Stored(node.position);
      forall q | q in nodes && q != node.position ensures Stored(q) {
        assert old(Stored(q));
        assert nodes[q].Sound(nodes, old(slots), names);
      }
    }

    lemma MissingIsBarren(p: Path, segs: seq<string>)
      requires Valid() && p !in nodes
      ensures Barren(slots, p, segs)
    {
      forall rest, wild ensures !Candidate(slots, p, segs, rest, wild) {
        if Candidate(slots, p, segs, rest, wild) {
          WalkStaysInside(nodes.Keys, slots, names, p, rest);
        }
      }
    }

    lemma Edge(node: TrieNode, t: Token)
      requires Valid() && Has(node)
      ensures
        var child := node.Child(t);
        if child == null then Step(node.position, t) !in nodes
        else child.position == Step(node.position, t) && Has(child)
    {
      assert Stored(node.position);
    }

    // One step down for a segment, creating the node when it is missing.
    method Descend(node: TrieNode, seg: string) returns (child: TrieNode)
      requires Valid() && Has(node)
      modifies this`nodes, this`names, this`repr, node
      ensures Valid() && Has(child) && fresh(repr - old(repr))
      ensures child.position == Step(node.position, TokenOf(seg))
      ensures names == if IsPathParam(seg) && node.position !in old(names)
                       then old(names)[node.position := ParamName(seg)] else old(names)
    {
      Edge(node, TokenOf(seg));
      if IsPathParam(seg) {
        assert Stored(node.position);
        if node.paramChild == null {
          child := AddParam(node);
          SetParamName(node, ParamName(seg));
        } else {
          child := node.paramChild;
        }
      } else {
        if seg !in node.children {
          child := AddLiteral(node, seg);
        } else {
          child := node.children[seg];
        }
      }
    }

    method InsertSegments(segments: seq<string>, svc: Service, res: Resource)
      requires Valid()
      modifies this`nodes, this`slots, this`names, this`repr, repr
      ensures Valid() && fresh(repr - old(repr))
      ensures slots == old(slots)[SlotOf(Root, segments) := Route(svc, res)]
      ensures names == AddNames(old(names), Root, segments)
    {
      var current := root;
      for i := 0 to |segments|
        invariant Valid() && Has(current) && fresh(repr - old(repr))
        invariant slots == old(slots)
        invariant SlotOf(current.position, segments[i..]) == SlotOf(Root, segments)
        invariant AddNames(names, current.position, segments[i..]) == AddNames(old(names), Root, segments)
      {
        var seg := segments[i];
        assert segments[i..][1..] == segments[i + 1..];
        if seg == "" {
          continue;
        }
        if seg == "*" {
          SetWildcard(current, svc, res);
          return;
        }
        current := Descend(current, seg);
      }
      SetExact(current, svc, res);
    }

    /** Puts one route in its slot; no other slot changes. */
    method InsertResource(svc: Service, res: Resource)
      requires Valid()
      modifies this`nodes, this`slots, this`names, this`repr, repr
      ensures Valid() && fresh(repr - old(repr))
      ensures slots == LoadSlots(old(slots), [EntryOf(svc, res)])
      ensures names == LoadNames(old(names), [EntryOf(svc, res)])
    {
      LoadOne(slots, names, [], EntryOf(svc, res));
      InsertSegments(Segments(svc.basePath, res.path), svc, res);
      assert [] + [EntryOf(svc, res)] == [EntryOf(svc, res)];
    }

    // One pattern child.
    method TryPattern(node: TrieNode, childSeg: string, segments: seq<string>, idx: nat, params: map<string, string>)
      returns (m: Option<PathMatch>, ghost rest: seq<Token>, ghost wild: bool)
      requires Valid() && Has(node) && idx < |segments| && childSeg in node.children
      requires DeadVia(slots, node.position, segments[idx..], Lit(segments[idx]))
      ensures m == None ==> DeadVia(slots, node.position, segments[idx..], Lit(childSeg))
      ensures m.Some? ==> Answer(slots, names, node.position, segments[idx..], params, m, rest, wild)
      decreases |segments| - idx, 0
    {
      var seg := segments[idx];
      ghost var at, segs := node.position, segments[idx..];
      assert segs[0] == seg && segs[1..] == segments[idx + 1..];
      if !IsPattern(childSeg) || !MatchesPattern(seg, childSeg) {
        return None, [], false;
      }
      Edge(node, Lit(childSeg));
      var newParams := params[PatternParamName(childSeg) := PatternParamValue(seg)];
      m, rest, wild := Search(node.children[childSeg], segments, idx + 1, newParams);
      if m.Some? {
        AnswerPattern(slots, names, at, segs, childSeg, params, m, rest, wild);
        rest := [Lit(childSeg)] + rest;
      }
    }

    // Case 2 of the search: the pattern children, {y}.png for example, in no particular order.
    method SearchPatterns(node: TrieNode, segments: seq<string>, idx: nat, params: map<string, string>)
      returns (m: Option<PathMatch>, ghost rest: seq<Token>, ghost wild: bool)
      requires Valid() && Has(node) && idx < |segments|
      requires DeadVia(slots, node.position, segments[idx..], Lit(segments[idx]))
      ensures m == None ==> forall s :: DeadVia(slots, node.position, segments[idx..], Lit(s))
      ensures m.Some? ==> Answer(slots, names, node.position, segments[idx..], params, m, rest, wild)
      decreases |segments| - idx, 1
    {
      ghost var at, segs := node.position, segments[idx..];
      assert segs[0] == segments[idx] && segs[1..] == segments[idx + 1..];
      rest, wild := [], false;
      var todo := node.children.Keys;
      while todo != {}
        invariant todo <= node.children.Keys
        invariant forall s :: s in node.children && s !in todo ==> DeadVia(slots, at, segs, Lit(s))
        decreases todo
      {
        var childSeg :| childSeg in todo;
        m, rest, wild := TryPattern(node, childSeg, segments, idx, params);
        if m.Some? {
          return;
        }
        todo := todo - {childSeg};
      }
      forall s ensures DeadVia(slots, at, segs, Lit(s)) {
        if s !in node.children {
          Edge(node, Lit(s));
          MissingIsBarren(Step(at, Lit(s)), segs[1..]);
        }
      }
      return None, [], false;
    }

    method Search(node: TrieNode, segments: seq<string>, idx: nat, params: map<string, string>)
      returns (m: Option<PathMatch>, ghost rest: seq<Token>, ghost wild: bool)
      requires Valid() && Has(node) && idx <= |segments|
      ensures Answer(slots, names, node.position, segments[idx..], params, m, rest, wild)
      decreases |segments| - idx, 2
    {
      ghost var at := node.position;
      assert Stored(at);
      rest, wild := [], false;
      if idx >= |segments| {
        assert segments[idx..] == [];
        BestEnd(slots, at);
        if node.isEnd {
          return Some(PathMatch(node.service.value, node.resource.value, params, "")), [], false;
        }
        if node.hasWildcard {
          return Some(PathMatch(node.wildcardService.value, node.wildcardResource.value, params, "")), [], true;
        }
        return None, [], false;
      }
      var seg := segments[idx];
      ghost var segs := segments[idx..];
      assert segs[0] == seg && segs[1..] == segments[idx + 1..];

      // exact match, highest priority
      Edge(node, Lit(seg));
      if seg in node.children {
        m, rest, wild := Search(node.children[seg], segments, idx + 1, params);
        if m.Some? {
          AnswerStep(slots, names, at, segs, Lit(seg), params, params, m, rest, wild);
          return m, [Lit(seg)] + rest, wild;
        }
      } else {
        MissingIsBarren(Step(at, Lit(seg)), segs[1..]);
      }

      // pattern match
      m, rest, wild := SearchPatterns(node, segments, idx, params);
      if m == None {
        m, rest, wild := SearchFallback(node, segments, idx, params);
      }
    }

    // Cases 3 and 4 of the search: the path param, then the wildcard anchored at this node.
    method SearchFallback(node: TrieNode, segments: seq<string>, idx: nat, params: map<string, string>)
      returns (m: Option<PathMatch>, ghost rest: seq<Token>, ghost wild: bool)
      requires Valid() && Has(node) && idx < |segments|
      requires forall s :: DeadVia(slots, node.position, segments[idx..], Lit(s))
      ensures Answer(slots, names, node.position, segments[idx..], params, m, rest, wild)
      decreases |segments| - idx, 0
    {
      var seg := segments[idx];
      ghost var at, segs := node.position, segments[idx..];
      assert segs[0] == seg && segs[1..] == segments[idx + 1..];
      assert Stored(at);
      assert forall u :: Rank(u, seg) < 2 ==> DeadVia(slots, at, segs, u) by {
        forall u | Rank(u, seg) < 2 ensures DeadVia(slots, at, segs, u) {
          assert DeadVia(slots, at, segs, Lit(u.seg));
        }
      }
      Edge(node, Param);
      if node.paramChild != null {
        var key := if node.paramName == "" then "_" else node.paramName;
        var newParams := params[key := seg];
        m, rest, wild := Search(node.paramChild, segments, idx + 1, newParams);
        if m.Some? {
          AnswerStep(slots, names, at, segs, Param, params, newParams, m, rest, wild);
          return m, [Param] + rest, wild;
        }
      } else {
        MissingIsBarren(Step(at, Param), segs[1..]);
      }
      forall t ensures DeadVia(slots, at, segs, t) {
        if t.Lit? { assert DeadVia(slots, at, segs, Lit(t.seg)); }
      }
      BestWildcard(slots, at, segs);
      if node.hasWildcard {
        return Some(PathMatch(node.wildcardService.value, node.wildcardResource.value, params,
                              Join(segments[idx..], '/'))), [], true;
      }
      return None, [], false;
    }

    /**
     The best match for a request path, or None exactly when no registered route matches it.
     */
    method FindBestMatch(requestPath: string) returns (m: Option<PathMatch>)
      requires Valid()
      ensures IsLookup(slots, names, RequestSegments(requestPath), m)
    {
      var segments := Split(Trim(requestPath, '/'), '/');
      assert Stored(Root);
      ghost var rest, wild;
      m, rest, wild := Search(root, segments, 0, map[]);
      assert segments[0..] == segments;
    }

    method ClearExact(node: TrieNode, serviceID: string)
      requires Valid() && Has(node)
      modifies this`slots, node`isEnd, node`service, node`resource
      ensures Valid() && slots == Drop(old(slots), Slot(node.position, false), serviceID)
    {
      assert Stored(node.position);
      if node.isEnd && node.service.Some? && node.service.value.id == serviceID {
        node.isEnd, node.service, node.resource := false, None, None;
        slots := slots - {Slot(node.position, false)};
        assert Stored(node.position);
        forall q | q in nodes && q != node.position ensures Stored(q) {
          assert old(Stored(q));
          assert nodes[q].Sound(nodes, old(slots), names);
        }
      }
    }

    method ClearWildcard(node: TrieNode, serviceID: string)
      requires Valid() && Has(node)
      modifies this`slots, node`hasWildcard, node`wildcardService, node`wildcardResource
      ensures Valid() && slots == Drop(old(slots), Slot(node.position, true), serviceID)
    {
      assert Stored(node.position);
      if node.hasWildcard && node.wildcardService.Some? && node.wildcardService.value.id == serviceID {
        node.hasWildcard, node.wildcardService, node.wildcardResource := false, None, None;
        slots := slots - {Slot(node.position, true)};
        assert Stored(node.position);
        forall q | q in nodes && q != node.position ensures Stored(q) {
          assert old(Stored(q));
          assert nodes[q].Sound(nodes, old(slots), names);
        }
      }
    }

    ghost function Below(at: Path): set<Path>
      reads this
    {
      set p | p in nodes && Under(at, p)
    }

    // Removes a service's routes from this node down; the nodes themselves stay.
    method DeleteFromNode(node: TrieNode, serviceID: string)
      requires Valid() && Has(node)
      modifies this`slots, repr`isEnd, repr`service, repr`resource
      modifies repr`hasWildcard, repr`wildcardService, repr`wildcardResource
      ensures Valid() && slots == Pruned(old(slots), node.position, serviceID)
      decreases Below(node.position)
    {
      ghost var at := node.position;
      ClearExact(node, serviceID);
      ClearWildcard(node, serviceID);
      DropBoth(old(slots), at, serviceID);
      ghost var done: set<Token> := {};
      var todo := node.children.Keys;
      while todo != {}
        invariant Valid() && todo <= node.children.Keys
        invariant forall s :: s in node.children && s !in todo ==> Lit(s) in done
        invariant slots == PrunedVia(old(slots), at, serviceID, done)
        decreases todo
      {
        var seg :| seg in todo;
        DeleteChild(node, Lit(seg), node.children[seg], serviceID);
        PruneOneMore(old(slots), at, serviceID, done, Lit(seg));
        done := done + {Lit(seg)};
        todo := todo - {seg};
      }
      if node.paramChild != null {
        DeleteChild(node, Param, node.paramChild, serviceID);
        PruneOneMore(old(slots), at, serviceID, done, Param);
        done := done + {Param};
      }
      forall t | Step(at, t) in nodes ensures t in done {
        Edge(node, t);
      }
      PruneComplete(nodes.Keys, old(slots), names, at, serviceID, done);
    }

    method DeleteChild(node: TrieNode, ghost t: Token, child: TrieNode, serviceID: string)
      requires Valid() && Has(node) && node.Child(t) == child
      modifies this`slots, repr`isEnd, repr`service, repr`resource
      modifies repr`hasWildcard, repr`wildcardService, repr`wildcardResource
      ensures Valid() && slots == Pruned(old(slots), Step(node.position, t), serviceID)
      decreases Below(node.position), 0
    {
      Edge(node, t);
      forall p ensures Under(Step(node.position, t), p) ==> Under(node.position, p) && p != node.position {
        NextUnder(node.position, p, t);
      }
      assert node.position in Below(node.position) && node.position !in Below(child.position);
      DeleteFromNode(child, serviceID);
    }

    /** Removes exactly the slots the service holds. */
    method Delete(serviceID: string)
      requires Valid()
      modifies this`slots, repr`isEnd, repr`service, repr`resource
      modifies repr`hasWildcard, repr`wildcardService, repr`wildcardResource
      ensures Valid() && slots == Without(old(slots), serviceID)
    {
      DeleteFromNode(root, serviceID);
      forall p ensures Under(Root, p) { RootIsAbove(p); }
    }

    method Insert(svc: Service)
      requires Valid()
      modifies this`nodes, this`slots, this`names, this`repr, repr
      ensures Valid() && fresh(repr - old(repr))
      ensures slots == LoadSlots(old(slots), ServiceEntries(svc, |svc.resources|))
      ensures names == LoadNames(old(names), ServiceEntries(svc, |svc.resources|))
    {
      for i := 0 to |svc.resources|
        invariant Valid() && fresh(repr - old(repr))
        invariant slots == LoadSlots(old(slots), ServiceEntries(svc, i))
        invariant names == LoadNames(old(names), ServiceEntries(svc, i))
      {
        InsertResource(svc, svc.resources[i]);
        LoadMore(old(slots), old(names), ServiceEntries(svc, i), [EntryOf(svc, svc.resources[i])]);
      }
    }

    /** Replaces the whole index; a later route takes a slot from an earlier one. */
    method LoadBulk(services: seq<Service>)
      requires Valid()
      modifies this
      ensures Valid() && fresh(repr)
      ensures slots == LoadSlots(map[], AllEntries(services))
      ensures names == LoadNames(map[], AllEntries(services))
    {
      Reset();
      for i := 0 to |services|
        invariant Valid() && fresh(repr)
        invariant slots == LoadSlots(map[], AllEntries(services[..i]))
        invariant names == LoadNames(map[], AllEntries(services[..i]))
      {
        Insert(services[i]);
        LoadMore(map[], map[], AllEntries(services[..i]), ServiceEntries(services[i], |services[i].resources|));
        assert services[..i + 1][..i] == services[..i];
      }
      assert services[..|services|] == services;
    }

    method Reset()
      modifies this
      ensures Valid() && fresh(repr) && slots == map[] && names == map[]
    {
      root := new TrieNode(Root);
      nodes, slots, names, repr := map[Root := root], map[], map[], {root};
      assert Stored(Root);
    }
  }
}
