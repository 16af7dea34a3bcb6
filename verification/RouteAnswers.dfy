/** What a lookup answers, said of the registered slots and the segments asked for, one index at a time. */
module RouteAnswers {
  import opened GoStrings
  import opened RouteTable
  import opened RouteLaws

  // --- patterns ---

  // A dot, and what follows it up to the end without another one.
  predicate EndsIn(s: string, ext: string) {
    ext != "" && ext[0] == '.' && '.' !in ext[1..] && HasSuffix(s, ext)
  }

  lemma LastIndexIs(s: string, c: char, i: nat)
    requires i < |s| && s[i] == c && c !in s[i + 1..]
    ensures LastIndex(s, c) == i
  {
    var j := LastIndex(s, c);
    assert s[i] in s;
  }

  /** A segment is its pattern value followed by its extension, which begins at the last dot. */
  lemma ValueAndExtension(s: string)
    ensures PatternParamValue(s) + Extension(s) == s
    ensures if '.' in s then EndsIn(s, Extension(s)) else Extension(s) == ""
  {
  }

  lemma ExtensionIs(s: string, ext: string)
    requires EndsIn(s, ext)
    ensures Extension(s) == ext && PatternParamValue(s) == s[..|s| - |ext|]
  {
    var i := |s| - |ext|;
    assert s[i + 1..] == ext[1..] && s[i] == ext[0];
    LastIndexIs(s, '.', i);
  }

  // The pattern has a brace, and it and the segment end in one extension.
  ghost predicate PatternReads(pattern: string, seg: string) {
    '{' in pattern && exists ext {:trigger EndsIn(seg, ext)} :: EndsIn(seg, ext) && EndsIn(pattern, ext)
  }

  ghost predicate TokenReads(t: Token, seg: string) {
    match t
    case Lit(s) => s == seg || PatternReads(s, seg)
    case Param => true
  }

  lemma AcceptsExactly(t: Token, seg: string)
    ensures Accepts(t, seg) <==> TokenReads(t, seg)
  {
    ValueAndExtension(seg);
    if t.Lit? {
      ValueAndExtension(t.seg);
      PatternReadsExactly(t.seg, seg);
    }
  }

  lemma PatternReadsExactly(pattern: string, seg: string)
    ensures PatternReads(pattern, seg) <==> IsPattern(pattern) && MatchesPattern(seg, pattern)
  {
    ValueAndExtension(seg);
    ValueAndExtension(pattern);
    if ext :| EndsIn(seg, ext) && EndsIn(pattern, ext) {
      ExtensionIs(seg, ext);
      ExtensionIs(pattern, ext);
    }
  }

  // Something in braces, as the regular expression has it.
  predicate Capture(p: string, i: nat, j: nat) {
    i + 1 < j < |p| && p[i] == '{' && p[j] == '}' && '}' !in p[i + 1..j]
  }

  ghost predicate FirstCapture(p: string, i: nat, j: nat) {
    Capture(p, i, j) && forall k: nat, l: nat {:trigger Capture(p, k, l)} :: k < i ==> !Capture(p, k, l)
  }

  ghost predicate NoCapture(p: string) {
    forall k: nat, l: nat {:trigger Capture(p, k, l)} :: !Capture(p, k, l)
  }

  lemma SliceShifts(p: string, i: nat, j: nat)
    requires i <= j < |p|
    ensures p[1..][i..j] == p[i + 1..j + 1]
  {
  }

  lemma CaptureShifts(p: string, i: nat, j: nat)
    requires p != "" && j > 0
    ensures Capture(p, i + 1, j) <==> Capture(p[1..], i, j - 1)
  {
    if j < |p| && i + 1 < j {
      SliceShifts(p, i + 1, j - 1);
    }
  }

  lemma CaptureAtStart(p: string, j: nat)
    requires p != ""
    ensures Capture(p, 0, j) <==> p[0] == '{' && IndexOfChar(p, '}') == j && j >= 2
  {
    if Capture(p, 0, j) {
      assert p[j] in p;
    }
  }

  ghost predicate IsPatternName(p: string, name: string) {
    (NoCapture(p) && name == "_") ||
    exists i: nat, j: nat {:trigger FirstCapture(p, i, j)} :: FirstCapture(p, i, j) && name == p[i + 1..j]
  }

  lemma NoneAtStart(p: string, name: string)
    requires p != "" && (forall j: nat :: !Capture(p, 0, j)) && IsPatternName(p[1..], name)
    ensures IsPatternName(p, name)
  {
    forall k: nat, l: nat | k > 0 && l > 0 ensures Capture(p, k, l) <==> Capture(p[1..], k - 1, l - 1) {
      CaptureShifts(p, k - 1, l);
    }
    if !NoCapture(p[1..]) {
      var i: nat, j: nat :| FirstCapture(p[1..], i, j) && name == p[1..][i + 1..j];
      SliceShifts(p, i + 1, j);
      assert FirstCapture(p, i + 1, j + 1);
    }
  }

  /** The name bound by a pattern is its first capture, or an underscore if there is none. */
  lemma {:induction false} PatternNameIs(p: string)
    ensures IsPatternName(p, PatternParamName(p))
  {
    if p != "" {
      forall j: nat ensures Capture(p, 0, j) <==> p[0] == '{' && IndexOfChar(p, '}') == j && j >= 2 {
        CaptureAtStart(p, j);
      }
      var n := IndexOfChar(p, '}');
      if p[0] == '{' && n >= 2 {
        assert FirstCapture(p, 0, n);
      } else {
        PatternNameIs(p[1..]);
        NoneAtStart(p, PatternParamName(p));
      }
    }
  }

  // --- which slots match ---

  // The path is read segment by segment to the end, or up to its wildcard.
  ghost predicate Reads(rest: seq<Token>, wild: bool, segs: seq<string>) {
    |rest| <= |segs| && (wild || |rest| == |segs|) &&
    forall i {:trigger rest[i]} :: 0 <= i < |rest| ==> TokenReads(rest[i], segs[i])
  }

  lemma {:induction false} FitsExactly(rest: seq<Token>, wild: bool, segs: seq<string>)
    ensures Fits(rest, wild, segs) <==> Reads(rest, wild, segs)
    decreases |rest|
  {
    if rest != [] && segs != [] {
      AcceptsExactly(rest[0], segs[0]);
      FitsExactly(rest[1..], wild, segs[1..]);
      if Reads(rest[1..], wild, segs[1..]) && TokenReads(rest[0], segs[0]) {
        forall i | 0 <= i < |rest| ensures TokenReads(rest[i], segs[i]) {
          if i > 0 {
            assert TokenReads(rest[1..][i - 1], segs[1..][i - 1]);
          }
        }
      }
    }
  }

  // Where two matching paths part, the first goes on exactly or, unless the other does, by a pattern; it does not end
  // where the other goes on, nor by a wildcard where the other ends exactly.
  predicate Preferred(a: seq<Token>, aWild: bool, b: seq<Token>, bWild: bool, segs: seq<string>)
    requires |a| <= |segs|
  {
    !(a < b) && (a == b && aWild ==> bWild) &&
    forall i {:trigger a[i], b[i]} :: 0 <= i < |a| && i < |b| && a[..i] == b[..i] && a[i] != b[i] ==>
      b[i] != Lit(segs[i]) && (b[i].Lit? ==> a[i].Lit?)
  }

  lemma PreferredTail(a: seq<Token>, aWild: bool, b: seq<Token>, bWild: bool, segs: seq<string>)
    requires a != [] && b != [] && a[0] == b[0] && |a| <= |segs|
    ensures Preferred(a, aWild, b, bWild, segs) <==> Preferred(a[1..], aWild, b[1..], bWild, segs[1..])
  {
    assert a == [a[0]] + a[1..] && b == [b[0]] + b[1..];
    forall i | 0 <= i < |a[1..]| && i < |b[1..]| ensures a[1..][..i] == b[1..][..i] <==> a[..i + 1] == b[..i + 1] {
      assert a[..i + 1] == [a[0]] + a[1..][..i] && b[..i + 1] == [b[0]] + b[1..][..i];
    }
    if Preferred(a[1..], aWild, b[1..], bWild, segs[1..]) {
      forall i | 0 <= i < |a| && i < |b| && a[..i] == b[..i] && a[i] != b[i]
        ensures b[i] != Lit(segs[i]) && (b[i].Lit? ==> a[i].Lit?)
      {
        assert a[1..][i - 1] == a[i] && b[1..][i - 1] == b[i];
      }
    }
    if Preferred(a, aWild, b, bWild, segs) {
      forall i | 0 <= i < |a[1..]| && i < |b[1..]| && a[1..][..i] == b[1..][..i] && a[1..][i] != b[1..][i]
        ensures b[1..][i] != Lit(segs[1..][i]) && (b[1..][i].Lit? ==> a[1..][i].Lit?)
      {
        assert a[i + 1] == a[1..][i] && b[i + 1] == b[1..][i];
      }
    }
  }

  lemma {:induction false} NotWorseExactly(a: seq<Token>, aWild: bool, b: seq<Token>, bWild: bool, segs: seq<string>)
    requires Fits(a, aWild, segs) && Fits(b, bWild, segs)
    ensures |a| <= |segs| && (NotWorse(a, aWild, b, bWild, segs) <==> Preferred(a, aWild, b, bWild, segs))
    decreases |a|
  {
    FitsLength(a, aWild, segs);
    FitsLength(b, bWild, segs);
    if a != [] && b != [] {
      if a[0] == b[0] {
        NotWorseExactly(a[1..], aWild, b[1..], bWild, segs[1..]);
        PreferredTail(a, aWild, b, bWild, segs);
      } else {
        assert a[..0] == b[..0];
        assert forall i | 0 < i <= |a| :: a[..i][0] == a[0];
        assert forall i | 0 < i <= |b| :: b[..i][0] == b[0];
      }
    }
  }

  // --- bound values ---

  // What the token at i binds: its name and the value.
  function BoundBy(names: map<Path, string>, at: Path, rest: seq<Token>, segs: seq<string>, i: nat)
    : Option<(string, string)>
    requires i < |rest| && i < |segs|
  {
    match rest[i]
    case Param =>
      var p := Walk(at, rest[..i]);
      Some((if p in names && names[p] != "" then names[p] else "_", segs[i]))
    case Lit(s) => if s == segs[i] then None else Some((PatternParamName(s), PatternParamValue(segs[i])))
  }

  predicate BindsKey(names: map<Path, string>, at: Path, rest: seq<Token>, segs: seq<string>, i: nat, key: string)
    requires i < |rest| && i < |segs|
  {
    var bound := BoundBy(names, at, rest, segs, i);
    bound.Some? && bound.value.0 == key
  }

  // The last token to bind the key gives it this value.
  ghost predicate LastBound(names: map<Path, string>, at: Path, rest: seq<Token>, segs: seq<string>, i: nat,
                            key: string, value: string)
  {
    i < |rest| <= |segs| && BoundBy(names, at, rest, segs, i) == Some((key, value)) &&
    forall j {:trigger BindsKey(names, at, rest, segs, j, key)} :: i < j < |rest| ==>
      !BindsKey(names, at, rest, segs, j, key)
  }

  ghost predicate Binds(names: map<Path, string>, at: Path, rest: seq<Token>, segs: seq<string>, key: string,
                        value: string)
  {
    exists i: nat {:trigger LastBound(names, at, rest, segs, i, key, value)} ::
      LastBound(names, at, rest, segs, i, key, value)
  }

  ghost predicate Unbound(names: map<Path, string>, at: Path, rest: seq<Token>, segs: seq<string>, key: string)
    requires |rest| <= |segs|
  {
    forall j {:trigger BindsKey(names, at, rest, segs, j, key)} :: 0 <= j < |rest| ==>
      !BindsKey(names, at, rest, segs, j, key)
  }

  lemma BoundByTail(names: map<Path, string>, at: Path, rest: seq<Token>, segs: seq<string>, i: nat)
    requires i + 1 < |rest| <= |segs|
    ensures BoundBy(names, at, rest, segs, i + 1) == BoundBy(names, Step(at, rest[0]), rest[1..], segs[1..], i)
  {
    assert rest[..i + 1][0] == rest[0] && rest[..i + 1][1..] == rest[1..][..i];
  }

  lemma LastBoundTail(names: map<Path, string>, at: Path, rest: seq<Token>, segs: seq<string>, i: nat, key: string,
                      value: string)
    requires rest != [] && |rest| <= |segs|
    ensures LastBound(names, at, rest, segs, i + 1, key, value)
       <==> LastBound(names, Step(at, rest[0]), rest[1..], segs[1..], i, key, value)
  {
    forall j: nat | j < |rest| - 1
      ensures BoundBy(names, at, rest, segs, j + 1) == BoundBy(names, Step(at, rest[0]), rest[1..], segs[1..], j)
      ensures BindsKey(names, at, rest, segs, j + 1, key)
         <==> BindsKey(names, Step(at, rest[0]), rest[1..], segs[1..], j, key)
    {
      BoundByTail(names, at, rest, segs, j);
    }
    if LastBound(names, Step(at, rest[0]), rest[1..], segs[1..], i, key, value) {
      forall j | i + 1 < j < |rest| ensures !BindsKey(names, at, rest, segs, j, key) {
        assert !BindsKey(names, Step(at, rest[0]), rest[1..], segs[1..], j - 1, key);
      }
    }
    if LastBound(names, at, rest, segs, i + 1, key, value) {
      forall j | i < j < |rest| - 1
        ensures !BindsKey(names, Step(at, rest[0]), rest[1..], segs[1..], j, key)
      {
        assert !BindsKey(names, at, rest, segs, j + 1, key);
      }
    }
  }

  // The parameters once the first token is read.
  function BindOne(names: map<Path, string>, at: Path, rest: seq<Token>, segs: seq<string>,
                   params: map<string, string>): map<string, string>
    requires rest != [] && segs != []
  {
    match BoundBy(names, at, rest, segs, 0)
    case None => params
    case Some((name, value)) => params[name := value]
  }

  lemma BindFirst(names: map<Path, string>, at: Path, rest: seq<Token>, segs: seq<string>,
                  params: map<string, string>)
    requires rest != [] && segs != []
    ensures Bind(names, at, rest, segs, params)
         == Bind(names, Step(at, rest[0]), rest[1..], segs[1..], BindOne(names, at, rest, segs, params))
  {
    assert rest[..0] == [];
  }

  // What a key is bound to after the first token, by that token or before.
  lemma FirstToken(names: map<Path, string>, at: Path, rest: seq<Token>, segs: seq<string>,
                   params: map<string, string>, key: string, value: string)
    requires rest != [] && |rest| <= |segs|
    ensures
      var tail, tailSegs, params' := rest[1..], segs[1..], BindOne(names, at, rest, segs, params);
      (Unbound(names, Step(at, rest[0]), tail, tailSegs, key) && key in params' && params'[key] == value)
      <==>
      LastBound(names, at, rest, segs, 0, key, value) ||
      (Unbound(names, at, rest, segs, key) && key in params && params[key] == value)
  {
    UnboundTail(names, at, rest, segs, key);
  }

  lemma UnboundTail(names: map<Path, string>, at: Path, rest: seq<Token>, segs: seq<string>, key: string)
    requires rest != [] && |rest| <= |segs|
    ensures Unbound(names, at, rest, segs, key)
       <==> !BindsKey(names, at, rest, segs, 0, key) && Unbound(names, Step(at, rest[0]), rest[1..], segs[1..], key)
    ensures Unbound(names, Step(at, rest[0]), rest[1..], segs[1..], key)
       <==> forall j {:trigger BindsKey(names, at, rest, segs, j, key)} :: 0 < j < |rest| ==>
              !BindsKey(names, at, rest, segs, j, key)
  {
    forall j: nat | j < |rest| - 1
      ensures BindsKey(names, at, rest, segs, j + 1, key)
         <==> BindsKey(names, Step(at, rest[0]), rest[1..], segs[1..], j, key)
    {
      BoundByTail(names, at, rest, segs, j);
    }
    if Unbound(names, Step(at, rest[0]), rest[1..], segs[1..], key) {
      forall j | 0 < j < |rest| ensures !BindsKey(names, at, rest, segs, j, key) {
        assert !BindsKey(names, Step(at, rest[0]), rest[1..], segs[1..], j - 1, key);
      }
    }
    if forall j {:trigger BindsKey(names, at, rest, segs, j, key)} ::
         0 < j < |rest| ==> !BindsKey(names, at, rest, segs, j, key)
    {
      forall j | 0 <= j < |rest| - 1 ensures !BindsKey(names, Step(at, rest[0]), rest[1..], segs[1..], j, key) {
        assert !BindsKey(names, at, rest, segs, j + 1, key);
      }
    }
  }

  lemma BindsTail(names: map<Path, string>, at: Path, rest: seq<Token>, segs: seq<string>, key: string, value: string)
    requires rest != [] && |rest| <= |segs|
    ensures Binds(names, at, rest, segs, key, value)
       <==> LastBound(names, at, rest, segs, 0, key, value) ||
            Binds(names, Step(at, rest[0]), rest[1..], segs[1..], key, value)
  {
    if i: nat :| LastBound(names, at, rest, segs, i, key, value) {
      if i > 0 {
        LastBoundTail(names, at, rest, segs, i - 1, key, value);
      }
    }
    if i: nat :| LastBound(names, Step(at, rest[0]), rest[1..], segs[1..], i, key, value) {
      LastBoundTail(names, at, rest, segs, i, key, value);
    }
  }

  // A key has the value its last binding gives it, or the one it had before.
  lemma {:induction false} BindExactly(names: map<Path, string>, at: Path, rest: seq<Token>, segs: seq<string>,
                                       params: map<string, string>, key: string, value: string)
    requires |rest| <= |segs|
    ensures
      var bound := Bind(names, at, rest, segs, params);
      key in bound && bound[key] == value <==>
      Binds(names, at, rest, segs, key, value) ||
      (Unbound(names, at, rest, segs, key) && key in params && params[key] == value)
    decreases |rest|
  {
    if rest != [] {
      var params' := BindOne(names, at, rest, segs, params);
      BindFirst(names, at, rest, segs, params);
      BindExactly(names, Step(at, rest[0]), rest[1..], segs[1..], params', key, value);
      BindsTail(names, at, rest, segs, key, value);
      FirstToken(names, at, rest, segs, params, key, value);
    }
  }

  // --- what an answer says ---

  ghost predicate Slashless(segs: seq<string>) {
    forall seg {:trigger seg in segs} :: seg in segs ==> '/' !in seg
  }

  predicate Registers(slots: map<Slot, Route>, rest: seq<Token>, wild: bool, m: PathMatch) {
    Slot(Walk(Root, rest), wild) in slots && slots[Slot(Walk(Root, rest), wild)] == Route(m.service, m.resource)
  }

  // What the path did not read; nothing if it read all.
  predicate Leaves(remaining: string, rest: seq<Token>, segs: seq<string>)
    requires |rest| <= |segs|
  {
    if |rest| == |segs| then remaining == "" else Split(remaining, '/') == segs[|rest|..]
  }

  /**
   A match says: the route of a slot that the segments reach, with each parameter at its last binding on the way, and
   the segments left over.
   */
  ghost predicate Says(slots: map<Slot, Route>, names: map<Path, string>, segs: seq<string>, m: PathMatch,
                       rest: seq<Token>, wild: bool)
  {
    Registers(slots, rest, wild, m) && Reads(rest, wild, segs) && Leaves(m.remaining, rest, segs) &&
    forall key, value {:trigger Binds(names, Root, rest, segs, key, value)} ::
      key in m.params && m.params[key] == value <==> Binds(names, Root, rest, segs, key, value)
  }

  ghost predicate Matching(slots: map<Slot, Route>, segs: seq<string>, rest: seq<Token>, wild: bool) {
    Slot(Walk(Root, rest), wild) in slots && Reads(rest, wild, segs)
  }

  ghost predicate BestMatching(slots: map<Slot, Route>, segs: seq<string>, rest: seq<Token>, wild: bool) {
    |rest| <= |segs| &&
    forall other, w {:trigger Matching(slots, segs, other, w)} ::
      Matching(slots, segs, other, w) ==> Preferred(rest, wild, other, w, segs)
  }

  lemma MatchingExactly(slots: map<Slot, Route>, segs: seq<string>, rest: seq<Token>, wild: bool)
    ensures Matching(slots, segs, rest, wild) <==> Candidate(slots, Root, segs, rest, wild)
  {
    FitsExactly(rest, wild, segs);
  }

  lemma BestExactly(slots: map<Slot, Route>, segs: seq<string>, rest: seq<Token>, wild: bool)
    ensures Best(slots, Root, segs, rest, wild)
       <==> Matching(slots, segs, rest, wild) && BestMatching(slots, segs, rest, wild)
  {
    MatchingExactly(slots, segs, rest, wild);
    if Matching(slots, segs, rest, wild) {
      forall other, w
        ensures Matching(slots, segs, other, w) <==> Candidate(slots, Root, segs, other, w)
        ensures Matching(slots, segs, other, w) ==>
          (NotWorse(rest, wild, other, w, segs) <==> Preferred(rest, wild, other, w, segs))
      {
        MatchingExactly(slots, segs, other, w);
        if Matching(slots, segs, other, w) {
          NotWorseExactly(rest, wild, other, w, segs);
        }
      }
    }
  }

  lemma LeavesExactly(remaining: string, rest: seq<Token>, segs: seq<string>)
    requires |rest| <= |segs| && Slashless(segs)
    ensures Leaves(remaining, rest, segs) <==> remaining == Join(segs[|rest|..], '/')
  {
    if |rest| < |segs| {
      assert forall seg :: seg in segs[|rest|..] ==> seg in segs;
      SplitOfJoin(segs[|rest|..], '/');
      JoinOfSplit(remaining, '/');
    }
  }

  lemma ParamsExactly(names: map<Path, string>, rest: seq<Token>, segs: seq<string>, params: map<string, string>)
    requires |rest| <= |segs|
    ensures params == Bind(names, Root, rest, segs, map[])
       <==> forall key, value {:trigger Binds(names, Root, rest, segs, key, value)} ::
              key in params && params[key] == value <==> Binds(names, Root, rest, segs, key, value)
  {
    var bound := Bind(names, Root, rest, segs, map[]);
    forall key, value
      ensures key in bound && bound[key] == value <==> Binds(names, Root, rest, segs, key, value)
    {
      BindExactly(names, Root, rest, segs, map[], key, value);
    }
    if forall key, value {:trigger Binds(names, Root, rest, segs, key, value)} ::
         key in params && params[key] == value <==> Binds(names, Root, rest, segs, key, value)
    {
      forall key ensures key in params ==> key in bound && bound[key] == params[key] {
        assert key in params ==> Binds(names, Root, rest, segs, key, params[key]);
      }
      forall key ensures key in bound ==> key in params {
        assert key in bound ==> Binds(names, Root, rest, segs, key, bound[key]);
      }
    }
  }

  lemma SaysExactly(slots: map<Slot, Route>, names: map<Path, string>, segs: seq<string>, m: PathMatch,
                    rest: seq<Token>, wild: bool)
    requires Slashless(segs) && Candidate(slots, Root, segs, rest, wild)
    ensures Says(slots, names, segs, m, rest, wild) <==> m == MatchOf(slots, names, Root, segs, map[], rest, wild)
  {
    FitsExactly(rest, wild, segs);
    LeavesExactly(m.remaining, rest, segs);
    ParamsExactly(names, rest, segs, m.params);
  }

  /**
   A lookup answers nothing exactly when no registered path reads the segments, and otherwise what a best of those that
   do says.
   */
  lemma LookupExactly(slots: map<Slot, Route>, names: map<Path, string>, segs: seq<string>, m: Option<PathMatch>)
    requires Slashless(segs)
    ensures IsLookup(slots, names, segs, m) <==>
            match m
            case None => forall rest, wild :: !Matching(slots, segs, rest, wild)
            case Some(found) => exists rest, wild {:trigger Says(slots, names, segs, found, rest, wild)} ::
              Says(slots, names, segs, found, rest, wild) && BestMatching(slots, segs, rest, wild)
  {
    forall rest, wild ensures Matching(slots, segs, rest, wild) <==> Candidate(slots, Root, segs, rest, wild) {
      MatchingExactly(slots, segs, rest, wild);
    }
    match m
    case None =>
      assert Barren(slots, Root, segs) ==> Answer(slots, names, Root, segs, map[], m, [], false);
    case Some(found) =>
      forall rest, wild
        ensures Answer(slots, names, Root, segs, map[], m, rest, wild)
           <==> Says(slots, names, segs, found, rest, wild) && BestMatching(slots, segs, rest, wild)
      {
        AnswerSays(slots, names, segs, found, rest, wild);
      }
  }

  lemma AnswerSays(slots: map<Slot, Route>, names: map<Path, string>, segs: seq<string>, found: PathMatch,
                   rest: seq<Token>, wild: bool)
    requires Slashless(segs)
    ensures Answer(slots, names, Root, segs, map[], Some(found), rest, wild)
       <==> Says(slots, names, segs, found, rest, wild) && BestMatching(slots, segs, rest, wild)
  {
    MatchingExactly(slots, segs, rest, wild);
    BestExactly(slots, segs, rest, wild);
    if Matching(slots, segs, rest, wild) {
      SaysExactly(slots, names, segs, found, rest, wild);
    }
  }

  // --- request paths ---

  lemma RequestIsSlashless(requestPath: string)
    ensures Slashless(RequestSegments(requestPath)) && Join(RequestSegments(requestPath), '/') == Trim(requestPath, '/')
  {
    JoinOfSplit(Trim(requestPath, '/'), '/');
  }

  /**
   The remainder of an answer is the end of the path asked for: what comes before it is read, segment by segment, by the
   registered path.
   */
  lemma RemainderEndsPath(slots: map<Slot, Route>, names: map<Path, string>, requestPath: string, m: PathMatch)
    requires IsLookup(slots, names, RequestSegments(requestPath), Some(m))
    ensures exists rest, wild {:trigger Registers(slots, rest, wild, m)} ::
      Registers(slots, rest, wild, m) && Reads(rest, wild, RequestSegments(requestPath)) &&
      var read := RequestSegments(requestPath)[..|rest|];
      Trim(requestPath, '/') ==
        if |rest| == |RequestSegments(requestPath)| then Join(read, '/') + m.remaining
        else if rest == [] then m.remaining
        else Join(read, '/') + "/" + m.remaining
  {
    var segs := RequestSegments(requestPath);
    RequestIsSlashless(requestPath);
    LookupExactly(slots, names, segs, Some(m));
    var rest, wild :| Says(slots, names, segs, m, rest, wild);
    LeavesExactly(m.remaining, rest, segs);
    if |rest| == |segs| {
      assert segs[..|rest|] == segs;
    } else if rest == [] {
      assert segs[0..] == segs;
    } else {
      JoinConcat(segs[..|rest|], segs[|rest|..], '/');
      assert segs == segs[..|rest|] + segs[|rest|..];
    }
    assert Registers(slots, rest, wild, m);
  }

  // Segments that stand for themselves.
  predicate Plain(segs: seq<string>) {
    forall i {:trigger segs[i]} :: 0 <= i < |segs| ==>
      segs[i] != "" && segs[i] != "*" && '/' !in segs[i] && !IsPathParam(segs[i])
  }

  lemma {:induction false} PlainSlot(at: Path, segs: seq<string>)
    requires Plain(segs)
    ensures SlotOf(at, segs + ["*"]) == Slot(Walk(at, Literals(segs)), true)
    decreases |segs|
  {
    if segs == [] {
      assert segs + ["*"] == ["*"];
    } else {
      assert (segs + ["*"])[0] == segs[0] && (segs + ["*"])[1..] == segs[1..] + ["*"];
      PlainSlot(Step(at, Lit(segs[0])), segs[1..]);
      assert Literals(segs)[1..] == Literals(segs[1..]);
    }
  }

  lemma {:induction false} LiteralsAt(segs: seq<string>, i: nat)
    requires i < |segs|
    ensures |Literals(segs)| == |segs| && Literals(segs)[i] == Lit(segs[i])
  {
    LiteralsLength(segs);
    if i > 0 {
      LiteralsAt(segs[1..], i - 1);
    }
  }

  lemma NothingToTrim(s: string)
    requires s != "" && s[0] != '/' && s[|s| - 1] != '/'
    ensures Trim("/" + s, '/') == s
  {
    var t := "/" + s;
    assert t[|t| - 1] == s[|s| - 1] && t[1..] == s;
    assert TrimRight(t, '/') == t;
    assert TrimLeft(t, '/') == TrimLeft(s, '/') == s;
  }

  // The request for r below the plain segments.
  function Below(pre: seq<string>, r: string): string {
    Join(pre + [r], '/')
  }

  lemma BelowIsTrim(pre: seq<string>, r: string)
    requires Plain(pre) && r != "" && r[0] != '/' && r[|r| - 1] != '/'
    ensures
      var s := Below(pre, r);
      s != "" && s[0] != '/' && s[|s| - 1] != '/'
  {
    var s := Below(pre, r);
    if pre == [] {
      assert pre + [r] == [r];
    } else {
      JoinConcat(pre, [r], '/');
      assert pre[0][0] in pre[0];
      BeginsWith(pre);
      assert s[|s| - 1] == r[|r| - 1];
    }
  }

  lemma BelowIsJoin(pre: seq<string>, r: string)
    ensures Below(pre, r) == Join(pre + Split(r, '/'), '/')
  {
    JoinOfSplit(r, '/');
    if pre == [] {
      assert pre + [r] == [r] && pre + Split(r, '/') == Split(r, '/');
    } else {
      JoinConcat(pre, [r], '/');
      JoinConcat(pre, Split(r, '/'), '/');
    }
  }

  lemma PartsAreSlashless(pre: seq<string>, r: string)
    requires Plain(pre)
    ensures forall p :: p in pre + Split(r, '/') ==> '/' !in p
  {
    JoinOfSplit(r, '/');
    forall p | p in pre ensures '/' !in p {
      var i :| 0 <= i < |pre| && pre[i] == p;
    }
  }

  lemma RequestBelow(pre: seq<string>, r: string)
    requires Plain(pre) && r != "" && r[0] != '/' && r[|r| - 1] != '/'
    ensures RequestSegments("/" + Below(pre, r)) == pre + Split(r, '/')
  {
    BelowIsTrim(pre, r);
    NothingToTrim(Below(pre, r));
    BelowIsJoin(pre, r);
    PartsAreSlashless(pre, r);
    SplitOfJoin(pre + Split(r, '/'), '/');
  }

  lemma BeginsWith(pre: seq<string>)
    requires pre != [] && pre[0] != ""
    ensures Join(pre, '/') != "" && Join(pre, '/')[0] == pre[0][0]
  {
  }

  lemma LoneSlot(e: Entry)
    ensures LoadSlots(map[], [e]) == map[SlotOf(Root, e.segs) := e.route]
  {
    LoadOne(map[], map[], [], e);
    assert [] + [e] == [e];
  }

  // A path of plain segments reads them and binds nothing.
  lemma PlainReads(names: map<Path, string>, pre: seq<string>, segs: seq<string>, wild: bool)
    requires pre <= segs && (wild || pre == segs)
    ensures Reads(Literals(pre), wild, segs)
    ensures forall key, value :: !Binds(names, Root, Literals(pre), segs, key, value)
  {
    LiteralsLength(pre);
    forall i | 0 <= i < |pre| ensures Literals(pre)[i] == Lit(segs[i]) {
      LiteralsAt(pre, i);
    }
    forall i: nat | i < |pre| ensures BoundBy(names, Root, Literals(pre), segs, i) == None {
      assert Literals(pre)[i] == Lit(segs[i]);
    }
  }

  // The only route there is, under plain segments, if they are read.
  lemma LoneAnswer(pre: seq<string>, wild: bool, route: Route, names: map<Path, string>, segs: seq<string>,
                   m: Option<PathMatch>)
    requires Slashless(segs) && pre <= segs && (wild || pre == segs)
    requires IsLookup(map[Slot(Walk(Root, Literals(pre)), wild) := route], names, segs, m)
    ensures m.Some? && Route(m.value.service, m.value.resource) == route && m.value.params == map[]
    ensures |Literals(pre)| <= |segs| && Leaves(m.value.remaining, Literals(pre), segs)
  {
    var lits := Literals(pre);
    var slots := map[Slot(Walk(Root, lits), wild) := route];
    LookupExactly(slots, names, segs, m);
    PlainReads(names, pre, segs, wild);
    assert Matching(slots, segs, lits, wild);
    var rest, w :| Says(slots, names, segs, m.value, rest, w);
    WalkInjective(Root, rest, lits);
    assert forall key :: key in m.value.params ==> Binds(names, Root, lits, segs, key, m.value.params[key]);
    assert m.value.params == map[];
  }

  /** Below a lone wildcard route with plain segments before its star the remainder is the path asked for below them. */
  lemma LoneWildcard(pre: seq<string>, route: Route, r: string, m: Option<PathMatch>)
    requires Plain(pre) && r != "" && r[0] != '/' && r[|r| - 1] != '/'
    requires
      var entries := [Entry(pre + ["*"], route)];
      IsLookup(LoadSlots(map[], entries), LoadNames(map[], entries), RequestSegments("/" + Below(pre, r)), m)
    ensures m == Some(PathMatch(route.service, route.resource, map[], r))
  {
    var entry, segs := Entry(pre + ["*"], route), pre + Split(r, '/');
    PlainSlot(Root, pre);
    LoneSlot(entry);
    RequestBelow(pre, r);
    RequestIsSlashless("/" + Below(pre, r));
    LoneAnswer(pre, true, route, LoadNames(map[], [entry]), segs, m);
    LiteralsLength(pre);
    assert segs[|pre|..] == Split(r, '/');
    JoinOfSplit(r, '/');
    JoinOfSplit(m.value.remaining, '/');
  }

  // --- parameter names ---

  // The segment at j is a parameter of this name, and what comes before it leads to p.
  ghost predicate NamesFrom(at: Path, segs: seq<string>, j: nat, p: Path, name: string) {
    j < |segs| && IsPathParam(segs[j]) && segs[j] == "{" + name + "}" && "*" !in segs[..j] &&
    SlotOf(at, segs[..j]).path == p
  }

  ghost predicate NamesAt(at: Path, segs: seq<string>, p: Path, name: string) {
    exists j: nat {:trigger NamesFrom(at, segs, j, p, name)} :: NamesFrom(at, segs, j, p, name)
  }

  lemma ParamNameIs(segment: string, name: string)
    requires IsPathParam(segment)
    ensures ParamName(segment) == name <==> segment == "{" + name + "}"
  {
    assert segment[0] == '{' && segment[|segment| - 1] == '}';
    assert segment == "{" + segment[1..|segment| - 1] + "}";
  }

  lemma {:induction false} SlotIsDeeper(at: Path, segs: seq<string>)
    ensures Depth(SlotOf(at, segs).path) >= Depth(at)
    decreases |segs|
  {
    if segs != [] && segs[0] != "*" {
      SlotIsDeeper(if segs[0] == "" then at else Step(at, TokenOf(segs[0])), segs[1..]);
    }
  }

  // Where a path goes on after a segment that is not a star.
  function Onward(at: Path, seg: string): Path {
    if seg == "" then at else Step(at, TokenOf(seg))
  }

  lemma NamesTail(at: Path, segs: seq<string>, j: nat, p: Path, name: string)
    requires segs != [] && segs[0] != "*"
    ensures NamesFrom(at, segs, j + 1, p, name) <==> NamesFrom(Onward(at, segs[0]), segs[1..], j, p, name)
  {
    if j + 1 < |segs| {
      assert segs[..j + 1] == [segs[0]] + segs[1..][..j];
      assert segs[..j + 1][0] == segs[0] && segs[..j + 1][1..] == segs[1..][..j];
    }
  }

  lemma NamesHere(at: Path, segs: seq<string>, p: Path, name: string)
    requires segs != []
    ensures NamesFrom(at, segs, 0, p, name) <==> p == at && IsPathParam(segs[0]) && ParamName(segs[0]) == name
  {
    assert segs[..0] == [];
    if IsPathParam(segs[0]) {
      ParamNameIs(segs[0], name);
    }
  }

  lemma NamesStep(at: Path, segs: seq<string>, p: Path, name: string)
    requires segs != []
    ensures NamesAt(at, segs, p, name) <==>
            (p == at && IsPathParam(segs[0]) && ParamName(segs[0]) == name) ||
            (segs[0] != "*" && NamesAt(Onward(at, segs[0]), segs[1..], p, name))
  {
    NamesHere(at, segs, p, name);
    if j: nat :| NamesFrom(at, segs, j, p, name) {
      if j > 0 {
        assert segs[0] in segs[..j];
        NamesTail(at, segs, j - 1, p, name);
      }
    }
    if segs[0] != "*" {
      if j: nat :| NamesFrom(Onward(at, segs[0]), segs[1..], j, p, name) {
        NamesTail(at, segs, j, p, name);
      }
    }
  }

  // No name is given at a position above.
  lemma NoNameAbove(at: Path, t: Token, segs: seq<string>, name: string)
    ensures !NamesAt(Step(at, t), segs, at, name)
  {
    if j: nat :| NamesFrom(Step(at, t), segs, j, at, name) {
      SlotIsDeeper(Step(at, t), segs[..j]);
    }
  }

  // A path gives its names where there are none yet.
  lemma {:induction false} AddNamesExactly(names: map<Path, string>, at: Path, segs: seq<string>, p: Path, name: string)
    ensures
      var named := AddNames(names, at, segs);
      p in named && named[p] == name <==> if p in names then names[p] == name else NamesAt(at, segs, p, name)
    decreases |segs|
  {
    if segs != [] {
      NamesStep(at, segs, p, name);
      if segs[0] == "" {
        AddNamesExactly(names, at, segs[1..], p, name);
      } else if segs[0] != "*" {
        var t := TokenOf(segs[0]);
        NoNameAbove(at, t, segs[1..], name);
        var names' := if IsPathParam(segs[0]) && at !in names then names[at := ParamName(segs[0])] else names;
        AddNamesExactly(names', Step(at, t), segs[1..], p, name);
      }
    }
  }

  ghost predicate NamedBy(entries: seq<Entry>, i: nat, p: Path, name: string) {
    i < |entries| && NamesAt(Root, entries[i].segs, p, name)
  }

  ghost predicate Named(entries: seq<Entry>, p: Path) {
    exists i: nat, name {:trigger NamedBy(entries, i, p, name)} :: NamedBy(entries, i, p, name)
  }

  // The first entry to name the position gives it this name.
  ghost predicate FirstToName(entries: seq<Entry>, i: nat, p: Path, name: string) {
    NamedBy(entries, i, p, name) &&
    forall k: nat, other {:trigger NamedBy(entries, k, p, other)} :: k < i ==> !NamedBy(entries, k, p, other)
  }

  lemma NamedInPrefix(entries: seq<Entry>, n: nat, i: nat, p: Path, name: string)
    requires i < n <= |entries|
    ensures NamedBy(entries, i, p, name) <==> NamedBy(entries[..n], i, p, name)
  {
    assert entries[..n][i] == entries[i];
  }

  lemma FirstInPrefix(entries: seq<Entry>, n: nat, i: nat, p: Path, name: string)
    requires i < n <= |entries|
    ensures FirstToName(entries, i, p, name) <==> FirstToName(entries[..n], i, p, name)
  {
    forall k: nat, other | k < n ensures NamedBy(entries, k, p, other) <==> NamedBy(entries[..n], k, p, other) {
      NamedInPrefix(entries, n, k, p, other);
    }
  }

  // One more entry: the earlier names stay, and it names what had none.
  lemma NamedMore(entries: seq<Entry>, p: Path, name: string)
    requires entries != []
    ensures
      var n := |entries| - 1;
      var before, names := LoadNames(map[], entries[..n]), LoadNames(map[], entries);
      p in names && names[p] == name <==>
      if p in before then before[p] == name else NamedBy(entries, n, p, name)
  {
    var n := |entries| - 1;
    AddNamesExactly(LoadNames(map[], entries[..n]), Root, entries[n].segs, p, name);
  }

  lemma {:induction false} NamedExactly(entries: seq<Entry>, p: Path)
    ensures p in LoadNames(map[], entries) <==> Named(entries, p)
  {
    if entries != [] {
      var n := |entries| - 1;
      var before, names := LoadNames(map[], entries[..n]), LoadNames(map[], entries);
      NamedExactly(entries[..n], p);
      forall name
        ensures p in names && names[p] == name <==>
                if p in before then before[p] == name else NamedBy(entries, n, p, name)
      {
        NamedMore(entries, p, name);
      }
      forall i: nat, name | i < n ensures NamedBy(entries, i, p, name) <==> NamedBy(entries[..n], i, p, name) {
        NamedInPrefix(entries, n, i, p, name);
      }
      if p in names {
        var name := names[p];
        assert p in before || NamedBy(entries, n, p, name);
      }
      if i: nat, name :| NamedBy(entries, i, p, name) {
        assert i < n ==> NamedBy(entries[..n], i, p, name);
        NamedMore(entries, p, if p in before then before[p] else name);
      }
    }
  }

  /** After a load a position's parameter has the name that the first path through it gave it. */
  lemma {:induction false} NameIsFirst(entries: seq<Entry>, p: Path, name: string)
    ensures
      var names := LoadNames(map[], entries);
      p in names && names[p] == name <==>
      exists i: nat {:trigger FirstToName(entries, i, p, name)} :: FirstToName(entries, i, p, name)
  {
    if entries != [] {
      var n := |entries| - 1;
      NameIsFirst(entries[..n], p, name);
      NamedExactly(entries[..n], p);
      NamedMore(entries, p, name);
      forall i: nat | i < n ensures FirstToName(entries, i, p, name) <==> FirstToName(entries[..n], i, p, name) {
        FirstInPrefix(entries, n, i, p, name);
      }
      LastToName(entries, p, name);
    }
  }

  // The last entry is the first to name a position exactly when no earlier one does.
  lemma LastToName(entries: seq<Entry>, p: Path, name: string)
    requires entries != []
    ensures
      var n := |entries| - 1;
      FirstToName(entries, n, p, name) <==> NamedBy(entries, n, p, name) && !Named(entries[..n], p)
  {
    var n := |entries| - 1;
    forall k: nat, other | k < n ensures NamedBy(entries, k, p, other) <==> NamedBy(entries[..n], k, p, other) {
      NamedInPrefix(entries, n, k, p, other);
    }
  }
}
