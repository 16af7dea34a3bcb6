/** The limits the control plane attaches to each resource path of a service. */
module RateLimitPayload {
  import opened GoStrings
  import opened RateLimitTier

  datatype RateLimit = RateLimit(enabled: bool, tiers: seq<Tier>)

  // A path of a package, with a limit of its own or none.
  datatype PackagePath = PackagePath(path: string, own: Option<RateLimit>)

  datatype Link = Link(packageId: string, paths: seq<PackagePath>)

  // Path pattern to package to tiers.
  type Limits = map<string, map<string, seq<Tier>>>

  // --- building the map ---

  function ValidTiers(tiers: seq<Tier>): seq<Tier> {
    if tiers == [] then []
    else
      var last := tiers[|tiers| - 1];
      ValidTiers(tiers[..|tiers| - 1]) + if last.limit > 0 && last.windowSec > 0 then [last] else []
  }

  // The path's own limit, even one that turns limiting off, or else the package's.
  function Effective(pp: PackagePath, pkgLimit: Option<RateLimit>): Option<RateLimit> {
    if pp.own.Some? then pp.own else pkgLimit
  }

  // The tiers a path gets; none when there is no limit, it is off, or no tier is valid.
  function TiersFor(pp: PackagePath, pkgLimit: Option<RateLimit>): seq<Tier> {
    match Effective(pp, pkgLimit)
    case None => []
    case Some(rl) => if rl.enabled then ValidTiers(rl.tiers) else []
  }

  function PackageLimit(packageLimits: map<string, RateLimit>, pkg: string): Option<RateLimit> {
    if pkg in packageLimits then Some(packageLimits[pkg]) else None
  }

  function LookUp(m: Limits, path: string, pkg: string): seq<Tier> {
    if path in m && pkg in m[path] then m[path][pkg] else []
  }

  // The tiers of the last of a link's first n paths that gives the pattern any, or else what earlier links gave.
  function FromPaths(link: Link, n: nat, path: string, pkgLimit: Option<RateLimit>, before: seq<Tier>): seq<Tier>
    requires n <= |link.paths|
  {
    if n == 0 then before
    else
      var pp := link.paths[n - 1];
      if pp.path == path && TiersFor(pp, pkgLimit) != [] then TiersFor(pp, pkgLimit)
      else FromPaths(link, n - 1, path, pkgLimit, before)
  }

  function FromLinks(links: seq<Link>, packageLimits: map<string, RateLimit>, path: string, pkg: string): seq<Tier> {
    if links == [] then []
    else
      var link, before := links[|links| - 1], FromLinks(links[..|links| - 1], packageLimits, path, pkg);
      if link.packageId == pkg then FromPaths(link, |link.paths|, path, PackageLimit(packageLimits, pkg), before)
      else before
  }

  // No pattern and no package is listed without tiers.
  ghost predicate NoEmpties(m: Limits) {
    forall path {:trigger m[path]} :: path in m ==>
      m[path] != map[] && forall pkg :: pkg in m[path] ==> m[path][pkg] != []
  }

  method KeepValid(tiers: seq<Tier>) returns (valid: seq<Tier>)
    ensures valid == ValidTiers(tiers)
  {
    valid := [];
    for i := 0 to |tiers|
      invariant valid == ValidTiers(tiers[..i])
    {
      assert tiers[..i + 1][..i] == tiers[..i];
      if tiers[i].limit > 0 && tiers[i].windowSec > 0 {
        valid := valid + [tiers[i]];
      }
    }
    assert tiers[..|tiers|] == tiers;
  }

  method BuildPathRateLimit(pp: PackagePath, pkg: string, pkgLimit: Option<RateLimit>, m: Limits) returns (r: Limits)
    requires NoEmpties(m)
    ensures NoEmpties(r)
    ensures forall path, p {:trigger LookUp(r, path, p)} ::
              LookUp(r, path, p) ==
                if path == pp.path && p == pkg && TiersFor(pp, pkgLimit) != [] then TiersFor(pp, pkgLimit)
                else LookUp(m, path, p)
  {
    r := m;
    var rl := Effective(pp, pkgLimit);
    if rl == None || !rl.value.enabled {
      return;
    }
    if |rl.value.tiers| == 0 {
      return;
    }
    var tiers := KeepValid(rl.value.tiers);
    if |tiers| == 0 {
      return;
    }
    if pp.path !in r {
      r := r[pp.path := map[]];
    }
    r := r[pp.path := r[pp.path][pkg := tiers]];
    assert pkg in r[pp.path];
  }

  method BuildRateLimitMap(links: seq<Link>, packageLimits: map<string, RateLimit>)
    returns (packageIds: seq<string>, m: Limits)
    ensures |packageIds| == |links| && forall i :: 0 <= i < |links| ==> packageIds[i] == links[i].packageId
    ensures NoEmpties(m)
    ensures forall path, pkg {:trigger LookUp(m, path, pkg)} ::
      LookUp(m, path, pkg) == FromLinks(links, packageLimits, path, pkg)
  {
    packageIds, m := [], map[];
    for i := 0 to |links|
      invariant |packageIds| == i && forall k :: 0 <= k < i ==> packageIds[k] == links[k].packageId
      invariant NoEmpties(m)
      invariant forall path, pkg {:trigger LookUp(m, path, pkg)} ::
        LookUp(m, path, pkg) == FromLinks(links[..i], packageLimits, path, pkg)
    {
      var link := links[i];
      packageIds := packageIds + [link.packageId];
      ghost var before := m;
      for j := 0 to |link.paths|
        invariant NoEmpties(m)
        invariant forall path, pkg {:trigger LookUp(m, path, pkg)} ::
          LookUp(m, path, pkg) ==
            if pkg != link.packageId then LookUp(before, path, pkg)
            else FromPaths(link, j, path, PackageLimit(packageLimits, pkg), LookUp(before, path, pkg))
      {
        m := BuildPathRateLimit(link.paths[j], link.packageId, PackageLimit(packageLimits, link.packageId), m);
      }
      assert links[..i + 1][..i] == links[..i];
    }
    assert links[..|links|] == links;
  }

  // --- choosing a pattern for a resource ---

  // The length of the longest {param} that starts here, 0 if none does: a brace, something without a slash, and
  // the last closing brace before the next slash.
  function ParamLength(s: string): (n: nat)
    ensures n <= |s|
  {
    if s == "" || s[0] != '{' then 0 else LastClose(s, 1, 0)
  }

  function LastClose(s: string, i: nat, found: nat): (n: nat)
    requires found <= |s|
    ensures n <= |s|
    decreases |s| - i
  {
    if i >= |s| || s[i] == '/' then found
    else LastClose(s, i + 1, if s[i] == '}' && i >= 2 then i + 1 else found)
  }

  // ReplaceAllString of \{[^/]+\} by *
  function StarParams(s: string): string
    decreases |s|
  {
    if s == "" then ""
    else
      var n := ParamLength(s);
      if n > 0 then "*" + StarParams(s[n..]) else [s[0]] + StarParams(s[1..])
  }

  // One segment: from the first opening to the last closing brace, with a name in between, becomes a star.
  function StarSegment(seg: string): string {
    StarBetween(seg, IndexOfChar(seg, '{'), LastIndex(seg, '}'))
  }

  function StarBetween(seg: string, i: int, j: int): string
    requires -1 <= i && j < |seg|
  {
    if i >= 0 && j >= i + 2 then seg[..i] + "*" + seg[j + 1..] else seg
  }

  function StarSegments(segs: seq<string>): (r: seq<string>)
    ensures |r| == |segs|
  {
    if segs == [] then [] else [StarSegment(segs[0])] + StarSegments(segs[1..])
  }

  // What follows a segment.
  predicate EndsSegment(tail: string) {
    tail == "" || tail[0] == '/'
  }

  lemma {:induction false} LastIndexAfter(s: string, c: char, i: nat)
    requires i < |s| && s[i] == c
    ensures LastIndex(s, c) >= i
  {
    if i < |s| - 1 {
      LastIndexAfter(s[..|s| - 1], c, i);
    }
  }

  lemma RestOfFront(s: string)
    requires |s| > 1
    ensures s[1..][..|s[1..]| - 1] == s[..|s| - 1][1..] && s[1..][|s[1..]| - 1] == s[|s| - 1]
  {
  }

  lemma {:induction false} LastIndexRest(s: string, c: char)
    requires s != ""
    ensures LastIndex(s[1..], c) == if LastIndex(s, c) >= 1 then LastIndex(s, c) - 1 else -1
  {
    if |s| > 1 {
      LastIndexRest(s[..|s| - 1], c);
      RestOfFront(s);
    }
  }

  // The scan for the closing brace finds the last one of the segment.
  lemma {:induction false} CloseIsLast(seg: string, tail: string, i: nat, found: nat)
    requires '/' !in seg && EndsSegment(tail) && i <= |seg| && found <= |seg|
    ensures
      var j := LastIndex(seg, '}');
      LastClose(seg + tail, i, found) == if j >= i && j >= 2 then j + 1 else found
    decreases |seg| - i
  {
    if i < |seg| {
      assert (seg + tail)[i] == seg[i] && seg[i] in seg;
      CloseIsLast(seg, tail, i + 1, if seg[i] == '}' && i >= 2 then i + 1 else found);
      if seg[i] == '}' {
        LastIndexAfter(seg, '}', i);
      }
    }
  }

  lemma ParamIsToLast(seg: string, tail: string)
    requires '/' !in seg && EndsSegment(tail) && seg != "" && seg[0] == '{'
    ensures
      var j := LastIndex(seg, '}');
      ParamLength(seg + tail) == if j >= 2 then j + 1 else 0
  {
    assert (seg + tail)[0] == '{';
    CloseIsLast(seg, tail, 1, 0);
  }

  lemma StarsMoveOn(seg: string, i: int, j: int)
    requires seg != "" && -1 <= i && j < |seg| - 1
    ensures StarBetween(seg, if i == -1 then -1 else i + 1, if j == -1 then -1 else j + 1)
         == [seg[0]] + StarBetween(seg[1..], i, j)
  {
    assert seg == [seg[0]] + seg[1..];
    if i >= 0 && j >= i + 2 {
      assert seg[..i + 1] == [seg[0]] + seg[1..][..i] && seg[j + 2..] == seg[1..][j + 1..];
    }
  }

  // A segment that is not matched at its first character.
  lemma StarSegmentRest(seg: string)
    requires seg != "" && (seg[0] == '{' ==> LastIndex(seg, '}') < 2)
    ensures StarSegment(seg) == [seg[0]] + StarSegment(seg[1..])
  {
    if seg[0] == '{' {
      NothingCloses(seg);
    } else {
      FirstIsPlain(seg);
    }
  }

  lemma NothingCloses(seg: string)
    requires seg != "" && seg[0] == '{' && LastIndex(seg, '}') < 2
    ensures StarSegment(seg) == seg == [seg[0]] + StarSegment(seg[1..])
  {
    LastIndexRest(seg, '}');
    assert StarSegment(seg[1..]) == seg[1..];
  }

  lemma FirstIsPlain(seg: string)
    requires seg != "" && seg[0] != '{'
    ensures StarSegment(seg) == [seg[0]] + StarSegment(seg[1..])
  {
    var i, j := IndexOfChar(seg[1..], '{'), LastIndex(seg[1..], '}');
    StarsMoveOn(seg, i, j);
    FirstIsTooEarly(seg, i, j);
  }

  // The very first character closes nothing.
  lemma FirstIsTooEarly(seg: string, i: int, j: int)
    requires seg != "" && seg[0] != '{' && i == IndexOfChar(seg[1..], '{') && j == LastIndex(seg[1..], '}')
    ensures StarSegment(seg) == StarBetween(seg, if i == -1 then -1 else i + 1, if j == -1 then -1 else j + 1)
  {
    LastIndexRest(seg, '}');
    TooEarly(seg, if i == -1 then -1 else i + 1, LastIndex(seg, '}'));
  }

  lemma TooEarly(seg: string, i: int, j: int)
    requires -1 <= i && j < |seg| && i != 0
    ensures StarBetween(seg, i, j) == StarBetween(seg, i, if j >= 1 then j else -1)
  {
  }

  // What is left of a segment that is matched at its first character.
  function AfterParam(seg: string): string {
    seg[LastIndex(seg, '}') + 1..]
  }

  lemma StarFirst(seg: string)
    requires seg != "" && seg[0] == '{' && LastIndex(seg, '}') >= 2
    ensures StarSegment(seg) == "*" + AfterParam(seg) && StarSegment(AfterParam(seg)) == AfterParam(seg)
  {
    assert seg[..0] + "*" + AfterParam(seg) == "*" + AfterParam(seg);
    assert LastIndex(AfterParam(seg), '}') == -1;
  }

  lemma StarFirstParam(seg: string, tail: string)
    requires '/' !in seg && EndsSegment(tail) && seg != "" && seg[0] == '{' && LastIndex(seg, '}') >= 2
    ensures StarParams(seg + tail) == "*" + StarParams(AfterParam(seg) + tail)
  {
    ParamIsToLast(seg, tail);
    DropAppended(seg, tail, LastIndex(seg, '}') + 1);
  }

  lemma DropAppended(a: string, b: string, n: nat)
    requires n <= |a|
    ensures (a + b)[n..] == a[n..] + b
  {
  }

  lemma StarNotFirst(seg: string, tail: string)
    requires '/' !in seg && EndsSegment(tail) && seg != "" && (seg[0] == '{' ==> LastIndex(seg, '}') < 2)
    ensures StarParams(seg + tail) == [seg[0]] + StarParams(seg[1..] + tail)
  {
    if seg[0] == '{' {
      ParamIsToLast(seg, tail);
    }
    assert (seg + tail)[0] == seg[0] && (seg + tail)[1..] == seg[1..] + tail;
  }

  lemma Associates(a: string, b: string, c: string)
    ensures a + (b + c) == a + b + c
  {
  }

  lemma {:induction false} StarOneSegment(seg: string, tail: string)
    requires '/' !in seg && EndsSegment(tail)
    ensures StarParams(seg + tail) == StarSegment(seg) + StarParams(tail)
    decreases |seg|
  {
    if seg == "" {
      assert seg + tail == tail;
    } else if seg[0] == '{' && LastIndex(seg, '}') >= 2 {
      StarFirst(seg);
      StarFirstParam(seg, tail);
      StarOneSegment(AfterParam(seg), tail);
      Associates("*", AfterParam(seg), StarParams(tail));
    } else {
      StarNotFirst(seg, tail);
      StarOneSegment(seg[1..], tail);
      StarSegmentRest(seg);
      Associates([seg[0]], StarSegment(seg[1..]), StarParams(tail));
    }
  }

  /** Segment by segment: what stands in braces becomes a star, everything around it stays. */
  lemma {:induction false} StarParamsBySegment(segs: seq<string>)
    requires segs != [] && forall i :: 0 <= i < |segs| ==> '/' !in segs[i]
    ensures StarParams(Join(segs, '/')) == Join(StarSegments(segs), '/')
  {
    if |segs| == 1 {
      StarOneSegment(segs[0], "");
      assert segs[0] + "" == segs[0];
    } else {
      StarOneSegment(segs[0], "/" + Join(segs[1..], '/'));
      StarSlash(Join(segs[1..], '/'));
      StarParamsBySegment(segs[1..]);
      JoinFirst(segs);
      JoinFirst(StarSegments(segs));
    }
  }

  lemma JoinFirst(parts: seq<string>)
    requires |parts| > 1
    ensures Join(parts, '/') == parts[0] + ("/" + Join(parts[1..], '/'))
  {
    assert parts[0] + ['/'] + Join(parts[1..], '/') == parts[0] + ("/" + Join(parts[1..], '/'));
  }

  lemma StarSlash(s: string)
    ensures StarParams("/" + s) == "/" + StarParams(s)
  {
    assert ("/" + s)[1..] == s;
  }

  // --- stars and slashes ---

  lemma {:induction false} CloseBeforeSlash(a: string, b: string, i: nat, found: nat)
    requires i <= |a| && found <= |a|
    ensures LastClose(a + "/" + b, i, found) == LastClose(a, i, found)
    decreases |a| - i
  {
    if i < |a| {
      assert (a + "/" + b)[i] == a[i];
      if a[i] != '/' {
        CloseBeforeSlash(a, b, i + 1, if a[i] == '}' && i >= 2 then i + 1 else found);
      }
    } else {
      assert (a + "/" + b)[i] == '/';
    }
  }

  lemma ParamBeforeSlash(a: string, b: string)
    requires a != ""
    ensures ParamLength(a + "/" + b) == ParamLength(a)
  {
    assert (a + "/" + b)[0] == a[0];
    CloseBeforeSlash(a, b, 1, 0);
  }

  // A parameter never reaches across a slash.
  lemma {:induction false} StarConcat(a: string, b: string)
    ensures StarParams(a + "/" + b) == StarParams(a) + "/" + StarParams(b)
    decreases |a|
  {
    if a == "" {
      assert a + "/" + b == "/" + b;
      StarSlash(b);
    } else {
      var n := ParamLength(a);
      ParamBeforeSlash(a, b);
      DropAppended(a, "/" + b, if n > 0 then n else 1);
      Associates(a, "/", b);
      if n > 0 {
        StarConcat(a[n..], b);
        Associates(a[n..], "/", b);
        Associates("*", StarParams(a[n..]), "/" + StarParams(b));
      } else {
        StarConcat(a[1..], b);
        Associates(a[1..], "/", b);
        Associates([a[0]], StarParams(a[1..]), "/" + StarParams(b));
      }
    }
  }

  lemma {:induction false} StarParamsShrinks(s: string)
    ensures |StarParams(s)| <= |s|
    decreases |s|
  {
    if s != "" {
      var n := ParamLength(s);
      StarParamsShrinks(if n > 0 then s[n..] else s[1..]);
    }
  }

  lemma StarSegmentIsDone(seg: string)
    ensures StarSegment(StarSegment(seg)) == StarSegment(seg)
  {
    var i, j := IndexOfChar(seg, '{'), LastIndex(seg, '}');
    if i >= 0 && j >= i + 2 {
      var r := seg[..i] + "*" + seg[j + 1..];
      assert forall m :: 0 <= m < i ==> r[m] == seg[..i][m];
    }
  }

  lemma {:induction false} StarSegmentsAreDone(segs: seq<string>)
    ensures StarSegments(StarSegments(segs)) == StarSegments(segs)
  {
    if segs != [] {
      StarSegmentIsDone(segs[0]);
      StarSegmentsAreDone(segs[1..]);
      assert StarSegments(segs)[1..] == StarSegments(segs[1..]);
    }
  }

  lemma {:induction false} StarSegmentsSlashFree(segs: seq<string>)
    requires forall i :: 0 <= i < |segs| ==> '/' !in segs[i]
    ensures forall i :: 0 <= i < |segs| ==> '/' !in StarSegments(segs)[i]
  {
    if segs != [] {
      StarSegmentsSlashFree(segs[1..]);
    }
  }

  /** Once is enough: a path with stars for its parameters stays as it is. */
  lemma StarParamsIsDone(path: string)
    ensures StarParams(StarParams(path)) == StarParams(path)
  {
    var segs := Split(path, '/');
    JoinOfSplit(path, '/');
    assert forall i :: 0 <= i < |segs| ==> segs[i] in segs;
    StarParamsBySegment(segs);
    StarSegmentsSlashFree(segs);
    StarParamsBySegment(StarSegments(segs));
    StarSegmentsAreDone(segs);
  }

  // What stands before a slash in such a path is done too.
  lemma StarPrefixIsDone(a: string, b: string)
    requires StarParams(a + "/" + b) == a + "/" + b
    ensures StarParams(a) == a
  {
    StarConcat(a, b);
    StarParamsShrinks(a);
    StarParamsShrinks(b);
    assert (StarParams(a) + "/" + StarParams(b))[..|a|] == a;
    assert |StarParams(a)| == |a|;
  }

  predicate IsCandidate(pattern: string, normalized: string, m: Limits) {
    pattern in m && m[pattern] != map[] && HasSuffix(pattern, "/*") &&
    HasPrefix(normalized, TrimSuffix(pattern, "/*") + "/")
  }

  // The longest candidate wins.
  ghost predicate LongestWildcard(normalized: string, m: Limits, r: Option<map<string, seq<Tier>>>) {
    match r
    case None => forall p {:trigger IsCandidate(p, normalized, m)} :: !IsCandidate(p, normalized, m)
    case Some(limits) =>
      exists best {:trigger IsCandidate(best, normalized, m)} ::
        IsCandidate(best, normalized, m) && limits == m[best] &&
        forall p {:trigger IsCandidate(p, normalized, m)} :: IsCandidate(p, normalized, m) && p != best ==> |p| < |best|
  }

  ghost predicate IsBestRateLimit(path: string, m: Limits, r: Option<map<string, seq<Tier>>>) {
    if path in m && m[path] != map[] then r == Some(m[path])
    else if StarParams(path) in m && m[StarParams(path)] != map[] then r == Some(m[StarParams(path)])
    else LongestWildcard(StarParams(path), m, r)
  }

  // Two wildcards of one length that match one path are one.
  lemma CandidatesDiffer(p: string, q: string, normalized: string, m: Limits)
    requires IsCandidate(p, normalized, m) && IsCandidate(q, normalized, m) && |p| == |q|
    ensures p == q
  {
    var n := |p| - 2;
    assert p[..n] == normalized[..n] && q[..n] == normalized[..n];
    assert p == p[..n] + "/*" && q == q[..n] + "/*";
  }

  /** The choice is determined by the map's content: no order of visiting it leads anywhere else. */
  lemma ChoiceIsUnique(path: string, m: Limits, r: Option<map<string, seq<Tier>>>, s: Option<map<string, seq<Tier>>>)
    requires IsBestRateLimit(path, m, r) && IsBestRateLimit(path, m, s)
    ensures r == s
  {
  }

  method FindBestRateLimit(path: string, m: Limits) returns (best: Option<map<string, seq<Tier>>>)
    ensures IsBestRateLimit(path, m, best)
  {
    if path in m && |m[path]| > 0 {
      return Some(m[path]);
    }
    var normalized := StarParams(path);
    if normalized in m && |m[normalized]| > 0 {
      return Some(m[normalized]);
    }
    best := FindWildcard(normalized, m);
  }

  // The best of the patterns visited so far, and where it comes from.
  ghost predicate Leads(normalized: string, m: Limits, todo: set<string>, best: Option<map<string, seq<Tier>>>,
                        winner: string)
  {
    match best
    case None => forall p {:trigger IsCandidate(p, normalized, m)} :: IsCandidate(p, normalized, m) ==> p in todo
    case Some(limits) =>
      IsCandidate(winner, normalized, m) && limits == m[winner] &&
      forall p {:trigger IsCandidate(p, normalized, m)} ::
        IsCandidate(p, normalized, m) && p !in todo && p != winner ==> |p| < |winner|
  }

  // A pattern that is no candidate, or not longer than the best so far.
  lemma PassOver(normalized: string, m: Limits, todo: set<string>, best: Option<map<string, seq<Tier>>>, winner: string,
                 pattern: string)
    requires Leads(normalized, m, todo, best, winner)
    requires !IsCandidate(pattern, normalized, m) || (best.Some? && |pattern| <= |winner|)
    ensures Leads(normalized, m, todo - {pattern}, best, winner)
  {
    if IsCandidate(pattern, normalized, m) && |pattern| == |winner| {
      CandidatesDiffer(pattern, winner, normalized, m);
    }
  }

  // A longer one.
  lemma TakeOver(normalized: string, m: Limits, todo: set<string>, best: Option<map<string, seq<Tier>>>, winner: string,
                 pattern: string)
    requires Leads(normalized, m, todo, best, winner) && IsCandidate(pattern, normalized, m)
    requires best == None || |pattern| > |winner|
    ensures Leads(normalized, m, todo - {pattern}, Some(m[pattern]), pattern)
  {
  }

  method FindWildcard(normalized: string, m: Limits) returns (best: Option<map<string, seq<Tier>>>)
    ensures LongestWildcard(normalized, m, best)
  {
    var bestPrefix := "";
    best := None;
    ghost var winner := "";
    var todo := m.Keys;
    while todo != {}
      invariant todo <= m.Keys && Leads(normalized, m, todo, best, winner)
      invariant best.Some? ==> |bestPrefix| == |winner| - 2
      decreases todo
    {
      var pattern :| pattern in todo;
      if !HasSuffix(pattern, "/*") || |m[pattern]| == 0 {
        PassOver(normalized, m, todo, best, winner, pattern);
        todo := todo - {pattern};
        continue;
      }
      var prefix := TrimSuffix(pattern, "/*");
      assert IsCandidate(pattern, normalized, m) <==> HasPrefix(normalized, prefix + "/");
      if HasPrefix(normalized, prefix + "/") && (best == None || |prefix| > |bestPrefix|) {
        TakeOver(normalized, m, todo, best, winner, pattern);
        bestPrefix, best := prefix, Some(m[pattern]);
        winner := pattern;
      } else {
        PassOver(normalized, m, todo, best, winner, pattern);
      }
      todo := todo - {pattern};
    }
  }

  // --- what each package is left with ---

  // The pattern that is chosen: the path, then the path with stars, then the longest candidate.
  ghost predicate IsChosen(path: string, m: Limits, p: string) {
    var stars := StarParams(path);
    if path in m && m[path] != map[] then p == path
    else if stars in m && m[stars] != map[] then p == stars
    else
      IsCandidate(p, stars, m) &&
      forall o {:trigger IsCandidate(o, stars, m)} :: IsCandidate(o, stars, m) && o != p ==> |o| < |p|
  }

  // The chosen pattern's limits are the answer.
  lemma ChosenIsBest(path: string, m: Limits, p: string)
    requires IsChosen(path, m, p)
    ensures p in m && m[p] != map[] && IsBestRateLimit(path, m, Some(m[p]))
  {
  }

  // What the map would be if there were no other package.
  function Only(m: Limits, pkg: string): Limits {
    map p | p in m && pkg in m[p] :: map[pkg := m[p][pkg]]
  }

  lemma OnlyCandidates(p: string, normalized: string, m: Limits, pkg: string)
    ensures IsCandidate(p, normalized, Only(m, pkg)) <==> IsCandidate(p, normalized, m) && pkg in m[p]
  {
    OnlyLists(p, m, pkg);
  }

  lemma OnlyLists(p: string, m: Limits, pkg: string)
    ensures p in Only(m, pkg) && Only(m, pkg)[p] != map[] <==> p in m && pkg in m[p]
  {
    assert p in m && pkg in m[p] ==> pkg in Only(m, pkg)[p];
  }

  /**
   The answer carries the limit of a package's own best pattern exactly when the chosen pattern lists the package,
   and then the two are one pattern.
   */
  lemma OwnLimitExactly(path: string, m: Limits, pkg: string, chosen: string, own: string)
    requires IsChosen(path, m, chosen) && IsChosen(path, Only(m, pkg), own)
    ensures chosen in m && own in m && pkg in m[own]
    ensures pkg in m[chosen] <==> chosen == own
  {
    var stars := StarParams(path);
    forall p ensures IsCandidate(p, stars, Only(m, pkg)) <==> IsCandidate(p, stars, m) && pkg in m[p] {
      OnlyCandidates(p, stars, m, pkg);
    }
  }

  /** A package without a pattern of its own for the path gets no limit from another's. */
  lemma NoOwnNoLimit(path: string, m: Limits, pkg: string, chosen: string)
    requires IsChosen(path, m, chosen) && IsBestRateLimit(path, Only(m, pkg), None)
    ensures chosen in m && pkg !in m[chosen]
  {
    OnlyCandidates(chosen, StarParams(path), m, pkg);
    OnlyLists(chosen, m, pkg);
  }

  // --- when every package keeps its own limit ---

  // What the answer gives a package.
  function Given(r: Option<map<string, seq<Tier>>>, pkg: string): Option<seq<Tier>> {
    if r.Some? && pkg in r.value then Some(r.value[pkg]) else None
  }

  lemma BestIsChosen(path: string, m: Limits, r: Option<map<string, seq<Tier>>>) returns (p: string)
    requires IsBestRateLimit(path, m, r) && r.Some?
    ensures IsChosen(path, m, p) && r.value == m[p]
  {
    var stars := StarParams(path);
    if path in m && m[path] != map[] {
      p := path;
    } else if stars in m && m[stars] != map[] {
      p := stars;
    } else {
      p :| IsCandidate(p, stars, m) && r.value == m[p] &&
        forall o {:trigger IsCandidate(o, stars, m)} :: IsCandidate(o, stars, m) && o != p ==> |o| < |p|;
    }
  }

  // Of an answer with other packages and one without, the first gives a package what the second does or nothing.
  lemma GivenExactly(path: string, m: Limits, pkg: string, r: Option<map<string, seq<Tier>>>,
                     s: Option<map<string, seq<Tier>>>)
    requires IsBestRateLimit(path, m, r) && IsBestRateLimit(path, Only(m, pkg), s)
    ensures Given(r, pkg) == Given(s, pkg) <==> s == None || (r.Some? && pkg in r.value)
    ensures s.Some? ==> r.Some? && pkg in s.value
  {
    if s.Some? {
      var own := BestIsChosen(path, Only(m, pkg), s);
      OnlyLists(own, m, pkg);
      OnlyCandidates(own, StarParams(path), m, pkg);
      OnlyHidesNothing(path, m, pkg, r, own);
      var chosen := BestIsChosen(path, m, r);
      OwnLimitExactly(path, m, pkg, chosen, own);
    } else if r.Some? {
      var chosen := BestIsChosen(path, m, r);
      NoOwnNoLimit(path, m, pkg, chosen);
    }
  }

  lemma OnlyHidesNothing(path: string, m: Limits, pkg: string, r: Option<map<string, seq<Tier>>>, own: string)
    requires IsBestRateLimit(path, m, r) && IsChosen(path, Only(m, pkg), own)
    ensures r.Some?
  {
    OnlyLists(own, m, pkg);
    OnlyCandidates(own, StarParams(path), m, pkg);
  }

  predicate Lists(m: Limits, p: string, pkg: string) {
    p in m && pkg in m[p]
  }

  // Another pattern for the path that is spelled like p: the one with stars, or a wildcard above it.
  predicate Above(q: string, p: string, m: Limits) {
    q in m && (q == StarParams(p) || IsCandidate(q, StarParams(p), m))
  }

  // Every pattern in use lists the packages of all those above it.
  ghost predicate ListsAllAbove(m: Limits) {
    forall p, q, pkg {:trigger Above(q, p, m), Lists(m, q, pkg)} ::
      p in m && m[p] != map[] && Above(q, p, m) && Lists(m, q, pkg) ==> Lists(m, p, pkg)
  }

  // On every path every package gets what it would get if there were no other.
  ghost predicate KeepsOwn(m: Limits) {
    forall path, pkg, r, s {:trigger IsBestRateLimit(path, m, r), IsBestRateLimit(path, Only(m, pkg), s)} ::
      IsBestRateLimit(path, m, r) && IsBestRateLimit(path, Only(m, pkg), s) ==> Given(r, pkg) == Given(s, pkg)
  }

  // A candidate for a path with stars is a candidate for the spelling of any longer one.
  lemma CandidateBelow(q: string, p: string, stars: string, m: Limits)
    requires StarParams(stars) == stars && IsCandidate(p, stars, m) && IsCandidate(q, stars, m) && |q| < |p|
    ensures IsCandidate(q, StarParams(p), m)
  {
    var prefix, above := TrimSuffix(p, "/*"), TrimSuffix(q, "/*");
    var rest := stars[|prefix| + 1..];
    assert stars == prefix + "/" + rest;
    StarPrefixIsDone(prefix, rest);
    StarConcat(prefix, "*");
    assert p == prefix + "/" + "*";
    StarOfStar();
    assert (above + "/") == stars[..|above| + 1] == p[..|above| + 1];
  }

  lemma StarOfStar()
    ensures StarParams("*") == "*"
  {
    assert "*"[1..] == "";
  }

  // Whatever outranks a package's own pattern has that pattern above it.
  lemma OutrankedIsAbove(path: string, m: Limits, pkg: string, chosen: string, own: string)
    requires IsChosen(path, m, chosen) && IsChosen(path, Only(m, pkg), own) && !Lists(m, chosen, pkg)
    ensures Above(own, chosen, m) && Lists(m, own, pkg)
  {
    var stars := StarParams(path);
    OnlyLists(path, m, pkg);
    OnlyLists(stars, m, pkg);
    OnlyLists(own, m, pkg);
    OnlyCandidates(own, stars, m, pkg);
    StarParamsIsDone(path);
    if IsCandidate(own, stars, m) && IsCandidate(chosen, stars, m) && |own| < |chosen| {
      CandidateBelow(own, chosen, stars, m);
    }
  }

  lemma {:induction false} LongestOf(c: set<string>) returns (p: string)
    requires c != {}
    ensures p in c && forall o :: o in c ==> |o| <= |p|
    decreases |c|
  {
    p :| p in c;
    if c != {p} {
      var q := LongestOf(c - {p});
      if |q| > |p| {
        p := q;
      }
    }
  }

  // There is always an answer.
  lemma AnswerExists(path: string, m: Limits) returns (r: Option<map<string, seq<Tier>>>)
    ensures IsBestRateLimit(path, m, r)
  {
    var stars := StarParams(path);
    var candidates := set p | p in m && IsCandidate(p, stars, m);
    if path in m && m[path] != map[] {
      r := Some(m[path]);
    } else if stars in m && m[stars] != map[] {
      r := Some(m[stars]);
    } else if candidates == {} {
      r := None;
      assert forall p :: IsCandidate(p, stars, m) ==> p in candidates;
    } else {
      var best := LongestOf(candidates);
      r := Some(m[best]);
      forall p | IsCandidate(p, stars, m) && p != best ensures |p| < |best| {
        assert p in candidates;
        if |p| == |best| {
          CandidatesDiffer(p, best, stars, m);
        }
      }
    }
  }

  // The path spelled like a pattern that omits a package listed above it.
  lemma OmittedIsDropped(m: Limits, p: string, q: string, pkg: string)
    requires p in m && m[p] != map[] && Above(q, p, m) && Lists(m, q, pkg) && !Lists(m, p, pkg)
    ensures !KeepsOwn(m)
  {
    ChosenIsBest(p, m, p);
    var s := AnswerExists(p, Only(m, pkg));
    OnlyLists(p, m, pkg);
    OnlyLists(q, m, pkg);
    OnlyCandidates(q, StarParams(p), m, pkg);
    assert s.Some?;
    GivenExactly(p, m, pkg, Some(m[p]), s);
  }

  /**
   Every package keeps its own limit on every path exactly when every pattern lists the packages of the pattern with
   stars in its place and of all wildcards above it.
   */
  lemma KeepsOwnExactly(m: Limits)
    ensures KeepsOwn(m) <==> ListsAllAbove(m)
  {
    if ListsAllAbove(m) {
      forall path, pkg, r, s | IsBestRateLimit(path, m, r) && IsBestRateLimit(path, Only(m, pkg), s)
        ensures Given(r, pkg) == Given(s, pkg)
      {
        GivenExactly(path, m, pkg, r, s);
        if s.Some? {
          var chosen := BestIsChosen(path, m, r);
          var own := BestIsChosen(path, Only(m, pkg), s);
          if !Lists(m, chosen, pkg) {
            OutrankedIsAbove(path, m, pkg, chosen, own);
          }
        }
      }
    } else {
      var p, q, pkg :| p in m && m[p] != map[] && Above(q, p, m) && Lists(m, q, pkg) && !Lists(m, p, pkg);
      OmittedIsDropped(m, p, q, pkg);
    }
  }

  /**
   Only the chosen pattern counts: below a pattern that does not list it, a package limited through a shorter one
   gets no limit on the resource.
   */
  lemma OtherPackagesAreDropped(prefix: string, path: string, a: seq<Tier>, b: seq<Tier>)
    requires prefix != "" && HasPrefix(StarParams(path), prefix + "/") && HasPrefix(StarParams(path), "/")
    requires path !in {"/*", prefix + "/*"} && StarParams(path) !in {"/*", prefix + "/*"}
    ensures
      var m: Limits := map["/*" := map["A" := a], prefix + "/*" := map["B" := b]];
      IsChosen(path, m, prefix + "/*") && IsChosen(path, Only(m, "A"), "/*") && "A" !in m[prefix + "/*"]
  {
    var long := prefix + "/*";
    var m: Limits := map["/*" := map["A" := a], long := map["B" := b]];
    assert long[|prefix|..] == "/*" && long[..|prefix|] == prefix;
    assert "B" in m[long] && "A" in m["/*"];
    RootMatches(StarParams(path), Only(m, "A"));
    OnlyLists("/*", m, "A");
    forall p | p in m ensures p == "/*" || p == long {
    }
    forall p | p in Only(m, "A") ensures p == "/*" {
    }
  }

  lemma RootMatches(path: string, m: Limits)
    requires "/*" in m && m["/*"] != map[] && HasPrefix(path, "/")
    ensures IsCandidate("/*", path, m)
  {
    assert "/*"[..0] == "" && "/*"[0..] == "/*" && TrimSuffix("/*", "/*") == "";
    assert "" + "/" == "/";
  }
}
