/** The limits a resource gets, said of the links and of the segments of its path. */
module RateLimitChoice {
  import opened GoStrings
  import opened RateLimitTier
  import opened RateLimitPayload

  // --- what is listed ---

  // The limit of a package's path: its own, or else the package's.
  function LimitOf(pp: PackagePath, packageLimits: map<string, RateLimit>, pkg: string): Option<RateLimit> {
    if pp.own.Some? then pp.own
    else if pkg in packageLimits then Some(packageLimits[pkg])
    else None
  }

  predicate Usable(tier: Tier) {
    tier.limit > 0 && tier.windowSec > 0
  }

  ghost predicate SomeUsable(tiers: seq<Tier>) {
    exists tier {:trigger tier in tiers} :: tier in tiers && Usable(tier)
  }

  // The j-th path of the i-th link gives the package tiers for the pattern.
  ghost predicate Gives(links: seq<Link>, packageLimits: map<string, RateLimit>, path: string, pkg: string,
                        i: nat, j: nat)
  {
    i < |links| && j < |links[i].paths| && links[i].packageId == pkg && links[i].paths[j].path == path &&
    var limit := LimitOf(links[i].paths[j], packageLimits, pkg);
    limit.Some? && limit.value.enabled && SomeUsable(limit.value.tiers)
  }

  /** Of a limit's tiers the usable ones are kept, in order. */
  lemma {:induction false} KeepsUsable(a: seq<Tier>, b: seq<Tier>)
    ensures ValidTiers(a + b) == ValidTiers(a) + ValidTiers(b)
  {
    if b == [] {
      assert a + b == a;
    } else {
      KeepsUsable(a, b[..|b| - 1]);
      assert (a + b)[..|a + b| - 1] == a + b[..|b| - 1];
    }
  }

  lemma OneUsable(tier: Tier)
    ensures ValidTiers([tier]) == if Usable(tier) then [tier] else []
  {
    assert [tier][..0] == [];
  }

  lemma {:induction false} NoneUsable(tiers: seq<Tier>)
    ensures ValidTiers(tiers) != [] <==> SomeUsable(tiers)
  {
    if tiers != [] {
      var before, last := tiers[..|tiers| - 1], tiers[|tiers| - 1];
      NoneUsable(before);
      assert forall tier {:trigger tier in tiers} {:trigger tier in before} ::
        tier in tiers <==> tier in before || tier == last;
      assert last in tiers;
    }
  }

  lemma TiersGiven(links: seq<Link>, packageLimits: map<string, RateLimit>, path: string, pkg: string, i: nat, j: nat)
    requires i < |links| && j < |links[i].paths| && links[i].packageId == pkg && links[i].paths[j].path == path
    ensures
      var tiers := TiersFor(links[i].paths[j], PackageLimit(packageLimits, pkg));
      Gives(links, packageLimits, path, pkg, i, j) <==> tiers != []
  {
    var limit := LimitOf(links[i].paths[j], packageLimits, pkg);
    if limit.Some? {
      NoneUsable(limit.value.tiers);
    }
  }

  // No path of the link from the n-th on gives any.
  ghost predicate NoneFrom(links: seq<Link>, packageLimits: map<string, RateLimit>, path: string, pkg: string,
                           i: nat, n: nat)
  {
    forall j: nat {:trigger Gives(links, packageLimits, path, pkg, i, j)} ::
      n <= j ==> !Gives(links, packageLimits, path, pkg, i, j)
  }

  // The last path of the last link to give any.
  ghost predicate LastToGive(links: seq<Link>, packageLimits: map<string, RateLimit>, path: string, pkg: string,
                             i: nat, j: nat)
  {
    Gives(links, packageLimits, path, pkg, i, j) && NoneFrom(links, packageLimits, path, pkg, i, j + 1) &&
    forall k: nat {:trigger NoneFrom(links, packageLimits, path, pkg, k, 0)} ::
      i < k ==> NoneFrom(links, packageLimits, path, pkg, k, 0)
  }

  lemma {:induction false} LinkGives(links: seq<Link>, packageLimits: map<string, RateLimit>, path: string, pkg: string,
                                     i: nat, n: nat, before: seq<Tier>) returns (j: int)
    requires i < |links| && n <= |links[i].paths| && links[i].packageId == pkg
    requires NoneFrom(links, packageLimits, path, pkg, i, n)
    ensures
      var r := FromPaths(links[i], n, path, PackageLimit(packageLimits, pkg), before);
      if j < 0 then r == before && NoneFrom(links, packageLimits, path, pkg, i, 0)
      else
        Gives(links, packageLimits, path, pkg, i, j) && NoneFrom(links, packageLimits, path, pkg, i, j + 1) &&
        r == ValidTiers(LimitOf(links[i].paths[j], packageLimits, pkg).value.tiers)
  {
    j := -1;
    if n > 0 {
      if links[i].paths[n - 1].path == path {
        TiersGiven(links, packageLimits, path, pkg, i, n - 1);
      }
      if Gives(links, packageLimits, path, pkg, i, n - 1) {
        j := n - 1;
      } else {
        j := LinkGives(links, packageLimits, path, pkg, i, n - 1, before);
      }
    }
  }

  lemma PrefixGives(links: seq<Link>, packageLimits: map<string, RateLimit>, path: string, pkg: string, n: nat,
                    i: nat, j: nat)
    requires i < n <= |links|
    ensures Gives(links[..n], packageLimits, path, pkg, i, j) <==> Gives(links, packageLimits, path, pkg, i, j)
  {
    assert links[..n][i] == links[i];
  }

  // Nothing that comes later gives any.
  lemma LastInPrefix(links: seq<Link>, packageLimits: map<string, RateLimit>, path: string, pkg: string, n: nat,
                     i: nat, j: nat)
    requires n == |links| - 1 && LastToGive(links[..n], packageLimits, path, pkg, i, j)
    requires NoneFrom(links, packageLimits, path, pkg, n, 0)
    ensures LastToGive(links, packageLimits, path, pkg, i, j)
  {
    forall k: nat, l: nat | k < n
      ensures Gives(links[..n], packageLimits, path, pkg, k, l) <==> Gives(links, packageLimits, path, pkg, k, l)
    {
      PrefixGives(links, packageLimits, path, pkg, n, k, l);
    }
    forall k: nat | i < k ensures NoneFrom(links, packageLimits, path, pkg, k, 0) {
      assert NoneFrom(links[..n], packageLimits, path, pkg, k, 0);
    }
    assert forall l: nat {:trigger Gives(links, packageLimits, path, pkg, i, l)} :: j + 1 <= l ==>
      (Gives(links[..n], packageLimits, path, pkg, i, l) <==> Gives(links, packageLimits, path, pkg, i, l));
  }

  /**
   What a package is listed with for a pattern: the usable tiers of the last path, of the last link, that has any for
   it; nothing exactly when none has.
   */
  lemma {:induction false} ListedIsLastGiven(links: seq<Link>, packageLimits: map<string, RateLimit>, path: string,
                                             pkg: string) returns (i: nat, j: nat)
    ensures
      var r := FromLinks(links, packageLimits, path, pkg);
      if r == [] then forall k: nat, l: nat :: !Gives(links, packageLimits, path, pkg, k, l)
      else
        LastToGive(links, packageLimits, path, pkg, i, j) &&
        r == ValidTiers(LimitOf(links[i].paths[j], packageLimits, pkg).value.tiers)
  {
    i, j := 0, 0;
    if links != [] {
      var n := |links| - 1;
      var before := FromLinks(links[..n], packageLimits, path, pkg);
      i, j := ListedIsLastGiven(links[..n], packageLimits, path, pkg);
      forall k: nat, l: nat | k < n
        ensures Gives(links[..n], packageLimits, path, pkg, k, l) <==> Gives(links, packageLimits, path, pkg, k, l)
      {
        PrefixGives(links, packageLimits, path, pkg, n, k, l);
      }
      var own := -1;
      if links[n].packageId == pkg {
        own := LinkGives(links, packageLimits, path, pkg, n, |links[n].paths|, before);
      }
      if own >= 0 {
        NoneUsable(LimitOf(links[n].paths[own], packageLimits, pkg).value.tiers);
        i, j := n, own;
      } else if before != [] {
        LastInPrefix(links, packageLimits, path, pkg, n, i, j);
      }
    }
  }

  // --- which pattern is chosen ---

  // A pattern that lists something.
  predicate Lists(m: Limits, pattern: string) {
    pattern in m && m[pattern] != map[]
  }

  // The wildcard over everything below the first n segments.
  function WildAt(segs: seq<string>, n: nat): string
    requires n <= |segs|
  {
    Join(segs[..n] + ["*"], '/')
  }

  lemma WildIsPrefix(segs: seq<string>, n: nat)
    requires 0 < n < |segs|
    ensures WildAt(segs, n) == Join(segs[..n], '/') + "/*"
    ensures Join(segs, '/') == Join(segs[..n], '/') + "/" + Join(segs[n..], '/')
  {
    JoinConcat(segs[..n], ["*"], '/');
    StarAtEnd(Join(segs[..n], '/'));
    SegmentsCut(segs, n);
  }

  lemma StarAtEnd(front: string)
    ensures front + ['/'] + Join(["*"], '/') == front + "/*"
  {
    assert front + ['/'] + "*" == front + "/*";
  }

  lemma SegmentsCut(segs: seq<string>, n: nat)
    requires 0 < n < |segs|
    ensures Join(segs, '/') == Join(segs[..n], '/') + "/" + Join(segs[n..], '/')
  {
    JoinConcat(segs[..n], segs[n..], '/');
    assert segs == segs[..n] + segs[n..];
  }

  lemma {:induction false} WildGrows(segs: seq<string>, a: nat, b: nat)
    requires 0 < a < b < |segs|
    ensures |WildAt(segs, a)| < |WildAt(segs, b)|
  {
    WildIsPrefix(segs, a);
    WildIsPrefix(segs, b);
    assert segs[..b] == segs[..a] + segs[a..b];
    JoinConcat(segs[..a], segs[a..b], '/');
  }

  // What stands before a slash in a path is the first segments of it.
  lemma PrefixIsSegments(segs: seq<string>, front: string, back: string) returns (n: nat)
    requires segs != [] && (forall p :: p in segs ==> '/' !in p) && Join(segs, '/') == front + "/" + back
    ensures 0 < n < |segs| && Join(segs[..n], '/') == front
  {
    var a, b := Split(front, '/'), Split(back, '/');
    JoinOfSplit(front, '/');
    JoinOfSplit(back, '/');
    JoinConcat(a, b, '/');
    JoinInjective(segs, a + b, '/');
    n := |a|;
    assert (a + b)[..n] == a;
  }

  lemma CandidateIsWild(segs: seq<string>, m: Limits, pattern: string) returns (n: nat)
    requires segs != [] && (forall p :: p in segs ==> '/' !in p) && IsCandidate(pattern, Join(segs, '/'), m)
    ensures 0 < n < |segs| && pattern == WildAt(segs, n) && Lists(m, pattern)
  {
    var s, front := Join(segs, '/'), TrimSuffix(pattern, "/*");
    assert pattern == front + "/*" && s == front + "/" + s[|front| + 1..];
    n := PrefixIsSegments(segs, front, s[|front| + 1..]);
    WildIsPrefix(segs, n);
  }

  lemma WildIsCandidate(segs: seq<string>, m: Limits, n: nat)
    requires 0 < n < |segs| && Lists(m, WildAt(segs, n))
    ensures IsCandidate(WildAt(segs, n), Join(segs, '/'), m)
  {
    WildIsPrefix(segs, n);
    var pattern, front := WildAt(segs, n), Join(segs[..n], '/');
    assert HasSuffix(pattern, "/*") && TrimSuffix(pattern, "/*") == front;
    assert Join(segs, '/')[..|front| + 1] == front + "/";
  }

  // The deepest wildcard above the path that lists anything.
  ghost predicate DeepestWild(segs: seq<string>, m: Limits, r: Option<map<string, seq<Tier>>>) {
    match r
    case None => forall n {:trigger WildAt(segs, n)} :: 0 < n < |segs| ==> !Lists(m, WildAt(segs, n))
    case Some(limits) =>
      exists n {:trigger WildAt(segs, n)} ::
        0 < n < |segs| && Lists(m, WildAt(segs, n)) && limits == m[WildAt(segs, n)] &&
        forall k {:trigger WildAt(segs, k)} :: n < k < |segs| ==> !Lists(m, WildAt(segs, k))
  }

  lemma LongestIsDeepest(segs: seq<string>, m: Limits, r: Option<map<string, seq<Tier>>>)
    requires segs != [] && forall p :: p in segs ==> '/' !in p
    ensures LongestWildcard(Join(segs, '/'), m, r) ==> DeepestWild(segs, m, r)
  {
    if LongestWildcard(Join(segs, '/'), m, r) {
      forall n: nat | 0 < n < |segs| && Lists(m, WildAt(segs, n))
        ensures IsCandidate(WildAt(segs, n), Join(segs, '/'), m)
      {
        WildIsCandidate(segs, m, n);
      }
      if r.Some? {
        var best :| IsCandidate(best, Join(segs, '/'), m) && r.value == m[best] &&
          forall p {:trigger IsCandidate(p, Join(segs, '/'), m)} ::
            IsCandidate(p, Join(segs, '/'), m) && p != best ==> |p| < |best|;
        var n := CandidateIsWild(segs, m, best);
        forall k: nat | n < k < |segs| ensures !Lists(m, WildAt(segs, k)) {
          WildGrows(segs, n, k);
        }
      }
    }
  }

  lemma DeepestIsLongest(segs: seq<string>, m: Limits, r: Option<map<string, seq<Tier>>>)
    requires segs != [] && forall p :: p in segs ==> '/' !in p
    ensures DeepestWild(segs, m, r) ==> LongestWildcard(Join(segs, '/'), m, r)
  {
    if DeepestWild(segs, m, r) {
      var s := Join(segs, '/');
      if r.Some? {
        var n: nat :| 0 < n < |segs| && Lists(m, WildAt(segs, n)) && r.value == m[WildAt(segs, n)] &&
          forall k {:trigger WildAt(segs, k)} :: n < k < |segs| ==> !Lists(m, WildAt(segs, k));
        WildIsCandidate(segs, m, n);
        forall p | IsCandidate(p, s, m) && p != WildAt(segs, n) ensures |p| < |WildAt(segs, n)| {
          var k := CandidateIsWild(segs, m, p);
          assert k < n;
          WildGrows(segs, k, n);
        }
      } else {
        forall p ensures !IsCandidate(p, s, m) {
          if IsCandidate(p, s, m) {
            var k := CandidateIsWild(segs, m, p);
          }
        }
      }
    }
  }

  /**
   Said of segments: a path gets the limits listed for it, or else those for it with a star for each parameter, or else
   those of the deepest wildcard above that, which replaces all segments from some point on, but not the first: of a
   path that begins with a slash that one is empty.
   */
  lemma BestBySegments(path: string, m: Limits, r: Option<map<string, seq<Tier>>>)
    ensures
      var segs := StarSegments(Split(path, '/'));
      IsBestRateLimit(path, m, r) <==>
      if Lists(m, path) then r == Some(m[path])
      else if Lists(m, Join(segs, '/')) then r == Some(m[Join(segs, '/')])
      else DeepestWild(segs, m, r)
  {
    var parts := Split(path, '/');
    var segs := StarSegments(parts);
    JoinOfSplit(path, '/');
    assert forall i :: 0 <= i < |parts| ==> parts[i] in parts;
    StarParamsBySegment(parts);
    StarSegmentsSlashFree(parts);
    LongestIsDeepest(segs, m, r);
    DeepestIsLongest(segs, m, r);
  }
}
