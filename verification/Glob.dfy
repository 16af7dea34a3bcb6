/** Wildcard search over variable names: '*' stands for any run of characters, even none. */
module Glob {
  import opened GoStrings

  // What a pattern means: it matches the characters of s from lo up to hi.
  predicate Globs(pattern: string, s: string, lo: nat, hi: nat)
    requires lo <= hi <= |s|
    decreases |pattern| + hi - lo
  {
    if pattern == "" then lo == hi
    else if pattern[0] == '*' then Globs(pattern[1..], s, lo, hi) || (lo < hi && Globs(pattern, s, lo + 1, hi))
    else lo < hi && s[lo] == pattern[0] && Globs(pattern[1..], s, lo + 1, hi)
  }

  predicate Occurs(p: string, s: string, at: nat) {
    at + |p| <= |s| && s[at..at + |p|] == p
  }

  // strings.Index in s[from..], as a position in s.
  function Find(p: string, s: string, from: nat): (at: Option<nat>)
    requires from <= |s|
    ensures at.Some? ==> from <= at.value && at.value + |p| <= |s|
    decreases |s| - from
  {
    if Occurs(p, s, from) then Some(from) else if from == |s| then None else Find(p, s, from + 1)
  }

  lemma {:induction false} FindIsLeftmost(p: string, s: string, from: nat)
    requires from <= |s|
    ensures
      match Find(p, s, from)
      case None => forall k {:trigger Occurs(p, s, k)} :: from <= k ==> !Occurs(p, s, k)
      case Some(i) => Occurs(p, s, i) && forall k {:trigger Occurs(p, s, k)} :: from <= k < i ==> !Occurs(p, s, k)
    decreases |s| - from
  {
    if !Occurs(p, s, from) && from != |s| {
      FindIsLeftmost(p, s, from + 1);
    }
  }

  // Where the leftmost search for the parts, one after the other, ends.
  function End(parts: seq<string>, s: string, from: nat): (e: Option<nat>)
    requires from <= |s|
    ensures e.Some? ==> from <= e.value <= |s|
    decreases |parts|
  {
    if parts == [] then Some(from)
    else
      match Find(parts[0], s, from)
      case None => None
      case Some(i) => End(parts[1..], s, i + |parts[0]|)
  }

  // The first part must be where the string starts.
  function Greedy(parts: seq<string>, s: string): Option<nat>
    requires parts != []
  {
    if Occurs(parts[0], s, 0) then End(parts[1..], s, |parts[0]|) else None
  }

  predicate Accepts(pattern: string, s: string)
    requires '*' in pattern
  {
    var m := Greedy(Split(pattern, '*'), s);
    m.Some? && (HasSuffix(pattern, "*") || m == Some(|s|))
  }

  // --- the code ---

  method MatchParts(parts: seq<string>, trailingStar: bool, s: string) returns (r: bool)
    requires parts != []
    ensures r == (Greedy(parts, s).Some? && (trailingStar || Greedy(parts, s) == Some(|s|)))
  {
    var pos: nat := 0;
    for i := 0 to |parts|
      invariant pos <= |s| && (i == 0 ==> pos == 0)
      invariant i > 0 ==> Greedy(parts, s) == End(parts[i..], s, pos)
    {
      var p := parts[i];
      assert parts[i..][0] == p && parts[i..][1..] == parts[i + 1..];
      FindIsLeftmost(p, s, pos);
      if p == "" {
        assert Occurs(p, s, pos);
        continue;
      }
      var at := Find(p, s, pos);
      if at == None {
        return false;
      }
      if i == 0 && at.value != 0 {
        return false;
      }
      pos := at.value + |p|;
    }
    return trailingStar || pos == |s|;
  }

  method MatchWildcard(pattern: string, s: string) returns (r: bool)
    ensures r == if '*' in pattern then Accepts(pattern, s) else exists k: nat :: Occurs(pattern, s, k)
  {
    if '*' !in pattern {
      FindIsLeftmost(pattern, s, 0);
      return Find(pattern, s, 0).Some?;
    }
    r := MatchParts(Split(pattern, '*'), HasSuffix(pattern, "*"), s);
  }

  // --- what the pattern means, part by part ---

  function Stars(parts: seq<string>): string {
    if parts == [] then "" else "*" + (parts[0] + Stars(parts[1..]))
  }

  ghost predicate StarFree(parts: seq<string>) {
    forall i {:trigger parts[i]} :: 0 <= i < |parts| ==> '*' !in parts[i]
  }

  lemma {:induction false} JoinStars(parts: seq<string>)
    requires parts != []
    ensures Join(parts, '*') == parts[0] + Stars(parts[1..])
  {
    if |parts| > 1 {
      JoinStars(parts[1..]);
    }
  }

  lemma {:induction false} GlobLiteral(p: string, rest: string, s: string, lo: nat, hi: nat)
    requires '*' !in p && lo <= hi <= |s|
    ensures Globs(p + rest, s, lo, hi) <==> lo + |p| <= hi && Occurs(p, s, lo) && Globs(rest, s, lo + |p|, hi)
  {
    if p == "" {
      assert p + rest == rest;
    } else {
      assert p[0] in p && (p + rest)[1..] == p[1..] + rest;
      if lo < hi && s[lo] == p[0] {
        GlobLiteral(p[1..], rest, s, lo + 1, hi);
        assert p == [p[0]] + p[1..];
        assert lo + |p| <= |s| ==> s[lo..lo + |p|] == [s[lo]] + s[lo + 1..lo + |p|];
      } else if lo + |p| <= hi {
        assert s[lo..lo + |p|][0] == s[lo];
      }
    }
  }

  // A star takes the characters up to some k.
  lemma {:induction false} GlobStar(rest: string, s: string, lo: nat, hi: nat, k: nat)
    requires lo <= k <= hi <= |s| && Globs(rest, s, k, hi)
    ensures Globs("*" + rest, s, lo, hi)
    decreases k - lo
  {
    assert ("*" + rest)[1..] == rest;
    if lo < k {
      GlobStar(rest, s, lo + 1, hi, k);
    }
  }

  lemma {:induction false} GlobStarSplit(rest: string, s: string, lo: nat, hi: nat) returns (k: nat)
    requires lo <= hi <= |s| && Globs("*" + rest, s, lo, hi)
    ensures lo <= k <= hi && Globs(rest, s, k, hi)
    decreases hi - lo
  {
    assert ("*" + rest)[1..] == rest;
    k := lo;
    if !Globs(rest, s, lo, hi) {
      k := GlobStarSplit(rest, s, lo + 1, hi);
    }
  }

  // The leftmost search ends no later than any match.
  lemma {:induction false} EndIsLeast(parts: seq<string>, s: string, from: nat, start: nat, e: nat)
    requires StarFree(parts) && from <= start <= e <= |s| && Globs(Stars(parts), s, start, e)
    ensures
      var end := if parts == [] then Some(start) else End(parts, s, from);
      end.Some? && end.value <= e
    decreases |parts|
  {
    if parts != [] {
      var p, rest := parts[0], Stars(parts[1..]);
      var k := GlobStarSplit(p + rest, s, start, e);
      GlobLiteral(p, rest, s, k, e);
      FindIsLeftmost(p, s, from);
      EndIsLeast(parts[1..], s, Find(p, s, from).value + |p|, k + |p|, e);
    }
  }

  // The leftmost search ends where a match ends.
  lemma {:induction false} EndGlobs(parts: seq<string>, s: string, from: nat)
    requires StarFree(parts) && from <= |s| && End(parts, s, from).Some?
    ensures Globs(Stars(parts), s, from, End(parts, s, from).value)
    decreases |parts|
  {
    if parts != [] {
      var p, rest, e := parts[0], Stars(parts[1..]), End(parts, s, from).value;
      var i := Find(p, s, from).value;
      FindIsLeftmost(p, s, from);
      EndGlobs(parts[1..], s, i + |p|);
      GlobLiteral(p, rest, s, i, e);
      GlobStar(p + rest, s, from, e, i);
    }
  }

  // With a star at the end anything may follow.
  lemma {:induction false} GlobExtend(pattern: string, s: string, lo: nat, hi: nat, more: nat)
    requires HasSuffix(pattern, "*") && lo <= hi <= more <= |s| && Globs(pattern, s, lo, hi)
    ensures Globs(pattern, s, lo, more)
    decreases |pattern| + more - lo
  {
    if pattern == "*" {
      assert "*" == "*" + "";
      GlobStar("", s, lo, more, more);
    } else if pattern[0] == '*' && Globs(pattern[1..], s, lo, hi) {
      GlobExtend(pattern[1..], s, lo, hi, more);
    } else if pattern[0] == '*' {
      GlobExtend(pattern, s, lo + 1, hi, more);
    } else {
      GlobExtend(pattern[1..], s, lo + 1, hi, more);
    }
  }

  // --- the theorems ---

  lemma PatternParts(pattern: string) returns (parts: seq<string>)
    requires '*' in pattern
    ensures parts == Split(pattern, '*') && StarFree(parts) && parts != [] && pattern == parts[0] + Stars(parts[1..])
  {
    parts := Split(pattern, '*');
    JoinOfSplit(pattern, '*');
    JoinStars(parts);
  }

  // The first e characters match.
  predicate PrefixGlobs(pattern: string, s: string, e: nat)
    requires e <= |s|
  {
    Globs(pattern, s, 0, e)
  }

  // The search finds the shortest prefix that matches, and finds one exactly when there is one.
  lemma GreedyIsShortest(pattern: string, s: string)
    requires '*' in pattern
    ensures
      match Greedy(Split(pattern, '*'), s)
      case None => forall e {:trigger PrefixGlobs(pattern, s, e)} :: 0 <= e <= |s| ==> !PrefixGlobs(pattern, s, e)
      case Some(m) =>
        m <= |s| && PrefixGlobs(pattern, s, m) &&
        forall e {:trigger PrefixGlobs(pattern, s, e)} :: 0 <= e < m ==> !PrefixGlobs(pattern, s, e)
  {
    var parts := PatternParts(pattern);
    var p, rest := parts[0], parts[1..];
    forall e | 0 <= e <= |s| && PrefixGlobs(pattern, s, e)
      ensures Greedy(parts, s).Some? && Greedy(parts, s).value <= e
    {
      GlobLiteral(p, Stars(rest), s, 0, e);
      EndIsLeast(rest, s, |p|, |p|, e);
    }
    if Greedy(parts, s).Some? {
      EndGlobs(rest, s, |p|);
      GlobLiteral(p, Stars(rest), s, 0, Greedy(parts, s).value);
    }
  }

  /** With a star at the end the search decides the pattern on every string. */
  lemma TrailingStarIsComplete(pattern: string, s: string)
    requires HasSuffix(pattern, "*")
    ensures '*' in pattern && (Accepts(pattern, s) <==> Globs(pattern, s, 0, |s|))
  {
    assert pattern[|pattern| - 1] == '*';
    GreedyIsShortest(pattern, s);
    assert PrefixGlobs(pattern, s, |s|) <==> Globs(pattern, s, 0, |s|);
    var m := Greedy(Split(pattern, '*'), s);
    if m.Some? {
      GlobExtend(pattern, s, 0, m.value, |s|);
    }
  }

  /**
   Without one it accepts only true matches, and of those exactly the strings no shorter prefix of which
   matches: the leftmost search never goes back for a later occurrence.
   */
  lemma AcceptsShortestMatches(pattern: string, s: string)
    requires '*' in pattern && !HasSuffix(pattern, "*")
    ensures Accepts(pattern, s)
       <==> Globs(pattern, s, 0, |s|) &&
            forall e {:trigger PrefixGlobs(pattern, s, e)} :: 0 <= e < |s| ==> !PrefixGlobs(pattern, s, e)
  {
    GreedyIsShortest(pattern, s);
    assert PrefixGlobs(pattern, s, |s|) <==> Globs(pattern, s, 0, |s|);
  }

  /** A true match that is turned down: "a*b" against "abb". */
  lemma MissesLaterOccurrence()
    ensures Globs("a*b", "abb", 0, 3) && !Accepts("a*b", "abb")
  {
    var s := "abb";
    assert "a*b"[1..] == "*b" && "*b"[1..] == "b" && "b"[1..] == "";
    assert Globs("b", s, 2, 3) && Globs("b", s, 1, 2);
    assert Globs("*b", s, 1, 3) && Globs("*b", s, 1, 2);
    AcceptsShortestMatches("a*b", s);
    assert PrefixGlobs("a*b", s, 2);
  }
}
