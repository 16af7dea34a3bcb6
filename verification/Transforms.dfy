/** Sorting by descending score, in place, by insertion. */
module StableSort {

  // Behind everything that scores at least as much.
  function InsertLast<T>(s: seq<T>, x: T, score: T -> int): seq<T> {
    if s == [] then [x]
    else
      var last := s[|s| - 1];
      if score(x) > score(last) then InsertLast(s[..|s| - 1], x, score) + [last] else s + [x]
  }

  function Sorted<T>(s: seq<T>, score: T -> int): seq<T> {
    if s == [] then [] else InsertLast(Sorted(s[..|s| - 1], score), s[|s| - 1], score)
  }

  ghost predicate Descending<T>(s: seq<T>, score: T -> int) {
    forall i, j {:trigger s[i], s[j]} :: 0 <= i < j < |s| ==> score(s[i]) >= score(s[j])
  }

  // The elements with a given score, in order.
  function WithScore<T>(s: seq<T>, k: int, score: T -> int): seq<T> {
    if s == [] then []
    else
      var last := s[|s| - 1];
      WithScore(s[..|s| - 1], k, score) + if score(last) == k then [last] else []
  }

  lemma {:induction false} InsertPermutes<T>(s: seq<T>, x: T, score: T -> int)
    ensures
      var r := InsertLast(s, x, score);
      |r| == |s| + 1 && multiset(r) == multiset(s) + multiset{x} && forall i :: 0 <= i < |r| ==> r[i] == x || r[i] in s
  {
    if s != [] {
      InsertPermutes(s[..|s| - 1], x, score);
      assert s == s[..|s| - 1] + [s[|s| - 1]];
    }
  }

  lemma {:induction false} InsertKeepsOrder<T>(s: seq<T>, x: T, score: T -> int)
    requires Descending(s, score)
    ensures Descending(InsertLast(s, x, score), score)
  {
    if s != [] && score(x) > score(s[|s| - 1]) {
      var before := s[..|s| - 1];
      InsertKeepsOrder(before, x, score);
      InsertPermutes(before, x, score);
    }
  }

  lemma {:induction false} InsertIsStable<T>(s: seq<T>, x: T, k: int, score: T -> int)
    requires Descending(s, score)
    ensures WithScore(InsertLast(s, x, score), k, score) == WithScore(s + [x], k, score)
  {
    assert (s + [x])[..|s|] == s;
    if s != [] && score(x) > score(s[|s| - 1]) {
      var before, last := s[..|s| - 1], s[|s| - 1];
      InsertIsStable(before, x, k, score);
      assert (before + [x])[..|before|] == before;
      var r := InsertLast(before, x, score);
      assert (r + [last])[..|r|] == r;
    } else {
      assert InsertLast(s, x, score) == s + [x];
    }
  }

  lemma {:induction false} SortedPermutes<T>(s: seq<T>, score: T -> int)
    ensures multiset(Sorted(s, score)) == multiset(s) && |Sorted(s, score)| == |s|
  {
    if s != [] {
      var before, last := s[..|s| - 1], s[|s| - 1];
      SortedPermutes(before, score);
      InsertPermutes(Sorted(before, score), last, score);
      assert s == before + [last];
    }
  }

  lemma {:induction false} SortedDescends<T>(s: seq<T>, score: T -> int)
    ensures Descending(Sorted(s, score), score)
  {
    if s != [] {
      var before, last := s[..|s| - 1], s[|s| - 1];
      SortedDescends(before, score);
      InsertKeepsOrder(Sorted(before, score), last, score);
    }
  }

  lemma {:induction false} SortedKeepsTies<T>(s: seq<T>, k: int, score: T -> int)
    ensures WithScore(Sorted(s, score), k, score) == WithScore(s, k, score)
  {
    if s != [] {
      var before, last := s[..|s| - 1], s[|s| - 1];
      SortedKeepsTies(before, k, score);
      SortedDescends(before, score);
      var r := Sorted(before, score);
      InsertIsStable(r, last, k, score);
      assert (r + [last])[..|r|] == r;
    }
  }

  /** The result is the stable descending sort: a permutation, in order, with ties left as they were. */
  lemma SortedIsStable<T>(s: seq<T>, score: T -> int)
    ensures
      var r := Sorted(s, score);
      Descending(r, score) && multiset(r) == multiset(s) && forall k :: WithScore(r, k, score) == WithScore(s, k, score)
  {
    SortedDescends(s, score);
    SortedPermutes(s, score);
    forall k ensures WithScore(Sorted(s, score), k, score) == WithScore(s, k, score) {
      SortedKeepsTies(s, k, score);
    }
  }

  // Inserting x into s comes down to inserting it into the first j elements.
  ghost predicate SinksTo<T>(s: seq<T>, j: nat, x: T, score: T -> int) {
    j <= |s| && InsertLast(s, x, score) == InsertLast(s[..j], x, score) + s[j..]
  }

  lemma SinkStart<T>(s: seq<T>, x: T, score: T -> int)
    ensures SinksTo(s, |s|, x, score)
  {
    assert s[..|s|] == s && s[|s|..] == [];
  }

  lemma SinkPast<T>(s: seq<T>, j: nat, x: T, score: T -> int)
    requires SinksTo(s, j, x, score) && 0 < j && score(x) > score(s[j - 1])
    ensures SinksTo(s, j - 1, x, score)
  {
    assert s[..j][..j - 1] == s[..j - 1] && s[j - 1..] == [s[j - 1]] + s[j..];
  }

  lemma InsertHere<T>(s: seq<T>, x: T, score: T -> int)
    requires s == [] || score(x) <= score(s[|s| - 1])
    ensures InsertLast(s, x, score) == s + [x]
  {
  }

  lemma SinkEnd<T>(s: seq<T>, j: nat, x: T, score: T -> int)
    requires SinksTo(s, j, x, score) && (j == 0 || score(x) <= score(s[j - 1]))
    ensures InsertLast(s, x, score) == s[..j] + [x] + s[j..]
  {
    InsertHere(s[..j], x, score);
  }

  // The array while x, from position i of s, is at position j.
  ghost predicate Sinking<T>(a: seq<T>, s: seq<T>, x: T, i: nat, j: nat) {
    j <= i < |a| && |s| == i && a[..i + 1] == s[..j] + [x] + s[j..]
  }

  // Carries a[i] down past everything that scores less.
  method Sink<T>(a: array<T>, i: nat, score: T -> int)
    requires i < a.Length
    modifies a
    ensures a[..i + 1] == InsertLast(old(a[..i]), old(a[i]), score) && a[i + 1..] == old(a[i + 1..])
  {
    ghost var s, x := a[..i], a[i];
    var j := i;
    SinkStart(s, x, score);
    assert a[..i + 1] == s[..i] + [x] + s[i..];
    while j > 0 && score(a[j]) > score(a[j - 1])
      invariant 0 <= j <= i && SinksTo(s, j, x, score) && Sinking(a[..], s, x, i, j)
      invariant a[i + 1..] == old(a[i + 1..])
    {
      assert a[..i + 1][j] == x && a[..i + 1][j - 1] == s[j - 1];
      SinkPast(s, j, x, score);
      ghost var before := a[..];
      a[j], a[j - 1] := a[j - 1], a[j];
      SwapSinks(before, a[..], s, x, i, j);
      assert a[i + 1..] == before[i + 1..];
      j := j - 1;
    }
    assert a[..i + 1][j] == x && (j > 0 ==> a[..i + 1][j - 1] == s[j - 1]);
    SinkEnd(s, j, x, score);
  }

  lemma SwapSinks<T>(before: seq<T>, after: seq<T>, s: seq<T>, x: T, i: nat, j: nat)
    requires 0 < j && Sinking(before, s, x, i, j)
    requires after == before[j := before[j - 1]][j - 1 := before[j]]
    ensures Sinking(after, s, x, i, j - 1)
  {
    assert before[..i + 1][j] == x && before[..i + 1][j - 1] == s[j - 1];
    forall k | 0 <= k <= i ensures after[k] == (s[..j - 1] + [x] + s[j - 1..])[k] {
      assert before[k] == before[..i + 1][k];
    }
    assert after[..i + 1] == s[..j - 1] + [x] + s[j - 1..];
  }

  method Sort<T>(a: array<T>, score: T -> int)
    modifies a
    ensures a[..] == Sorted(old(a[..]), score)
  {
    ghost var s := a[..];
    for i := 0 to a.Length
      invariant a[..i] == Sorted(s[..i], score) && a[i..] == s[i..]
    {
      Sink(a, i, score);
      assert s[..i + 1][..i] == s[..i];
      assert a[i + 1..] == s[i..][1..] == s[i + 1..];
    }
    assert a[..] == a[..a.Length] && s[..a.Length] == s;
  }
}

/** Which transform config a request gets. */
module Transforms {
  import opened GoStrings
  import opened StableSort

  // EqualFold's case folding for the letters that occur in HTTP methods.
  function Fold(s: string): string {
    if s == "" then "" else [if 'A' <= s[0] <= 'Z' then (s[0] as int + 32) as char else s[0]] + Fold(s[1..])
  }

  datatype TransformConfig = TransformConfig(id: string, serviceId: string, path: string, methods: seq<string>,
                                             enabled: bool, rules: string)

  predicate MatchesPath(pattern: string, path: string) {
    pattern == "*" || pattern == "/*" ||
    if '*' !in pattern then pattern == path else HasPrefix(path, TrimSuffix(pattern, "*"))
  }

  predicate MatchesMethod(methods: seq<string>, verb: string) {
    methods == [] || exists i :: 0 <= i < |methods| && Fold(methods[i]) == Fold(verb)
  }

  function SegmentCount(pattern: string): nat {
    |Split(Trim(pattern, '/'), '/')|
  }

  function PathScore(pattern: string): int {
    if HasSuffix(pattern, "*") then SegmentCount(pattern) * 8 else SegmentCount(pattern) * 10
  }

  function Specificity(cfg: TransformConfig): int {
    PathScore(cfg.path)
  }

  predicate Applies(cfg: TransformConfig, path: string, verb: string) {
    MatchesPath(cfg.path, path) && MatchesMethod(cfg.methods, verb)
  }

  function AppliesTo(path: string, verb: string): TransformConfig -> bool {
    cfg => Applies(cfg, path, verb)
  }

  method SortBySpecificity(cfgs: array<TransformConfig>)
    modifies cfgs
    ensures cfgs[..] == Sorted(old(cfgs[..]), Specificity)
  {
    Sort(cfgs, Specificity);
  }

  // --- the first match is the best match ---

  function FirstWith<T>(s: seq<T>, fits: T -> bool): Option<T> {
    if s == [] then None
    else
      match FirstWith(s[..|s| - 1], fits)
      case Some(c) => Some(c)
      case None => if fits(s[|s| - 1]) then Some(s[|s| - 1]) else None
  }

  method FindTransformConfig(cfgs: seq<TransformConfig>, path: string, verb: string)
    returns (r: Option<TransformConfig>)
    ensures r == FirstWith(cfgs, AppliesTo(path, verb))
  {
    ghost var fits := AppliesTo(path, verb);
    for i := 0 to |cfgs|
      invariant FirstWith(cfgs[..i], fits) == None
    {
      assert cfgs[..i + 1][..i] == cfgs[..i];
      if MatchesPath(cfgs[i].path, path) && MatchesMethod(cfgs[i].methods, verb) {
        FirstStays(cfgs, i + 1, fits);
        return Some(cfgs[i]);
      }
    }
    assert cfgs[..|cfgs|] == cfgs;
    return None;
  }

  lemma {:induction false} FirstStays<T>(s: seq<T>, n: nat, fits: T -> bool)
    requires n <= |s| && FirstWith(s[..n], fits).Some?
    ensures FirstWith(s, fits) == FirstWith(s[..n], fits)
  {
    if n == |s| {
      assert s[..n] == s;
    } else {
      assert s[..|s| - 1][..n] == s[..n];
      FirstStays(s[..|s| - 1], n, fits);
    }
  }

  // The fitting element with the highest score, the earliest of those.
  ghost predicate IsBest<T>(s: seq<T>, i: nat, fits: T -> bool, score: T -> int) {
    i < |s| && fits(s[i]) &&
    forall j {:trigger s[j]} :: 0 <= j < |s| && fits(s[j]) ==>
      score(s[j]) < score(s[i]) || (score(s[j]) == score(s[i]) && i <= j)
  }

  lemma {:induction false} FirstOfInsert<T>(s: seq<T>, x: T, fits: T -> bool, score: T -> int)
    requires Descending(s, score)
    ensures
      var before := FirstWith(s, fits);
      FirstWith(InsertLast(s, x, score), fits) ==
        if fits(x) && (before == None || score(x) > score(before.value)) then Some(x) else before
  {
    FirstIsIn(s, fits);
    if s != [] && score(x) > score(s[|s| - 1]) {
      var before, last := s[..|s| - 1], s[|s| - 1];
      FirstOfInsert(before, x, fits, score);
      var r := InsertLast(before, x, score);
      assert (r + [last])[..|r|] == r;
    } else {
      assert InsertLast(s, x, score) == s + [x] && (s + [x])[..|s|] == s;
    }
  }

  lemma {:induction false} FirstIsIn<T>(s: seq<T>, fits: T -> bool)
    ensures FirstWith(s, fits).Some? ==> FirstWith(s, fits).value in s && fits(FirstWith(s, fits).value)
    ensures FirstWith(s, fits) == None ==> forall x :: x in s ==> !fits(x)
  {
    if s != [] {
      FirstIsIn(s[..|s| - 1], fits);
      assert s == s[..|s| - 1] + [s[|s| - 1]];
    }
  }

  // A new last element wins only with a higher score than the best so far.
  lemma BestWithLast<T>(s: seq<T>, x: T, i: nat, fits: T -> bool, score: T -> int) returns (k: nat)
    requires (exists j :: 0 <= j < |s| && fits(s[j])) ==> IsBest(s, i, fits, score)
    requires fits(x) || IsBest(s, i, fits, score)
    ensures IsBest(s + [x], k, fits, score)
    ensures k == if !fits(x) || (IsBest(s, i, fits, score) && score(x) <= score(s[i])) then i else |s|
  {
    k := if !fits(x) || (IsBest(s, i, fits, score) && score(x) <= score(s[i])) then i else |s|;
  }

  /**
   Looking up the first match in the sorted list gives the match with the highest score, the earliest synced
   among equals, and nothing exactly when nothing matches.
   */
  lemma {:induction false} FirstIsBest<T>(s: seq<T>, fits: T -> bool, score: T -> int) returns (i: nat)
    ensures
      match FirstWith(Sorted(s, score), fits)
      case None => forall j :: 0 <= j < |s| ==> !fits(s[j])
      case Some(c) => IsBest(s, i, fits, score) && s[i] == c
  {
    i := 0;
    if s != [] {
      var before, last := s[..|s| - 1], s[|s| - 1];
      i := FirstIsBest(before, fits, score);
      SortedDescends(before, score);
      FirstOfInsert(Sorted(before, score), last, fits, score);
      assert s == before + [last];
      var first := FirstWith(Sorted(before, score), fits);
      if fits(last) || first.Some? {
        i := BestWithLast(before, last, i, fits, score);
      }
    }
  }

  // Of the configs that apply one with the highest score, the earliest of those; none only when none applies.
  ghost predicate BestAnswer(cfgs: seq<TransformConfig>, path: string, verb: string, r: Option<TransformConfig>) {
    match r
    case None => forall j {:trigger cfgs[j]} :: 0 <= j < |cfgs| ==> !Applies(cfgs[j], path, verb)
    case Some(c) =>
      exists i: nat {:trigger cfgs[i]} :: i < |cfgs| && cfgs[i] == c && Applies(c, path, verb) &&
        forall j {:trigger cfgs[j]} :: 0 <= j < |cfgs| && Applies(cfgs[j], path, verb) ==>
          Specificity(cfgs[j]) < Specificity(c) || (Specificity(cfgs[j]) == Specificity(c) && i <= j)
  }

  /** The lookup in the sorted list answers with the best of the unsorted one. */
  lemma LookupFindsBest(cfgs: seq<TransformConfig>, path: string, verb: string)
    ensures BestAnswer(cfgs, path, verb, FirstWith(Sorted(cfgs, Specificity), AppliesTo(path, verb)))
  {
    var i := FirstIsBest(cfgs, AppliesTo(path, verb), Specificity);
    if FirstWith(Sorted(cfgs, Specificity), AppliesTo(path, verb)) == None {
      assert forall j :: 0 <= j < |cfgs| ==> !AppliesTo(path, verb)(cfgs[j]);
    } else {
      assert IsBest(cfgs, i, AppliesTo(path, verb), Specificity) && AppliesTo(path, verb)(cfgs[i]);
      assert forall j :: 0 <= j < |cfgs| ==> AppliesTo(path, verb)(cfgs[j]) == Applies(cfgs[j], path, verb);
    }
  }

  // --- what the score means ---

  function Slashes(s: string): nat {
    if s == "" then 0 else Slashes(s[1..]) + if s[0] == '/' then 1 else 0
  }

  // The slashes after the leading ones.
  function Inner(s: string): nat {
    Slashes(TrimLeft(s, '/'))
  }

  function Trail(s: string): int {
    |s| - |TrimRight(s, '/')|
  }

  function Wild(prefix: string): string {
    prefix + "*"
  }

  lemma {:induction false} SplitCounts(s: string)
    ensures |Split(s, '/')| == Slashes(s) + 1
  {
    if s != "" {
      SplitCounts(s[1..]);
    }
  }

  lemma {:induction false} SlashesConcat(a: string, b: string)
    ensures Slashes(a + b) == Slashes(a) + Slashes(b)
  {
    if a == "" {
      assert a + b == b;
    } else {
      SlashesConcat(a[1..], b);
      assert (a + b)[1..] == a[1..] + b;
    }
  }

  lemma {:induction false} TrimLeftConcat(a: string, b: string)
    ensures TrimLeft(a + b, '/') == if TrimLeft(a, '/') == "" then TrimLeft(b, '/') else TrimLeft(a, '/') + b
  {
    if a == "" {
      assert a + b == b;
    } else {
      TrimLeftConcat(a[1..], b);
      assert (a + b)[1..] == a[1..] + b;
    }
  }

  lemma InnerConcat(a: string, b: string)
    ensures Inner(a + b) == if TrimLeft(a, '/') == "" then Inner(b) else Inner(a) + Slashes(b)
  {
    TrimLeftConcat(a, b);
    SlashesConcat(TrimLeft(a, '/'), b);
  }

  // What is trimmed from the right is all slashes, and what is left does not end in one.
  lemma {:induction false} TrimRightParts(s: string)
    ensures
      var t := TrimRight(s, '/');
      t <= s && Slashes(s[|t|..]) == |s| - |t| && TrimLeft(s[|t|..], '/') == "" && (t != "" ==> TrimLeft(t, '/') != "")
  {
    if s != "" && s[|s| - 1] == '/' {
      var before := s[..|s| - 1];
      TrimRightParts(before);
      var t := TrimRight(before, '/');
      assert s[|t|..] == before[|t|..] + "/";
      SlashesConcat(before[|t|..], "/");
      TrimLeftConcat(before[|t|..], "/");
    } else if s != "" {
      assert s == s[..|s| - 1] + [s[|s| - 1]];
      TrimLeftConcat(s[..|s| - 1], [s[|s| - 1]]);
      assert s[|s|..] == "";
    }
  }

  lemma WildSegments(q: string)
    ensures SegmentCount(Wild(q)) == 1 + Inner(q) && PathScore(Wild(q)) == 8 * (1 + Inner(q))
  {
    assert TrimRight(Wild(q), '/') == Wild(q);
    InnerConcat(q, "*");
    assert TrimLeft("*", '/') == "*" && Slashes("*") == 0;
    SplitCounts(Trim(Wild(q), '/'));
  }

  // The slashes at the end of a path are all that its own wildcard counts beyond it.
  lemma ExactSegments(p: string)
    ensures SegmentCount(p) == 1 + if TrimRight(p, '/') == "" then 0 else Inner(p) - Trail(p)
  {
    var t := TrimRight(p, '/');
    TrimRightParts(p);
    SplitCounts(Trim(p, '/'));
    assert p == t + p[|t|..];
    InnerConcat(t, p[|t|..]);
  }

  // A wildcard that matches a path without '*' is one of the two that match everything, or a prefix of the path.
  lemma MatchingWildcard(w: string, p: string)
    requires '*' !in p && '*' in w && MatchesPath(w, p)
    ensures w == "/*" || (exists q :: q <= p && w == Wild(q))
  {
    if w == "*" {
      assert "" <= p && w == Wild("");
    } else if w != "/*" {
      var q := TrimSuffix(w, "*");
      assert forall c :: c in q ==> c in p;
      assert w == Wild(q);
    }
  }

  lemma PrefixBelow(q: string, p: string)
    requires q <= p
    ensures PathScore(Wild(q)) <= 8 * (1 + Inner(p))
  {
    WildSegments(q);
    assert p == q + p[|q|..];
    InnerConcat(q, p[|q|..]);
  }

  // No matching wildcard scores more than the path's own.
  lemma WildcardsBelow(w: string, p: string)
    requires '*' !in p && '*' in w && MatchesPath(w, p)
    ensures PathScore(w) <= 8 * (1 + Inner(p))
  {
    MatchingWildcard(w, p);
    if w == "/*" {
      PrefixBelow("/", "/");
      assert w == Wild("/") && TrimLeft("/", '/') == "";
    } else {
      var q :| q <= p && w == Wild(q);
      PrefixBelow(q, p);
    }
  }

  /**
   An exact config outranks every wildcard that matches its path unless the path ends in slashes, and then as
   long as they are fewer than a quarter of its segments.
   */
  lemma ExactOutranksWildcards(p: string)
    requires '*' !in p
    ensures (forall w :: '*' in w && MatchesPath(w, p) ==> PathScore(w) < PathScore(p))
       <==> TrimRight(p, '/') == "" || 4 * Trail(p) < SegmentCount(p)
  {
    ExactSegments(p);
    WildSegments(p);
    var t := TrimRight(p, '/');
    TrimRightParts(p);
    assert p == t + p[|t|..];
    InnerConcat(t, p[|t|..]);
    assert PathScore(p) == 10 * SegmentCount(p) by {
      assert !HasSuffix(p, "*");
    }
    forall w | '*' in w && MatchesPath(w, p) ensures PathScore(w) <= 8 * (1 + Inner(p)) {
      WildcardsBelow(w, p);
    }
    assert '*' in Wild(p) && MatchesPath(Wild(p), p) by {
      assert Wild(p)[|p|] == '*' && TrimSuffix(Wild(p), "*") == p;
    }
  }

  // What a longer prefix adds that counts: to a catch-all everything but the leading slashes.
  function Added(q: string, longer: string): string
    requires TrimLeft(q, '/') == "" || q <= longer
  {
    if TrimLeft(q, '/') == "" then TrimLeft(longer, '/') else longer[|q|..]
  }

  lemma AddedSegments(q: string, longer: string)
    requires TrimLeft(q, '/') == "" || q <= longer
    ensures Inner(longer) == Inner(q) + Slashes(Added(q, longer))
  {
    if TrimLeft(q, '/') != "" {
      assert longer == q + longer[|q|..];
      InnerConcat(q, longer[|q|..]);
    }
  }

  lemma RootIsAllSlashes()
    ensures TrimLeft("/", '/') == ""
  {
    assert "/"[1..] == "";
  }

  /**
   Of two wildcards that can match one path the longer never scores less, and more exactly when what it adds has a
   slash. The shorter may be a catch-all: a star alone, or after a slash, which matches even paths without one.
   */
  lemma LongerPrefixOutranks(q: string, longer: string)
    requires q <= longer || q == "/"
    ensures TrimLeft(q, '/') == "" || q <= longer
    ensures PathScore(Wild(q)) <= PathScore(Wild(longer))
    ensures PathScore(Wild(q)) < PathScore(Wild(longer)) <==> '/' in Added(q, longer)
  {
    RootIsAllSlashes();
    WildSegments(q);
    WildSegments(longer);
    AddedSegments(q, longer);
    HasSlash(Added(q, longer));
  }

  lemma {:induction false} HasSlash(s: string)
    ensures '/' in s <==> Slashes(s) > 0
  {
    if s != "" {
      HasSlash(s[1..]);
    }
  }

  // --- which configs apply ---

  /**
   A pattern with a star at its end fits the paths that begin with what stands before it, and a slash with a star every
   path; one without a star fits itself alone, and one with a star elsewhere only what begins with the very pattern.
   */
  predicate PathFits(pattern: string, path: string) {
    if pattern == "/*" then true
    else if '*' !in pattern then path == pattern
    else if pattern[|pattern| - 1] == '*' then pattern[..|pattern| - 1] <= path
    else pattern <= path
  }

  lemma MatchesPathExactly(pattern: string, path: string)
    ensures MatchesPath(pattern, path) <==> PathFits(pattern, path)
  {
    if '*' in pattern {
      assert HasSuffix(pattern, "*") <==> pattern[|pattern| - 1] == '*';
    }
  }

  // One letter, in upper or lower case.
  predicate SameLetter(a: char, b: char) {
    a == b || ('A' <= a <= 'Z' && b as int == a as int + 32) || ('A' <= b <= 'Z' && a as int == b as int + 32)
  }

  predicate SameWord(a: string, b: string) {
    |a| == |b| && forall i :: 0 <= i < |a| ==> SameLetter(a[i], b[i])
  }

  lemma {:induction false} FoldExactly(a: string, b: string)
    ensures Fold(a) == Fold(b) <==> SameWord(a, b)
  {
    FoldLength(a);
    FoldLength(b);
    if a != "" && b != "" {
      FoldExactly(a[1..], b[1..]);
      assert Fold(a)[1..] == Fold(a[1..]) && Fold(b)[1..] == Fold(b[1..]);
      assert Fold(a)[0] == Fold(b)[0] <==> SameLetter(a[0], b[0]);
      if SameWord(a[1..], b[1..]) && SameLetter(a[0], b[0]) {
        forall i | 0 <= i < |a| ensures SameLetter(a[i], b[i]) {
          assert i > 0 ==> a[1..][i - 1] == a[i] && b[1..][i - 1] == b[i];
        }
      }
      assert Fold(a) == [Fold(a)[0]] + Fold(a[1..]) && Fold(b) == [Fold(b)[0]] + Fold(b[1..]);
    }
  }

  lemma {:induction false} FoldLength(s: string)
    ensures |Fold(s)| == |s|
  {
    if s != "" {
      FoldLength(s[1..]);
    }
  }

  // Any method, or those listed, whatever their case.
  ghost predicate MethodFits(methods: seq<string>, verb: string) {
    methods == [] || exists i :: 0 <= i < |methods| && SameWord(methods[i], verb)
  }

  /** A config applies exactly to the paths that fit its pattern and the methods that fit its list. */
  lemma AppliesExactly(cfg: TransformConfig, path: string, verb: string)
    ensures Applies(cfg, path, verb) <==> PathFits(cfg.path, path) && MethodFits(cfg.methods, verb)
  {
    MatchesPathExactly(cfg.path, path);
    MatchesMethodExactly(cfg.methods, verb);
  }

  lemma MatchesMethodExactly(methods: seq<string>, verb: string)
    ensures MatchesMethod(methods, verb) <==> MethodFits(methods, verb)
  {
    forall i | 0 <= i < |methods| ensures Fold(methods[i]) == Fold(verb) <==> SameWord(methods[i], verb) {
      FoldExactly(methods[i], verb);
    }
  }
}
