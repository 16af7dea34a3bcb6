/** Which upstream addresses a service's response rules are written for. */
module Preset {
  import opened GoStrings

  // u lies below another address.
  predicate Under(u: string, other: string) {
    other != u && HasPrefix(u, other + "/")
  }

  // What is left of an address: without query and trailing slashes. Cutting the query off is not part of this model.
  function Cleaned(url: string, stripQuery: string -> string): string {
    TrimRight(stripQuery(url), '/')
  }

  // The cleaned addresses in order, each once, none empty.
  function CleanedAll(urls: seq<string>, stripQuery: string -> string): (r: seq<string>)
    ensures forall i, j {:trigger r[i], r[j]} :: 0 <= i < j < |r| ==> r[i] != r[j]
  {
    if urls == [] then []
    else
      var before, u := CleanedAll(urls[..|urls| - 1], stripQuery), Cleaned(urls[|urls| - 1], stripQuery);
      if u == "" || u in before then before else before + [u]
  }

  // Nothing but empty and repeated addresses is lost in cleaning.
  lemma {:induction false} CleanedMembers(urls: seq<string>, stripQuery: string -> string, u: string)
    ensures u in CleanedAll(urls, stripQuery) <==>
      u != "" && exists i :: 0 <= i < |urls| && Cleaned(urls[i], stripQuery) == u
  {
    if urls != [] {
      var before, n := urls[..|urls| - 1], |urls| - 1;
      CleanedMembers(before, stripQuery, u);
      assert forall i :: 0 <= i < n ==> before[i] == urls[i];
      if u != "" && Cleaned(urls[n], stripQuery) == u {
        assert u in CleanedAll(urls, stripQuery);
      }
    }
  }

  predicate IsRoot(u: string, cleaned: seq<string>) {
    forall i :: 0 <= i < |cleaned| ==> !Under(u, cleaned[i])
  }

  // The first n addresses that lie under no other.
  function RootsAmong(cleaned: seq<string>, n: nat): seq<string>
    requires n <= |cleaned|
  {
    if n == 0 then []
    else RootsAmong(cleaned, n - 1) + if IsRoot(cleaned[n - 1], cleaned) then [cleaned[n - 1]] else []
  }

  function Roots(cleaned: seq<string>): seq<string> {
    RootsAmong(cleaned, |cleaned|)
  }

  method CleanAll(urls: seq<string>, stripQuery: string -> string) returns (cleaned: seq<string>)
    ensures cleaned == CleanedAll(urls, stripQuery)
  {
    cleaned := [];
    var seen: set<string> := {};
    for i := 0 to |urls|
      invariant cleaned == CleanedAll(urls[..i], stripQuery) && seen == set u | u in cleaned
    {
      assert urls[..i + 1][..i] == urls[..i];
      var u := TrimRight(stripQuery(urls[i]), '/');
      if u == "" {
        continue;
      }
      if u in seen {
        continue;
      }
      seen := seen + {u};
      cleaned := cleaned + [u];
    }
    assert urls[..|urls|] == urls;
  }

  method UpstreamRoots(urls: seq<string>, stripQuery: string -> string) returns (roots: seq<string>)
    ensures roots == Roots(CleanedAll(urls, stripQuery))
  {
    var cleaned := CleanAll(urls, stripQuery);
    roots := [];
    for i := 0 to |cleaned|
      invariant roots == RootsAmong(cleaned, i)
    {
      var under := false;
      for j := 0 to |cleaned|
        invariant !under && forall k :: 0 <= k < j ==> !Under(cleaned[i], cleaned[k])
      {
        if cleaned[j] != cleaned[i] && HasPrefix(cleaned[i], cleaned[j] + "/") {
          under := true;
          break;
        }
      }
      if !under {
        roots := roots + [cleaned[i]];
      }
    }
  }

  // --- the least cover ---

  // c covers every address: each is in it or lies under one that is.
  ghost predicate Covers(c: seq<string>, cleaned: seq<string>) {
    forall u {:trigger u in cleaned} :: u in cleaned ==> u in c || exists r :: r in c && Under(u, r)
  }

  lemma {:induction false} RootMembers(cleaned: seq<string>, n: nat, u: string)
    requires n <= |cleaned|
    ensures u in RootsAmong(cleaned, n) <==> u in cleaned[..n] && IsRoot(u, cleaned)
  {
    if n > 0 {
      RootMembers(cleaned, n - 1, u);
      assert cleaned[..n] == cleaned[..n - 1] + [cleaned[n - 1]];
    }
  }

  lemma UnderTransitive(u: string, v: string, w: string)
    requires Under(u, v) && Under(v, w)
    ensures Under(u, w) && |w| < |v| < |u|
  {
  }

  // An address that is not a root lies under one: go up as long as possible.
  lemma {:induction false} RootAbove(cleaned: seq<string>, u: string) returns (r: string)
    requires u in cleaned
    ensures r in cleaned && IsRoot(r, cleaned) && (r == u || Under(u, r))
    decreases |u|
  {
    r := u;
    if !IsRoot(u, cleaned) {
      var i :| 0 <= i < |cleaned| && Under(u, cleaned[i]);
      assert cleaned[i] in cleaned && cleaned[i] + "/" <= u;
      r := RootAbove(cleaned, cleaned[i]);
      if r != cleaned[i] {
        UnderTransitive(u, cleaned[i], r);
      }
    }
  }

  /**
   The roots are the least prefix cover: they cover every address, none lies under another, and any of the
   addresses' covers contains them all.
   */
  lemma RootsAreLeastCover(cleaned: seq<string>)
    ensures
      var roots := Roots(cleaned);
      Covers(roots, cleaned) && (forall r :: r in roots ==> r in cleaned) &&
      (forall a, b :: a in roots && b in roots ==> !Under(a, b)) &&
      (forall c, r {:trigger Covers(c, cleaned), r in roots} ::
         Covers(c, cleaned) && (forall u :: u in c ==> u in cleaned) && r in roots ==> r in c)
  {
    var roots := Roots(cleaned);
    assert cleaned[..|cleaned|] == cleaned;
    forall u ensures u in roots <==> u in cleaned && IsRoot(u, cleaned) {
      RootMembers(cleaned, |cleaned|, u);
    }
    forall u | u in cleaned ensures u in roots || exists r :: r in roots && Under(u, r) {
      var r := RootAbove(cleaned, u);
      assert r in roots;
    }
  }

  // --- rewriting ---

  // A rule's fields that can name the upstream address.
  datatype Rule = Rule(find: string, regex: string)

  // How a rule mentions the address and how it is filled in; substitution and quoting are not part of this model.
  datatype Template = Template(mentions: Rule -> bool, fill: (Rule, string) -> Rule)

  function Copies(rule: Rule, roots: seq<string>, t: Template): seq<Rule> {
    if roots == [] then [] else Copies(rule, roots[..|roots| - 1], t) + [t.fill(rule, roots[|roots| - 1])]
  }

  function Rewritten(rules: seq<Rule>, roots: seq<string>, t: Template): seq<Rule> {
    if rules == [] then []
    else
      var rule := rules[|rules| - 1];
      Rewritten(rules[..|rules| - 1], roots, t) +
      if !t.mentions(rule) || roots == [] then [rule] else Copies(rule, roots, t)
  }

  method CopyFor(rule: Rule, roots: seq<string>, t: Template) returns (out: seq<Rule>)
    ensures out == Copies(rule, roots, t)
  {
    out := [];
    for j := 0 to |roots|
      invariant out == Copies(rule, roots[..j], t)
    {
      assert roots[..j + 1][..j] == roots[..j];
      out := out + [t.fill(rule, roots[j])];
    }
    assert roots[..|roots|] == roots;
  }

  method Rewrite(rules: seq<Rule>, urls: seq<string>, t: Template, stripQuery: string -> string)
    returns (out: seq<Rule>)
    ensures out == Rewritten(rules, Roots(CleanedAll(urls, stripQuery)), t)
  {
    var roots := UpstreamRoots(urls, stripQuery);
    out := [];
    for i := 0 to |rules|
      invariant out == Rewritten(rules[..i], roots, t)
    {
      assert rules[..i + 1][..i] == rules[..i];
      if !t.mentions(rules[i]) || |roots| == 0 {
        out := out + [rules[i]];
        continue;
      }
      var copies := CopyFor(rules[i], roots, t);
      out := out + copies;
    }
    assert rules[..|rules|] == rules;
  }

  lemma {:induction false} CopyForRoot(rule: Rule, roots: seq<string>, t: Template, r: string)
    requires r in roots
    ensures t.fill(rule, r) in Copies(rule, roots, t)
  {
    var before, last := roots[..|roots| - 1], roots[|roots| - 1];
    assert roots == before + [last];
    if r in before {
      CopyForRoot(rule, before, t, r);
    }
  }

  /** Every address the service points at is rewritten by a copy of every rule that mentions it, at or above itself. */
  lemma {:induction false} EveryAddressIsRewritten(rules: seq<Rule>, cleaned: seq<string>, t: Template,
      rule: Rule, u: string) returns (r: string)
    requires rule in rules && t.mentions(rule) && u in cleaned
    ensures (r == u || Under(u, r)) && t.fill(rule, r) in Rewritten(rules, Roots(cleaned), t)
  {
    var roots := Roots(cleaned);
    var before, last := rules[..|rules| - 1], rules[|rules| - 1];
    assert rules == before + [last];
    if rule in before {
      r := EveryAddressIsRewritten(before, cleaned, t, rule, u);
    } else {
      r := RootAbove(cleaned, u);
      RootMembers(cleaned, |cleaned|, r);
      assert cleaned[..|cleaned|] == cleaned;
      CopyForRoot(rule, roots, t, r);
    }
  }

  // --- what is kept, and in which order ---

  lemma {:induction false} CopiesAt(rule: Rule, roots: seq<string>, t: Template, i: nat)
    requires i < |roots|
    ensures |Copies(rule, roots, t)| == |roots| && Copies(rule, roots, t)[i] == t.fill(rule, roots[i])
  {
    CopiesCount(rule, roots[..|roots| - 1], t);
    if i < |roots| - 1 {
      CopiesAt(rule, roots[..|roots| - 1], t, i);
    }
  }

  lemma {:induction false} CopiesCount(rule: Rule, roots: seq<string>, t: Template)
    ensures |Copies(rule, roots, t)| == |roots|
  {
    if roots != [] {
      CopiesCount(rule, roots[..|roots| - 1], t);
    }
  }

  // What becomes of one rule.
  ghost predicate OneRewritten(rule: Rule, roots: seq<string>, t: Template, out: seq<Rule>) {
    if t.mentions(rule) && roots != []
    then |out| == |roots| && forall i :: 0 <= i < |roots| ==> out[i] == t.fill(rule, roots[i])
    else out == [rule]
  }

  /**
   Rules are rewritten one after the other: one that mentions the address becomes a copy for each root, in order, and
   any other stays as it is; without roots all do.
   */
  lemma RewrittenRuleByRule(rules: seq<Rule>, rule: Rule, roots: seq<string>, t: Template)
    ensures exists out :: OneRewritten(rule, roots, t, out) &&
                          Rewritten(rules + [rule], roots, t) == Rewritten(rules, roots, t) + out
  {
    assert (rules + [rule])[..|rules|] == rules;
    if t.mentions(rule) && roots != [] {
      CopiesCount(rule, roots, t);
      forall i | 0 <= i < |roots| ensures Copies(rule, roots, t)[i] == t.fill(rule, roots[i]) {
        CopiesAt(rule, roots, t, i);
      }
      assert OneRewritten(rule, roots, t, Copies(rule, roots, t));
    } else {
      assert OneRewritten(rule, roots, t, [rule]);
    }
  }

  // Where the roots are among the first n addresses.
  function Places(cleaned: seq<string>, n: nat): (at: seq<nat>)
    requires n <= |cleaned|
    ensures |at| == |RootsAmong(cleaned, n)|
    ensures forall k {:trigger k in at} :: k in at ==> k < n
  {
    if n == 0 then [] else Places(cleaned, n - 1) + if IsRoot(cleaned[n - 1], cleaned) then [n - 1] else []
  }

  lemma {:induction false} PlacesRise(cleaned: seq<string>, n: nat, i: nat, j: nat)
    requires n <= |cleaned| && i < j < |Places(cleaned, n)|
    ensures Places(cleaned, n)[i] < Places(cleaned, n)[j]
  {
    var before := Places(cleaned, n - 1);
    if j < |before| {
      PlacesRise(cleaned, n - 1, i, j);
    } else {
      assert before[i] in before;
    }
  }

  /** The roots come in the order of the addresses. */
  lemma RootsKeepOrder(cleaned: seq<string>, i: nat, j: nat) returns (a: nat, b: nat)
    requires i < j < |Roots(cleaned)|
    ensures a < b < |cleaned| && Roots(cleaned)[i] == cleaned[a] && Roots(cleaned)[j] == cleaned[b]
  {
    PlaceHolds(cleaned, |cleaned|, i);
    PlaceHolds(cleaned, |cleaned|, j);
    PlacesRise(cleaned, |cleaned|, i, j);
    a, b := Places(cleaned, |cleaned|)[i], Places(cleaned, |cleaned|)[j];
  }

  lemma {:induction false} PlaceHolds(cleaned: seq<string>, n: nat, i: nat)
    requires n <= |cleaned| && i < |RootsAmong(cleaned, n)|
    ensures Places(cleaned, n)[i] < n && RootsAmong(cleaned, n)[i] == cleaned[Places(cleaned, n)[i]]
  {
    if i < |RootsAmong(cleaned, n - 1)| {
      PlaceHolds(cleaned, n - 1, i);
    }
  }
}
