/** The few pieces of Go's `strings` package that the modelled code relies on. */
module GoStrings {

  datatype Option<+T> = None | Some(value: T)

  predicate HasPrefix(s: string, prefix: string) {
    prefix <= s
  }

  predicate HasSuffix(s: string, suffix: string) {
    |suffix| <= |s| && s[|s| - |suffix|..] == suffix
  }

  // TrimSuffix removes one occurrence, when there is one.
  function TrimSuffix(s: string, suffix: string): string {
    if HasSuffix(s, suffix) then s[..|s| - |suffix|] else s
  }

  function TrimLeft(s: string, c: char): string {
    if s != "" && s[0] == c then TrimLeft(s[1..], c) else s
  }

  function TrimRight(s: string, c: char): string {
    if s != "" && s[|s| - 1] == c then TrimRight(s[..|s| - 1], c) else s
  }

  function Trim(s: string, c: char): string {
    TrimLeft(TrimRight(s, c), c)
  }

  // Nothing of c at either end, unless there is nothing else.
  predicate Trimmed(s: string, c: char) {
    s == "" || (s[0] != c && s[|s| - 1] != c)
  }

  lemma {:induction false} TrimRightKeeps(s: string, c: char)
    ensures
      var t := TrimRight(s, c);
      t <= s && (t != "" ==> t[|t| - 1] != c) && forall k :: |t| <= k < |s| ==> s[k] == c
  {
    if s != "" && s[|s| - 1] == c {
      TrimRightKeeps(s[..|s| - 1], c);
    }
  }

  lemma {:induction false} TrimLeftKeeps(s: string, c: char)
    ensures
      var t := TrimLeft(s, c);
      |t| <= |s| && t == s[|s| - |t|..] && (t != "" ==> t[0] != c) && forall k :: 0 <= k < |s| - |t| ==> s[k] == c
  {
    if s != "" && s[0] == c {
      TrimLeftKeeps(s[1..], c);
      var t := TrimLeft(s[1..], c);
      forall k | 0 <= k < |s| - |t| ensures s[k] == c {
        assert k > 0 ==> s[1..][k - 1] == s[k];
      }
    }
  }

  /** Trimming takes c away at both ends, and nothing else. */
  lemma TrimExactly(s: string, c: char) returns (i: nat, j: nat)
    ensures i <= j <= |s| && Trim(s, c) == s[i..j] && Trimmed(Trim(s, c), c)
    ensures forall k :: 0 <= k < i || j <= k < |s| ==> s[k] == c
  {
    TrimRightKeeps(s, c);
    var t := TrimRight(s, c);
    TrimLeftKeeps(t, c);
    i, j := |t| - |Trim(s, c)|, |t|;
  }

  function Join(parts: seq<string>, sep: char): string {
    if |parts| == 0 then ""
    else if |parts| == 1 then parts[0]
    else parts[0] + [sep] + Join(parts[1..], sep)
  }

  lemma {:induction false} JoinConcat(a: seq<string>, b: seq<string>, sep: char)
    requires a != [] && b != []
    ensures Join(a + b, sep) == Join(a, sep) + [sep] + Join(b, sep)
  {
    assert (a + b)[0] == a[0] && (a + b)[1..] == a[1..] + b;
    if |a| > 1 {
      JoinConcat(a[1..], b, sep);
    } else {
      assert a[1..] + b == b;
    }
  }

  // Never empty: the empty string splits into one empty part.
  function Split(s: string, sep: char): (parts: seq<string>)
    ensures |parts| >= 1
  {
    if s == "" then [""]
    else
      var rest := Split(s[1..], sep);
      if s[0] == sep then [""] + rest else [[s[0]] + rest[0]] + rest[1..]
  }

  lemma {:induction false} JoinOfSplit(s: string, sep: char)
    ensures Join(Split(s, sep), sep) == s
    ensures forall p :: p in Split(s, sep) ==> sep !in p
  {
    if s != "" {
      JoinOfSplit(s[1..], sep);
      var rest := Split(s[1..], sep);
      if s[0] != sep {
        var parts := [[s[0]] + rest[0]] + rest[1..];
        assert parts[1..] == rest[1..];
        assert rest[0] in rest;
      } else {
        assert ([""] + rest)[1..] == rest;
      }
    }
  }

  /** Splitting is the only inverse of joining: separator-free parts come back unchanged. */
  lemma {:induction false} SplitOfJoin(parts: seq<string>, sep: char)
    requires |parts| >= 1
    requires forall p :: p in parts ==> sep !in p
    ensures Split(Join(parts, sep), sep) == parts
    decreases |parts|, |parts[0]|
  {
    var s := Join(parts, sep);
    if parts[0] == "" {
      if |parts| > 1 {
        assert s == [sep] + Join(parts[1..], sep);
        assert s[1..] == Join(parts[1..], sep);
        SplitOfJoin(parts[1..], sep);
        assert parts == [""] + parts[1..];
      }
    } else {
      var tail := [parts[0][1..]] + parts[1..];
      assert parts[0][0] in parts[0];
      assert sep !in parts[0] && parts[0] == [parts[0][0]] + parts[0][1..];
      assert forall p :: p in tail ==> p == parts[0][1..] || p in parts;
      assert s[1..] == Join(tail, sep) && s[0] == parts[0][0] by {
        assert tail[1..] == parts[1..];
      }
      SplitOfJoin(tail, sep);
      assert parts[0] == [s[0]] + tail[0];
      assert parts == [[s[0]] + tail[0]] + tail[1..];
    }
  }

  lemma JoinInjective(a: seq<string>, b: seq<string>, sep: char)
    requires |a| >= 1 && |b| >= 1
    requires forall p :: p in a ==> sep !in p
    requires forall p :: p in b ==> sep !in p
    requires Join(a, sep) == Join(b, sep)
    ensures a == b
  {
    SplitOfJoin(a, sep);
    SplitOfJoin(b, sep);
  }

  // The position of the last c, or -1.
  function LastIndex(s: string, c: char): (i: int)
    ensures -1 <= i < |s|
    ensures i == -1 ==> c !in s
    ensures i >= 0 ==> s[i] == c && c !in s[i + 1..]
  {
    if s == "" then -1
    else if s[|s| - 1] == c then |s| - 1
    else
      var i := LastIndex(s[..|s| - 1], c);
      assert s == s[..|s| - 1] + [s[|s| - 1]];
      assert i >= 0 ==> s[i + 1..] == s[..|s| - 1][i + 1..] + [s[|s| - 1]];
      i
  }

  // The position of the first c, or -1.
  function IndexOfChar(s: string, c: char): (i: int)
    ensures -1 <= i < |s|
    ensures i == -1 ==> c !in s
    ensures i >= 0 ==> s[i] == c && c !in s[..i]
  {
    if s == "" then -1
    else if s[0] == c then 0
    else
      var i := IndexOfChar(s[1..], c);
      assert i >= 0 ==> s[..i + 1] == [s[0]] + s[1..][..i];
      if i == -1 then -1 else i + 1
  }
}
