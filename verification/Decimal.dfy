/** Decimal integers as the Go code formats and parses them. */
module Decimal {
  import opened GoStrings

  function Digit(d: nat): char
    requires d < 10
  {
    ('0' as int + d) as char
  }

  predicate IsDigit(c: char) {
    '0' <= c <= '9'
  }

  function FormatNat(n: nat): string {
    if n < 10 then [Digit(n)] else FormatNat(n / 10) + [Digit(n % 10)]
  }

  function FormatInt(n: int): string {
    if n < 0 then "-" + FormatNat(-n) else FormatNat(n)
  }

  function ParseNat(s: string): Option<nat> {
    if s == "" || !IsDigit(s[|s| - 1]) then None
    else
      var d := s[|s| - 1] as int - '0' as int;
      if |s| == 1 then Some(d)
      else
        match ParseNat(s[..|s| - 1])
        case Some(n) => Some(10 * n + d)
        case None => None
  }

  const MAX_INT64: int := 0x7fff_ffff_ffff_ffff
  const MIN_INT64: int := -0x8000_0000_0000_0000

  predicate InInt64(n: int) {
    MIN_INT64 <= n <= MAX_INT64
  }

  // strconv.ParseInt(s, 10, 64)
  function ParseInt(s: string): Option<int> {
    var signed := s != "" && (s[0] == '-' || s[0] == '+');
    match ParseNat(if signed then s[1..] else s)
    case None => None
    case Some(n) =>
      var magnitude: int := n;
      var v := if signed && s[0] == '-' then -magnitude else magnitude;
      if InInt64(v) then Some(v) else None
  }

  lemma {:induction false} ParseFormatNat(n: nat)
    ensures ParseNat(FormatNat(n)) == Some(n)
    ensures FormatNat(n) != "" && forall c :: c in FormatNat(n) ==> IsDigit(c)
  {
    var s := FormatNat(n);
    if n >= 10 {
      ParseFormatNat(n / 10);
      assert s[..|s| - 1] == FormatNat(n / 10);
    }
  }

  lemma ParseNegative(s: string, n: int)
    requires n <= 0 && ParseNat(s) == Some(-n) && InInt64(n)
    ensures ParseInt("-" + s) == Some(n)
  {
    assert ("-" + s)[1..] == s;
  }

  lemma ParseUnsigned(s: string, n: nat)
    requires s != "" && IsDigit(s[0]) && ParseNat(s) == Some(n) && InInt64(n)
    ensures ParseInt(s) == Some(n)
  {
  }

  /** Formatting loses nothing, and uses only digits and a leading minus sign. */
  lemma ParseFormatInt(n: int)
    requires InInt64(n)
    ensures ParseInt(FormatInt(n)) == Some(n)
    ensures forall c :: c in FormatInt(n) ==> IsDigit(c) || c == '-'
  {
    if n < 0 {
      ParseFormatNat(-n);
      ParseNegative(FormatNat(-n), n);
    } else {
      ParseFormatNat(n);
      assert FormatNat(n)[0] in FormatNat(n);
      ParseUnsigned(FormatNat(n), n);
    }
  }
}
