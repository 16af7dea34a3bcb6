/** MongoDB's ObjectIDs: 96-bit numbers, written as 24 hexadecimal digits. */
module ObjectIds {
  import opened GoStrings
  import opened Decimal

  type ObjectId = n: nat | n < 0x1_0000_0000_0000_0000_0000_0000 witness 0

  function HexDigit(d: nat): char
    requires d < 16
  {
    if d < 10 then Digit(d) else ('a' as int + d - 10) as char
  }

  function HexValue(c: char): Option<nat> {
    if '0' <= c <= '9' then Some(c as int - '0' as int)
    else if 'a' <= c <= 'f' then Some(c as int - 'a' as int + 10)
    else if 'A' <= c <= 'F' then Some(c as int - 'A' as int + 10)
    else None
  }

  function Hex(n: nat, width: nat): (s: string)
    ensures |s| == width
    decreases width
  {
    if width == 0 then "" else Hex(n / 16, width - 1) + [HexDigit(n % 16)]
  }

  function UnHex(s: string): Option<nat> {
    if s == "" then Some(0)
    else
      match (UnHex(s[..|s| - 1]), HexValue(s[|s| - 1]))
      case (Some(n), Some(d)) => Some(16 * n + d)
      case _ => None
  }

  function Power16(width: nat): nat {
    if width == 0 then 1 else 16 * Power16(width - 1)
  }

  lemma {:induction false} UnHexHex(n: nat, width: nat)
    requires n < Power16(width)
    ensures UnHex(Hex(n, width)) == Some(n)
    decreases width
  {
    if width > 0 {
      UnHexHex(n / 16, width - 1);
      var s := Hex(n, width);
      assert s[..width - 1] == Hex(n / 16, width - 1);
    }
  }

  lemma {:induction false} UnHexBound(s: string)
    ensures UnHex(s).Some? ==> UnHex(s).value < Power16(|s|)
  {
    if s != "" {
      UnHexBound(s[..|s| - 1]);
    }
  }

  lemma ObjectIdWidth()
    ensures Power16(24) == 0x1_0000_0000_0000_0000_0000_0000
  {
    assert Power16(8) == 0x1_0000_0000;
    assert Power16(16) == 0x1_0000_0000_0000_0000;
  }

  // ObjectIDFromHex
  function ParseObjectId(s: string): Option<ObjectId> {
    if |s| != 24 then None
    else
      match UnHex(s)
      case Some(n) => UnHexBound(s); ObjectIdWidth(); Some(n)
      case None => None
  }

  // A to F in lower case, the rest as it is.
  function Lower(c: char): char {
    if 'A' <= c <= 'F' then (c as int + 32) as char else c
  }

  function LowerHex(s: string): string {
    if s == "" then "" else LowerHex(s[..|s| - 1]) + [Lower(s[|s| - 1])]
  }

  lemma {:induction false} UnHexExactly(s: string, n: nat)
    requires n < Power16(|s|)
    ensures UnHex(s) == Some(n) <==> LowerHex(s) == Hex(n, |s|)
  {
    if s != "" {
      var before, c := s[..|s| - 1], s[|s| - 1];
      UnHexExactly(before, n / 16);
      UnHexStep(s, n);
      HexDigitExactly(c, n % 16);
      LowerHexLength(before);
      SameEnds(LowerHex(before), Lower(c), Hex(n / 16, |before|), HexDigit(n % 16));
    }
  }

  lemma UnHexStep(s: string, n: nat)
    requires s != ""
    ensures UnHex(s) == Some(n)
       <==> UnHex(s[..|s| - 1]) == Some(n / 16) && HexValue(s[|s| - 1]) == Some(n % 16)
  {
    Digits(n);
    match (UnHex(s[..|s| - 1]), HexValue(s[|s| - 1]))
    case (Some(m), Some(d)) => DigitsOf(m, d);
    case _ =>
  }

  lemma Digits(n: nat)
    ensures n == 16 * (n / 16) + n % 16
  {
  }

  lemma DigitsOf(m: nat, d: nat)
    requires d < 16
    ensures (16 * m + d) / 16 == m && (16 * m + d) % 16 == d
  {
  }

  lemma HexDigitExactly(c: char, d: nat)
    requires d < 16
    ensures HexValue(c) == Some(d) <==> Lower(c) == HexDigit(d)
  {
  }

  lemma SameEnds(a: string, c: char, b: string, d: char)
    requires |a| == |b|
    ensures a + [c] == b + [d] <==> a == b && c == d
  {
    assert a == (a + [c])[..|a|] && b == (b + [d])[..|b|];
    assert (a + [c])[|a|] == c && (b + [d])[|b|] == d;
  }

  lemma {:induction false} LowerHexLength(s: string)
    ensures |LowerHex(s)| == |s|
  {
    if s != "" {
      LowerHexLength(s[..|s| - 1]);
    }
  }

  /** A text is read as an id exactly when it is the id's 24 hexadecimal digits, in upper or lower case. */
  lemma ParseExactly(s: string, id: ObjectId)
    ensures ParseObjectId(s) == Some(id) <==> |s| == 24 && LowerHex(s) == Hex(id, 24)
  {
    ObjectIdWidth();
    if |s| == 24 {
      UnHexExactly(s, id);
    }
  }
}
