/** The "%u" and "%x" conversions of the C library, and the readers they are checked against. */
module Numerals {

  datatype Option<+T> = None | Some(value: T)

  /** Conversion to uint32_t. */
  function U32(n: int): nat { n % 0x1_0000_0000 }

  predicate IsDigit(c: char) { '0' <= c <= '9' }

  predicate AllDigits(s: string) { forall i :: 0 <= i < |s| ==> IsDigit(s[i]) }

  function DigitValue(c: char): (d: nat)
    requires IsDigit(c)
    ensures d < 10
  {
    c as int - '0' as int
  }

  function DigitChar(d: nat): (c: char)
    requires d < 10
    ensures IsDigit(c) && DigitValue(c) == d
  {
    ('0' as int + d) as char
  }

  /** What "%u" prints. */
  function Dec(n: nat): (s: string)
    ensures |s| >= 1 && AllDigits(s)
  {
    if n < 10 then [DigitChar(n)] else Dec(n / 10) + [DigitChar(n % 10)]
  }

  /** The number a string of decimal digits denotes. */
  function DecValue(s: string): nat
    requires AllDigits(s)
  {
    if s == "" then 0 else 10 * DecValue(s[..|s| - 1]) + DigitValue(s[|s| - 1])
  }

  lemma {:induction false} DecRoundTrip(n: nat)
    ensures DecValue(Dec(n)) == n
  {
    if n >= 10 {
      DecRoundTrip(n / 10);
      assert Dec(n)[..|Dec(n)| - 1] == Dec(n / 10);
    }
  }

  function Pow10(k: nat): nat { if k == 0 then 1 else 10 * Pow10(k - 1) }

  lemma {:induction false} DecLength(n: nat, k: nat)
    requires 1 <= k
    ensures |Dec(n)| <= k <==> n < Pow10(k)
  {
    if n < 10 {
      PowPositive(k - 1);
    } else if k > 1 {
      DecLength(n / 10, k - 1);
    }
  }

  lemma {:induction false} PowPositive(k: nat)
    ensures Pow10(k) >= 1
  {
    if k > 0 { PowPositive(k - 1); }
  }

  lemma {:induction false} DecValueBound(s: string)
    requires AllDigits(s)
    ensures DecValue(s) < Pow10(|s|)
  {
    if s != "" { DecValueBound(s[..|s| - 1]); }
  }

  lemma SmallPowers()
    ensures Pow10(1) == 10 && Pow10(3) == 1000 && Pow10(5) == 100_000 && Pow10(7) == 10_000_000
  {
    assert Pow10(3) == 10 * Pow10(2) == 100 * Pow10(1);
    assert Pow10(5) == 10 * Pow10(4) == 100 * Pow10(3);
    assert Pow10(7) == 10 * Pow10(6) == 100 * Pow10(5);
  }

  /** The longest prefix of decimal digits. */
  function Digits(s: string): (d: string)
    ensures d <= s && AllDigits(d)
    ensures |d| < |s| ==> !IsDigit(s[|d|])
  {
    if s == "" || !IsDigit(s[0]) then "" else [s[0]] + Digits(s[1..])
  }

  lemma {:induction false} DigitsOf(d: string, rest: string)
    requires AllDigits(d) && (rest == "" || !IsDigit(rest[0]))
    ensures Digits(d + rest) == d
  {
    if d == "" {
      assert d + rest == rest;
    } else {
      DigitsOf(d[1..], rest);
      assert (d + rest)[1..] == d[1..] + rest;
    }
  }

  /** A hexadecimal digit in either case, as HEXDIG is read by HTTP recipients. */
  function HexDigit(c: char): (d: Option<nat>)
    ensures d.Some? ==> d.value < 16
  {
    if IsDigit(c) then Some(DigitValue(c))
    else if 'a' <= c <= 'f' then Some(10 + (c as int - 'a' as int))
    else if 'A' <= c <= 'F' then Some(10 + (c as int - 'A' as int))
    else None
  }

  function HexChar(d: nat): (c: char)
    requires d < 16
    ensures HexDigit(c) == Some(d)
  {
    if d < 10 then DigitChar(d) else ('a' as int + d - 10) as char
  }

  /** What "%x" prints. */
  function Hex(n: nat): (s: string)
    ensures |s| >= 1
  {
    if n < 16 then [HexChar(n)] else Hex(n / 16) + [HexChar(n % 16)]
  }

  function Pow16(k: nat): nat { if k == 0 then 1 else 16 * Pow16(k - 1) }

  lemma {:induction false} HexLength(n: nat, k: nat)
    requires 1 <= k && n < Pow16(k)
    ensures |Hex(n)| <= k
  {
    if n >= 16 && k > 1 { HexLength(n / 16, k - 1); }
  }

  /** The digits are the usual ones. */
  lemma DigitsAre(d: nat)
    requires d < 16
    ensures HexChar(d) == "0123456789abcdef"[d] && (d < 10 ==> DigitChar(d) == "0123456789"[d])
  {
  }

  /** A 32-bit number has at most eight hexadecimal and ten decimal digits. */
  lemma Printed32(n: nat)
    requires n < 0x1_0000_0000
    ensures |Hex(n)| <= 8 && |Dec(n)| <= 10
  {
    assert Pow16(8) == 16 * Pow16(7) == 256 * Pow16(6) == 0x1000 * Pow16(5) == 0x1_0000 * Pow16(4);
    assert Pow16(4) == 16 * Pow16(3) == 256 * Pow16(2) == 0x1000 * Pow16(1) == 0x1_0000 * Pow16(0);
    HexLength(n, 8);
    SmallPowers();
    assert Pow10(10) == 10 * Pow10(9) == 100 * Pow10(8) == 1000 * Pow10(7);
    DecLength(n, 10);
  }
}
