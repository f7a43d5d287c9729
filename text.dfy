/** The string conversions makefont.cpp relies on: `wxString::ToLong` (as
    strtol in base 10 reads a token), `%d` and `%04x` formatting, `Lower` and
    `Right(4)`. Strings are sequences of characters; only ASCII case mapping
    is modelled. */
module Text {

  predicate IsDigit(c: char)
  {
    '0' <= c <= '9'
  }

  /** The number of leading decimal digits of `s`. */
  function LeadingDigits(s: string): (n: nat)
    ensures n <= |s|
    ensures forall i :: 0 <= i < n ==> IsDigit(s[i])
    ensures n < |s| ==> !IsDigit(s[n])
  {
    if s == [] || !IsDigit(s[0]) then 0 else 1 + LeadingDigits(s[1..])
  }

  /** The value of a string of decimal digits, most significant first. */
  function DigitsValue(s: string): (v: nat)
    requires forall i :: 0 <= i < |s| ==> IsDigit(s[i])
  {
    if s == [] then 0
    else
      assert IsDigit(s[|s| - 1]);
      DigitsValue(s[..|s| - 1]) * 10 + (s[|s| - 1] as int - '0' as int)
  }

  /** `wxString::ToLong` on a token: an optional sign, then the value of the
      leading decimal digits; 0 when there are none. */
  function ToLong(s: string): int
  {
    if |s| > 0 && (s[0] == '-' || s[0] == '+') then
      var t := s[1..];
      var v: int := DigitsValue(t[..LeadingDigits(t)]);
      if s[0] == '-' then -v else v
    else
      DigitsValue(s[..LeadingDigits(s)])
  }

  function DigitChar(d: int): char
    requires 0 <= d < 10
  {
    ('0' as int + d) as char
  }

  /** Decimal digits of `n`, no leading zeros. */
  function NatToString(n: nat): (s: string)
    ensures |s| >= 1 && forall i :: 0 <= i < |s| ==> IsDigit(s[i])
    decreases n
  {
    if n < 10 then [DigitChar(n)] else NatToString(n / 10) + [DigitChar(n % 10)]
  }

  /** `wxString::Format("%d", n)`. */
  function IntToString(n: int): string
  {
    if n < 0 then "-" + NatToString(-n) else NatToString(n)
  }

  lemma {:induction false} DigitsValueOfNatToString(n: nat)
    ensures DigitsValue(NatToString(n)) == n
    decreases n
  {
    var s := NatToString(n);
    if n >= 10 {
      DigitsValueOfNatToString(n / 10);
      assert s[..|s| - 1] == NatToString(n / 10);
    }
  }

  lemma LeadingDigitsAll(s: string)
    requires forall i :: 0 <= i < |s| ==> IsDigit(s[i])
    ensures LeadingDigits(s) == |s|
  {
  }

  /** Reading back what `%d` printed gives the number. */
  lemma ToLongOfIntToString(n: int)
    ensures ToLong(IntToString(n)) == n
  {
    var d := NatToString(if n < 0 then -n else n);
    LeadingDigitsAll(d);
    assert d[..|d|] == d;
    DigitsValueOfNatToString(if n < 0 then -n else n);
    if n < 0 {
      assert IntToString(n)[1..] == d;
    } else {
      assert IsDigit(d[0]);
    }
  }

  /** ASCII lower-case mapping of `wxString::Lower`. */
  function Lower(s: string): (r: string)
    ensures |r| == |s|
    ensures forall i :: 0 <= i < |s| ==> r[i] == (if 'A' <= s[i] <= 'Z' then (s[i] as int + 32) as char else s[i])
  {
    if s == [] then [] else
      [if 'A' <= s[0] <= 'Z' then (s[0] as int + 32) as char else s[0]] + Lower(s[1..])
  }

  /** `s.Right(n) == suffix` for `n == |suffix|`: `Right` yields the whole string when it is shorter. */
  predicate RightEquals(s: string, suffix: string)
  {
    if |s| <= |suffix| then s == suffix else s[|s| - |suffix|..] == suffix
  }

  function HexDigitChar(d: int): char
    requires 0 <= d < 16
  {
    if d < 10 then ('0' as int + d) as char else ('a' as int + d - 10) as char
  }

  function HexDigitValue(c: char): int
  {
    if '0' <= c <= '9' then c as int - '0' as int
    else if 'a' <= c <= 'f' then c as int - 'a' as int + 10
    else -1
  }

  /** Lower-case hexadecimal digits of `n`, no leading zeros. */
  function NatToHex(n: nat): (s: string)
    ensures |s| >= 1
    decreases n
  {
    if n < 16 then [HexDigitChar(n)] else NatToHex(n / 16) + [HexDigitChar(n % 16)]
  }

  function HexValue(s: string): int
  {
    if s == [] then 0 else HexValue(s[..|s| - 1]) * 16 + HexDigitValue(s[|s| - 1])
  }

  /** `wxString::Format("%04x", v)` for a C `int`: the 32-bit unsigned
      reading of `v`, in lower-case hexadecimal, zero-padded to four digits. */
  function Hex4(v: int): (s: string)
    ensures |s| >= 4
  {
    var h := NatToHex(v % 0x1_0000_0000);
    if |h| < 4 then seq(4 - |h|, _ => '0') + h else h
  }

  lemma {:induction false} HexValueOfNatToHex(n: nat)
    ensures HexValue(NatToHex(n)) == n
    decreases n
  {
    if n >= 16 {
      var s := NatToHex(n);
      HexValueOfNatToHex(n / 16);
      assert s[..|s| - 1] == NatToHex(n / 16);
    }
  }

  lemma {:induction false} HexValueZeros(k: nat)
    ensures HexValue(seq(k, _ => '0')) == 0
  {
    if k > 0 {
      assert seq(k, _ => '0')[..k - 1] == seq(k - 1, _ => '0');
      HexValueZeros(k - 1);
    }
  }

  /** Leading zeros do not change a hexadecimal value. */
  lemma {:induction false} HexValueZeroPad(k: nat, h: string)
    ensures HexValue(seq(k, _ => '0') + h) == HexValue(h)
    decreases |h|
  {
    var z := seq(k, _ => '0');
    if h != [] {
      assert (z + h)[..|z + h| - 1] == z + h[..|h| - 1];
      HexValueZeroPad(k, h[..|h| - 1]);
    } else {
      assert z + h == z;
      HexValueZeros(k);
    }
  }

  /** Reading back what `%04x` printed gives the 32-bit unsigned value. */
  lemma Hex4RoundTrip(v: int)
    ensures HexValue(Hex4(v)) == v % 0x1_0000_0000
  {
    var h := NatToHex(v % 0x1_0000_0000);
    HexValueOfNatToHex(v % 0x1_0000_0000);
    if |h| < 4 {
      HexValueZeroPad(4 - |h|, h);
    }
  }

  /** Concatenation regrouped, for proofs that build text piece by piece. */
  lemma Assoc(a: string, b: string, c: string)
    ensures a + b + c == a + (b + c)
  {
  }
}
