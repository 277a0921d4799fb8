/** Zero-padded lowercase hexadecimal output: the `%02x` and `%08x`
    conversions of `printf`, for values that fit the width. */
module Hex {
  import opened Options
  import opened Words
  import opened Scan

  function Pow16(w: nat): (p: nat)
    ensures p >= 1
  {
    if w == 0 then 1 else 16 * Pow16(w - 1)
  }

  /** The lowercase hexadecimal digit of `d`. */
  function HexChar(d: nat): (c: char)
    requires d < 16
    ensures IsHexDigit(c) && !('A' <= c <= 'F')
    ensures HexDigitValue(c) == d
  {
    if d < 10 then ('0' as int + d) as char else ('a' as int + d - 10) as char
  }

  predicate IsLowerHex(s: string) {
    forall i :: 0 <= i < |s| ==> IsHexDigit(s[i]) && !('A' <= s[i] <= 'F')
  }

  /** `%0<width>x` of a value below 16^width: exactly `width` lowercase digits. */
  function HexFixed(v: nat, width: nat): (r: string)
    requires v < Pow16(width)
    ensures |r| == width && IsLowerHex(r)
  {
    if width == 0 then ""
    else
      assert v / 16 < Pow16(width - 1);
      HexFixed(v / 16, width - 1) + [HexChar(v % 16)]
  }

  /** `%02x` of a byte. */
  function Hex2(b: u8): (r: string)
    ensures |r| == 2 && IsLowerHex(r)
  {
    HexFixed(b, 2)
  }

  /** `%08x` of a 32-bit word. */
  function Hex8(v: u32): (r: string)
    ensures |r| == 8 && IsLowerHex(r)
  {
    HexFixed(v, 8)
  }

  /** Reading the digits back gives the value printed. */
  lemma {:induction false} HexValueOfHexFixed(v: nat, width: nat)
    requires v < Pow16(width)
    ensures AllHexDigits(HexFixed(v, width)) && HexValue(HexFixed(v, width)) == v
  {
    if width > 0 {
      var q, d := v / 16, v % 16;
      HexFixedStep(v, width);
      var front, c := HexFixed(q, width - 1), HexChar(d);
      HexValueOfHexFixed(q, width - 1);
      HexValueSnoc(front, c);
      assert HexFixed(v, width) == front + [c];
      assert HexValue(front + [c]) == 16 * q + d;
    }
  }

  /** The last digit of `HexFixed` is the value modulo 16, the rest prints
      the quotient. */
  lemma HexFixedStep(v: nat, width: nat)
    requires width > 0 && v < Pow16(width)
    ensures v / 16 < Pow16(width - 1)
    ensures HexFixed(v, width) == HexFixed(v / 16, width - 1) + [HexChar(v % 16)]
    ensures v == 16 * (v / 16) + v % 16
  {
  }

  /** One more digit on the right multiplies by 16 and adds its value. */
  lemma HexValueSnoc(ds: string, c: char)
    requires AllHexDigits(ds) && IsHexDigit(c)
    ensures AllHexDigits(ds + [c])
    ensures HexValue(ds + [c]) == 16 * HexValue(ds) + HexDigitValue(c)
  {
    var s := ds + [c];
    assert s[..|s| - 1] == ds;
    assert s[|s| - 1] == c;
  }

  lemma HexValueOfHex2(b: u8)
    ensures AllHexDigits(Hex2(b)) && HexValue(Hex2(b)) == b
  {
    HexValueOfHexFixed(b, 2);
  }

  /** The whole run of hexadecimal digits in a string of hexadecimal digits is the string. */
  lemma {:induction false} HexRunOfHexDigits(ds: string)
    requires AllHexDigits(ds)
    ensures HexRun(ds) == |ds|
    decreases |ds|
  {
    if |ds| > 0 {
      HexRunOfHexDigits(ds[1..]);
    }
  }

  /** A token that starts with its hexadecimal digits, with or without a
      `0x` prefix, converts to the value of that digit run. */
  lemma ScanHexUnsigned(t: string, ds: string)
    requires |t| > 0 && !IsSpace(t[0]) && t[0] != '-' && t[0] != '+'
    requires 0 < |ds| && AllHexDigits(ds)
    requires var digits := if HasHexPrefix(t) then t[2..] else t;
      |ds| <= |digits| && HexRun(digits) == |ds| && digits[..|ds|] == ds
    ensures ScanHex(t) == Some(HexValue(ds))
  {
    assert SkipSpace(t) == t;
    assert Unsigned(t) == t;
  }

  /** Eight hexadecimal digits are read back by `%x` as their value. */
  lemma ScanHexOfEightDigits(ds: string)
    requires |ds| == 8 && AllHexDigits(ds) && ds[1] != 'x' && ds[1] != 'X'
    ensures ScanHex(ds) == Some(HexValue(ds))
  {
    HexRunOfHexDigits(ds);
    assert ds[..|ds|] == ds;
    ScanHexUnsigned(ds, ds);
  }

  /** Hexadecimal digits after `0x` are read back by `%x` as their value. */
  lemma ScanHexOfPrefixedDigits(ds: string)
    requires |ds| > 0 && AllHexDigits(ds)
    ensures ScanHex("0x" + ds) == Some(HexValue(ds))
  {
    HexRunOfHexDigits(ds);
    assert ds[..|ds|] == ds;
    var t := "0x" + ds;
    assert HasHexPrefix(t);
    assert t[2..] == ds;
    ScanHexUnsigned(t, ds);
  }

  /** An address printed with `0x%08x` (or its bare eight digits) is read back
      unchanged by the `%x` conversion the `x` command applies to its address. */
  lemma ScanHexOfHex8(a: u32)
    ensures ScanHex(Hex8(a)) == Some(a)
    ensures ScanHex("0x" + Hex8(a)) == Some(a)
  {
    var ds := Hex8(a);
    HexValueOfHexFixed(a, 8);
    ScanHexOfEightDigits(ds);
    ScanHexOfPrefixedDigits(ds);
  }
}
