/** The two `sscanf` conversions the monitor relies on, `%d` and `%x`, applied
    to one token. A conversion either succeeds with a value or fails, in which
    case the C variable keeps the value it was initialised with. */
module Scan {
  import opened Options

  /** The characters `isspace` accepts in the "C" locale. */
  predicate IsSpace(c: char) {
    c == ' ' || c == '\t' || c == '\n' || c == '\r' || c == 11 as char || c == 12 as char
  }

  predicate IsDigit(c: char) {
    '0' <= c <= '9'
  }

  predicate IsHexDigit(c: char) {
    IsDigit(c) || 'a' <= c <= 'f' || 'A' <= c <= 'F'
  }

  predicate AllDigits(s: string) {
    forall i :: 0 <= i < |s| ==> IsDigit(s[i])
  }

  predicate AllHexDigits(s: string) {
    forall i :: 0 <= i < |s| ==> IsHexDigit(s[i])
  }

  function DigitValue(c: char): (d: nat)
    requires IsDigit(c)
    ensures d < 10
  {
    c as int - '0' as int
  }

  function HexDigitValue(c: char): (d: nat)
    requires IsHexDigit(c)
    ensures d < 16
    ensures IsDigit(c) ==> d == DigitValue(c)
  {
    if IsDigit(c) then DigitValue(c)
    else if 'a' <= c <= 'f' then c as int - 'a' as int + 10
    else c as int - 'A' as int + 10
  }

  /** Value of a string of decimal digits, most significant first. */
  function DecimalValue(ds: string): nat
    requires AllDigits(ds)
  {
    if |ds| == 0 then 0 else 10 * DecimalValue(ds[..|ds| - 1]) + DigitValue(ds[|ds| - 1])
  }

  /** Value of a string of hexadecimal digits, most significant first. */
  function HexValue(ds: string): nat
    requires AllHexDigits(ds)
  {
    if |ds| == 0 then 0 else 16 * HexValue(ds[..|ds| - 1]) + HexDigitValue(ds[|ds| - 1])
  }

  /** What is left of `s` once leading white space is skipped, as every numeric
      conversion of `scanf` does first. */
  function SkipSpace(s: string): (r: string)
    ensures |r| <= |s|
  {
    if |s| > 0 && IsSpace(s[0]) then SkipSpace(s[1..]) else s
  }

  /** What `SkipSpace` leaves is a suffix of its input, everything before
      it is white space, and it does not itself start with white space. */
  lemma {:induction false} SkipSpaceSuffix(s: string)
    ensures var r := SkipSpace(s);
      && r == s[|s| - |r|..]
      && (forall i :: 0 <= i < |s| - |r| ==> IsSpace(s[i]))
      && (|r| == 0 || !IsSpace(r[0]))
    decreases |s|
  {
    if |s| > 0 && IsSpace(s[0]) {
      SkipSpaceSuffix(s[1..]);
      var r := SkipSpace(s);
      assert r == SkipSpace(s[1..]);
      assert s[1..][|s| - 1 - |r|..] == s[|s| - |r|..];
      forall i | 0 <= i < |s| - |r| ensures IsSpace(s[i]) {
        if i > 0 { assert s[i] == s[1..][i - 1]; }
      }
    }
  }

  /** Length of the longest prefix of `s` made of decimal digits. */
  function DigitRun(s: string): (n: nat)
    ensures n <= |s|
    ensures AllDigits(s[..n])
    ensures n == |s| || !IsDigit(s[n])
  {
    if |s| == 0 || !IsDigit(s[0]) then 0 else 1 + DigitRun(s[1..])
  }

  /** Length of the longest prefix of `s` made of hexadecimal digits. */
  function HexRun(s: string): (n: nat)
    ensures n <= |s|
    ensures AllHexDigits(s[..n])
    ensures n == |s| || !IsHexDigit(s[n])
  {
    if |s| == 0 || !IsHexDigit(s[0]) then 0 else 1 + HexRun(s[1..])
  }

  /** `s` without a leading `+` or `-`. */
  function Unsigned(s: string): (r: string)
    ensures r == s || (|s| > 0 && r == s[1..])
  {
    if |s| > 0 && (s[0] == '-' || s[0] == '+') then s[1..] else s
  }

  predicate NoDigit(s: string) {
    forall i :: 0 <= i < |s| ==> !IsDigit(s[i])
  }

  predicate NoHexDigit(s: string) {
    forall i :: 0 <= i < |s| ==> !IsHexDigit(s[i])
  }

  /** `sscanf(token, "%d", &n)`: white space, an optional sign, then the
      longest run of decimal digits. `None` when no digit follows, i.e. when
      the conversion fails and `n` is left as it was. */
  function ScanDecimal(t: string): (r: Option<int>)
    ensures NoDigit(t) ==> r == None
  {
    var s := SkipSpace(t);
    var body := Unsigned(s);
    var n := DigitRun(body);
    if n == 0 then None
    else
      SkipSpaceSuffix(t);
      assert body[0] == t[|t| - |body|];
      var v: int := DecimalValue(body[..n]);
      Some(if s[0] == '-' then -v else v)
  }

  /** `s` starts with a `0x` or `0X` prefix that a hexadecimal digit follows. */
  predicate HasHexPrefix(s: string) {
    |s| >= 3 && s[0] == '0' && (s[1] == 'x' || s[1] == 'X') && IsHexDigit(s[2])
  }

  /** `sscanf(token, "%x", &a)`: white space, an optional sign, an optional
      `0x`/`0X` prefix, then the longest run of hexadecimal digits; a minus
      sign negates the value (the caller reduces it to the target's width).
      `None` when no hexadecimal digit is found, and then `a` is left as it
      was. */
  function ScanHex(t: string): (r: Option<int>)
    ensures NoHexDigit(t) ==> r == None
  {
    var s := SkipSpace(t);
    var body := Unsigned(s);
    var digits := if HasHexPrefix(body) then body[2..] else body;
    var n := HexRun(digits);
    if n == 0 then None
    else
      SkipSpaceSuffix(t);
      assert digits[0] == t[|t| - |digits|];
      var v: int := HexValue(digits[..n]);
      Some(if s[0] == '-' then -v else v)
  }

  /** `%d` fails on a token whose first character is neither white space, a
      sign nor a digit (`a5`), and on a sign that no digit follows (`--5`). */
  lemma ScanDecimalRejects(t: string)
    ensures |t| > 0 && !IsSpace(t[0]) && !IsDigit(t[0]) && t[0] != '-' && t[0] != '+' ==> ScanDecimal(t) == None
    ensures |t| > 1 && (t[0] == '-' || t[0] == '+') && !IsDigit(t[1]) ==> ScanDecimal(t) == None
  {
  }

  /** `%x` fails on a token whose first character is neither white space, a
      sign nor a hexadecimal digit (`g1`), and on a sign that no hexadecimal
      digit follows (`-x1`). */
  lemma ScanHexRejects(t: string)
    ensures |t| > 0 && !IsSpace(t[0]) && !IsHexDigit(t[0]) && t[0] != '-' && t[0] != '+' ==> ScanHex(t) == None
    ensures |t| > 1 && (t[0] == '-' || t[0] == '+') && !IsHexDigit(t[1]) ==> ScanHex(t) == None
  {
  }

  /** Leading white space of any `isspace` kind is skipped whatever follows. */
  lemma {:induction false} SkipSpaceAppend(w: string, t: string)
    requires forall i :: 0 <= i < |w| ==> IsSpace(w[i])
    ensures SkipSpace(w + t) == SkipSpace(t)
    decreases |w|
  {
    if |w| == 0 {
      assert w + t == t;
    } else {
      assert (w + t)[0] == w[0];
      assert (w + t)[1..] == w[1..] + t;
      SkipSpaceAppend(w[1..], t);
    }
  }

  /** `%d` skips leading white space, tabs and line ends included. */
  lemma ScanDecimalSkipsBlanks(w: string, t: string)
    requires forall i :: 0 <= i < |w| ==> IsSpace(w[i])
    ensures ScanDecimal(w + t) == ScanDecimal(t)
  {
    SkipSpaceAppend(w, t);
  }

  /** `%x` skips leading white space, tabs and line ends included. */
  lemma ScanHexSkipsBlanks(w: string, t: string)
    requires forall i :: 0 <= i < |w| ==> IsSpace(w[i])
    ensures ScanHex(w + t) == ScanHex(t)
  {
    SkipSpaceAppend(w, t);
  }

  /** `%d` of a signed token: `-` negates what the unsigned rest converts to
      and `+` leaves it as it is; either fails when the rest does. */
  lemma ScanDecimalSigned(t: string)
    requires |t| == 0 || (!IsSpace(t[0]) && t[0] != '-' && t[0] != '+')
    ensures ScanDecimal("-" + t).None? == ScanDecimal(t).None?
    ensures ScanDecimal(t).Some? ==> ScanDecimal("-" + t) == Some(-ScanDecimal(t).value)
    ensures ScanDecimal("+" + t) == ScanDecimal(t)
  {
    SignedParts("-", t);
    SignedParts("+", t);
  }

  /** `%x` of a signed token: `-` negates what the unsigned rest converts to
      and `+` leaves it as it is; either fails when the rest does. */
  lemma ScanHexSigned(t: string)
    requires |t| == 0 || (!IsSpace(t[0]) && t[0] != '-' && t[0] != '+')
    ensures ScanHex("-" + t).None? == ScanHex(t).None?
    ensures ScanHex(t).Some? ==> ScanHex("-" + t) == Some(-ScanHex(t).value)
    ensures ScanHex("+" + t) == ScanHex(t)
  {
    SignedParts("-", t);
    SignedParts("+", t);
  }

  /** The blanks and sign a conversion strips from a signed token, and from
      the same token without its sign. */
  lemma SignedParts(sign: string, t: string)
    requires sign == "-" || sign == "+"
    requires |t| == 0 || (!IsSpace(t[0]) && t[0] != '-' && t[0] != '+')
    ensures SkipSpace(sign + t) == sign + t && Unsigned(sign + t) == t
    ensures SkipSpace(t) == t && Unsigned(t) == t
  {
    assert (sign + t)[0] == sign[0];
    assert (sign + t)[1..] == t;
  }

  /** The decimal numeral of `n`, without sign or leading zeros. */
  function Decimal(n: nat): (r: string)
    ensures |r| > 0 && AllDigits(r)
  {
    if n < 10 then [('0' as int + n) as char]
    else Decimal(n / 10) + [('0' as int + n % 10) as char]
  }

  lemma {:induction false} DecimalValueOfDecimal(n: nat)
    ensures DecimalValue(Decimal(n)) == n
  {
    var r := Decimal(n);
    if n >= 10 {
      DecimalValueOfDecimal(n / 10);
      assert r[..|r| - 1] == Decimal(n / 10);
    }
  }

  /** The digit run of a digit string followed by anything that does not
      start with a digit is that digit string. */
  lemma {:induction false} DigitRunThenStop(ds: string, rest: string)
    requires AllDigits(ds)
    requires |rest| == 0 || !IsDigit(rest[0])
    ensures DigitRun(ds + rest) == |ds|
    decreases |ds|
  {
    if |ds| > 0 {
      assert (ds + rest)[1..] == ds[1..] + rest;
      DigitRunThenStop(ds[1..], rest);
    }
  }

  /** A token that starts with its digits converts to the value of its digit run. */
  lemma ScanDecimalUnsigned(t: string, ds: string)
    requires |t| > 0 && !IsSpace(t[0]) && t[0] != '-' && t[0] != '+'
    requires 0 < |ds| <= |t| && DigitRun(t) == |ds| && t[..|ds|] == ds
    ensures ScanDecimal(t) == Some(DecimalValue(ds))
  {
    assert SkipSpace(t) == t;
    assert Unsigned(t) == t;
  }

  /** `%d` reads the leading decimal number of a token and ignores what
      follows it: `"12abc"` converts to 12. */
  lemma ScanDecimalReadsPrefix(ds: string, rest: string)
    requires |ds| > 0 && AllDigits(ds)
    requires |rest| == 0 || !IsDigit(rest[0])
    ensures ScanDecimal(ds + rest) == Some(DecimalValue(ds))
  {
    var t := ds + rest;
    assert t[0] == ds[0];
    DigitRunThenStop(ds, rest);
    assert t[..|ds|] == ds;
    ScanDecimalUnsigned(t, ds);
  }

  /** `%d` reads back every decimal numeral. */
  lemma ScanDecimalOfNumeral(n: nat)
    ensures ScanDecimal(Decimal(n)) == Some(n)
  {
    var ds := Decimal(n);
    DecimalValueOfDecimal(n);
    assert ds + "" == ds;
    ScanDecimalReadsPrefix(ds, "");
  }

  /** `%d` reads back every decimal numeral preceded by a minus sign. */
  lemma ScanDecimalOfNegativeNumeral(n: nat, t: string)
    requires t == "-" + Decimal(n)
    ensures ScanDecimal(t) == Some(-(n as int))
  {
    var ds := Decimal(n);
    DecimalValueOfDecimal(n);
    assert SkipSpace(t) == t;
    assert Unsigned(t) == ds;
    DigitRunThenStop(ds, "");
    assert ds + "" == ds;
    assert ds[..|ds|] == ds;
  }
}
