/**
 * Decimal integers as the record format writes and reads them: `std::to_string` /
 * `operator<<` on the writing side, `strtoll` (and the narrowing of its result to
 * `int`) on the reading side.
 */
module Numbers {

  const INT32_MIN: int := -0x8000_0000
  const INT32_MAX: int := 0x7fff_ffff
  const INT64_MIN: int := -0x8000_0000_0000_0000
  const INT64_MAX: int := 0x7fff_ffff_ffff_ffff

  /** C++ `int` */
  type Int32 = x: int | INT32_MIN <= x <= INT32_MAX
  /** `gint64` and `long long` */
  type Int64 = x: int | INT64_MIN <= x <= INT64_MAX

  predicate IsDigit(c: char) { '0' <= c <= '9' }

  /** `isspace` in the "C" locale: space, \t, \n, \v, \f, \r */
  predicate IsSpace(c: char) { c == ' ' || '\t' <= c <= '\r' }

  predicate AllDigits(s: string) { forall i :: 0 <= i < |s| ==> IsDigit(s[i]) }

  function DigitChar(d: int): (c: char)
    requires 0 <= d < 10
    ensures IsDigit(c) && c as int - '0' as int == d
  {
    (d + '0' as int) as char
  }

  /** Decimal digits of `n`, most significant first, without leading zeros. */
  function NatToString(n: nat): (s: string)
    ensures |s| > 0 && AllDigits(s)
    ensures n >= 10 ==> s[0] != '0'
  {
    if n < 10 then [DigitChar(n)] else NatToString(n / 10) + [DigitChar(n % 10)]
  }

  /** `std::to_string` on a signed integer: a minus sign, then the digits of the magnitude. */
  function IntToString(n: int): (s: string)
    ensures |s| > 0 && !IsSpace(s[0])
    ensures forall i :: 0 <= i < |s| ==> IsDigit(s[i]) || (i == 0 && s[i] == '-')
    ensures n >= 0 <==> IsDigit(s[0])
  {
    if n < 0 then "-" + NatToString(-n) else NatToString(n)
  }

  /** The number a string of decimal digits denotes. */
  function DigitsValue(d: string): nat
    requires AllDigits(d)
  {
    if d == [] then 0 else DigitsValue(d[..|d| - 1]) * 10 + (d[|d| - 1] as int - '0' as int)
  }

  /** The longest prefix of `s` made of decimal digits. */
  function DigitPrefix(s: string): (d: string)
    ensures AllDigits(d) && d <= s
    ensures |d| < |s| ==> !IsDigit(s[|d|])
  {
    if s == [] || !IsDigit(s[0]) then [] else [s[0]] + DigitPrefix(s[1..])
  }

  /** `s` without its leading white space. */
  function SkipSpaces(s: string): (t: string)
    ensures |t| <= |s| && t == s[|s| - |t|..]
    ensures t != [] ==> !IsSpace(t[0])
    ensures forall i :: 0 <= i < |s| - |t| ==> IsSpace(s[i])
  {
    if s != [] && IsSpace(s[0]) then SkipSpaces(s[1..]) else s
  }

  /**
   * The leading decimal number of `s`, as `strtoll` reads it before range checking:
   * leading white space, an optional sign, then as many digits as follow.
   * No digits at all reads as 0.
   */
  function LeadingInt(s: string): int
  {
    var t := SkipSpaces(s);
    if t != [] && (t[0] == '-' || t[0] == '+') then
      var v: int := DigitsValue(DigitPrefix(t[1..]));
      if t[0] == '-' then -v else v
    else
      DigitsValue(DigitPrefix(t))
  }

  /** How far apart two integers are. */
  function Distance(a: int, b: int): nat
  {
    if a < b then b - a else a - b
  }

  /**
   * `strtoll(s, nullptr, 10)`: the `long long` nearest to the leading number, so a value out
   * of range saturates at LLONG_MIN / LLONG_MAX.
   */
  function StrToLL(s: string): (r: Int64)
    ensures forall y: Int64 :: Distance(r, LeadingInt(s)) <= Distance(y, LeadingInt(s))
  {
    var v := LeadingInt(s);
    if v > INT64_MAX then INT64_MAX else if v < INT64_MIN then INT64_MIN else v
  }

  /** Conversion of a `long long` to `int`: two's-complement wrap-around modulo 2^32. */
  function Narrow32(x: Int64): (r: Int32)
    ensures (r - x) % 0x1_0000_0000 == 0
    ensures INT32_MIN <= x <= INT32_MAX ==> r == x
  {
    (x - INT32_MIN) % 0x1_0000_0000 + INT32_MIN
  }

  lemma {:induction false} DigitsValueOfNatToString(n: nat)
    ensures DigitsValue(NatToString(n)) == n
  {
    if n >= 10 {
      var s := NatToString(n / 10) + [DigitChar(n % 10)];
      assert s[..|s| - 1] == NatToString(n / 10);
      DigitsValueOfNatToString(n / 10);
    }
  }

  lemma {:induction false} DigitPrefixOfDigits(d: string, rest: string)
    requires AllDigits(d)
    requires rest == [] || !IsDigit(rest[0])
    ensures DigitPrefix(d + rest) == d
  {
    if d != [] {
      assert (d + rest)[1..] == d[1..] + rest;
      DigitPrefixOfDigits(d[1..], rest);
    } else {
      assert d + rest == rest;
    }
  }

  /** Reading back what `std::to_string` wrote gives the number again, for every integer. */
  lemma LeadingIntOfIntToString(n: int)
    ensures LeadingInt(IntToString(n)) == n
  {
    var s := IntToString(n);
    assert SkipSpaces(s) == s;
    var digits := if n < 0 then NatToString(-n) else NatToString(n);
    DigitPrefixOfDigits(digits, []);
    assert digits + [] == digits;
    DigitsValueOfNatToString(if n < 0 then -n else n);
    if n < 0 {
      assert s[1..] == digits;
    }
  }

  /** `strtoll` reads back every 64-bit value `std::to_string` writes. */
  lemma StrToLLOfIntToString(n: Int64)
    ensures StrToLL(IntToString(n)) == n
  {
    LeadingIntOfIntToString(n);
  }
}
