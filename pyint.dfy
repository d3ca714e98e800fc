/**
 * The two Python built-ins the instrument-definition rewrite relies on for integers:
 * `str(n)` (decimal rendering) and `int(s)` (decimal parsing), plus the
 * truncation toward zero that `int(x / d)` performs on an exact quotient.
 */
module PyInt {
  import opened Wrappers

  predicate IsDigit(c: char) {
    '0' <= c <= '9'
  }

  function DigitChar(d: nat): (c: char)
    requires d < 10
    ensures IsDigit(c)
  {
    ('0' as int + d) as char
  }

  function DigitValue(c: char): (d: nat)
    requires IsDigit(c)
    ensures d < 10 && DigitChar(d) == c
  {
    c as int - '0' as int
  }

  /** `str(n)` for n >= 0: decimal digits, no leading zero. */
  function NatToString(n: nat): (s: string)
    ensures |s| > 0
    ensures forall k :: 0 <= k < |s| ==> IsDigit(s[k])
    decreases n
  {
    if n < 10 then [DigitChar(n)] else NatToString(n / 10) + [DigitChar(n % 10)]
  }

  /** `str(n)` for any Python int. */
  function IntToString(n: int): (s: string)
    ensures |s| > 0 && (n < 0 <==> s[0] == '-')
  {
    if n < 0 then "-" + NatToString(-n) else NatToString(n)
  }

  /** The ASCII characters Python's `int()` strips as white space. */
  predicate IsPySpace(c: char) {
    // space, and tab through carriage return (9..13)
    c == ' ' || '\t' <= c <= '\r'
  }

  function StripLeft(s: string): (t: string)
    ensures |t| <= |s| && t == s[|s| - |t|..]
    ensures |t| > 0 ==> !IsPySpace(t[0])
    ensures forall k :: 0 <= k < |s| - |t| ==> IsPySpace(s[k])
    decreases |s|
  {
    if |s| > 0 && IsPySpace(s[0]) then StripLeft(s[1..]) else s
  }

  function StripRight(s: string): (t: string)
    ensures |t| <= |s| && t == s[..|t|]
    ensures |t| > 0 ==> !IsPySpace(t[|t| - 1])
    ensures forall k :: |t| <= k < |s| ==> IsPySpace(s[k])
    decreases |s|
  {
    if |s| > 0 && IsPySpace(s[|s| - 1]) then StripRight(s[..|s| - 1]) else s
  }

  function Strip(s: string): string {
    StripRight(StripLeft(s))
  }

  /**
   * The digit part accepted by `int()` in base 10: digits, a single `_` allowed
   * between two digits.
   */
  predicate WellFormedDigits(s: string) {
    && |s| > 0
    && IsDigit(s[0]) && IsDigit(s[|s| - 1])
    && (forall k :: 0 <= k < |s| ==> IsDigit(s[k]) || s[k] == '_')
    && (forall k :: 0 <= k < |s| - 1 ==> s[k] == '_' ==> s[k + 1] != '_')
  }

  /** The number the digits of s denote, underscores ignored. */
  function DigitsValue(s: string): nat
    requires forall k :: 0 <= k < |s| ==> IsDigit(s[k]) || s[k] == '_'
    decreases |s|
  {
    if |s| == 0 then 0
    else if s[|s| - 1] == '_' then DigitsValue(s[..|s| - 1])
    else 10 * DigitsValue(s[..|s| - 1]) + DigitValue(s[|s| - 1])
  }

  /** `int(s)`: None models the ValueError Python raises. */
  function ParseInt(s: string): Option<int> {
    var t := Strip(s);
    if |t| > 0 && (t[0] == '-' || t[0] == '+') then
      if WellFormedDigits(t[1..]) then
        var v: int := DigitsValue(t[1..]);
        Some(if t[0] == '-' then -v else v)
      else None
    else if WellFormedDigits(t) then Some(DigitsValue(t))
    else None
  }

  /** `int(a / b)` for an exact quotient: Python's `int()` truncates toward zero. */
  function TruncDiv(a: int, b: int): (q: int)
    requires b > 0
    ensures -b < a - q * b < b
    ensures a >= 0 ==> 0 <= a - q * b
    ensures a <= 0 ==> a - q * b <= 0
  {
    if a >= 0 then a / b else -((-a) / b)
  }

  lemma {:induction false} DigitsValueOfNat(n: nat)
    ensures DigitsValue(NatToString(n)) == n
    decreases n
  {
    var s := NatToString(n);
    if n >= 10 {
      var p := NatToString(n / 10);
      assert s == p + [DigitChar(n % 10)];
      assert s[..|s| - 1] == p;
      DigitsValueOfNat(n / 10);
    }
  }

  lemma NatStringUntouchedByStrip(s: string)
    requires |s| > 0 && !IsPySpace(s[0]) && !IsPySpace(s[|s| - 1])
    ensures Strip(s) == s
  {
  }

  /** A rendering of a natural number is plain digits, so `int()` accepts it. */
  lemma NatStringWellFormed(n: nat)
    ensures WellFormedDigits(NatToString(n))
  {
    var d := NatToString(n);
    assert IsDigit(d[0]) && IsDigit(d[|d| - 1]);
  }

  /** `int(str(n)) == n`: the rendering the rewrite emits is read back as the same number. */
  lemma ParseIntToString(n: int)
    ensures ParseInt(IntToString(n)) == Some(n)
  {
    var s := IntToString(n);
    var m: nat := if n < 0 then -n else n;
    var d := NatToString(m);
    DigitsValueOfNat(m);
    NatStringWellFormed(m);
    if n < 0 {
      assert s == "-" + d && s[1..] == d;
      assert !IsPySpace(s[|s| - 1]) by {
        assert s[|s| - 1] == d[|d| - 1];
      }
      NatStringUntouchedByStrip(s);
    } else {
      assert s == d && !(s[0] == '-' || s[0] == '+');
      NatStringUntouchedByStrip(s);
    }
  }

  /** The file separator U+001C is not white space to `int()`: a number it precedes is rejected. */
  lemma ParseIntRejectsSeparator(digits: string)
    ensures ParseInt("\U{1C}" + digits) == None
  {
    var s := "\U{1C}" + digits;
    assert StripLeft(s) == s;
    var t := Strip(s);
    assert |t| > 0 ==> t[0] == '\U{1C}';
  }

  /** The renderings of distinct numbers are distinct. */
  lemma IntToStringInjective(a: int, b: int)
    requires IntToString(a) == IntToString(b)
    ensures a == b
  {
    ParseIntToString(a);
    ParseIntToString(b);
  }
}
