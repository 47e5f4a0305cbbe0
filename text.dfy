/** The pieces of Python's string handling that the package relies on:
    `str.strip()`, `sep.join(...)` and `int(text, base)`. */
module Text {
  import opened Base

  /** Python's `str.isspace()` for a single character: the characters of
      Unicode bidirectional class WS, B or S, or of category Zs. */
  predicate IsSpace(c: char) {
    var n := c as int;
    (9 <= n <= 13) || (28 <= n <= 32) || n == 0x85 || n == 0xA0 || n == 0x1680
    || (0x2000 <= n <= 0x200A) || n == 0x2028 || n == 0x2029 || n == 0x202F
    || n == 0x205F || n == 0x3000
  }

  /** How many whitespace characters `s` starts with. */
  function LeadingSpace(s: string): (n: nat)
    ensures n <= |s|
    ensures forall i :: 0 <= i < n ==> IsSpace(s[i])
    ensures n < |s| ==> !IsSpace(s[n])
  {
    if s != [] && IsSpace(s[0]) then
      var m := LeadingSpace(s[1..]);
      assert forall i :: 1 <= i <= m ==> s[i] == s[1..][i - 1];
      1 + m
    else 0
  }

  /** How many whitespace characters `s` ends with. */
  function TrailingSpace(s: string): (n: nat)
    ensures n <= |s|
    ensures forall i :: |s| - n <= i < |s| ==> IsSpace(s[i])
    ensures n < |s| ==> !IsSpace(s[|s| - n - 1])
  {
    if s != [] && IsSpace(s[|s| - 1]) then
      var m := TrailingSpace(s[..|s| - 1]);
      assert forall i :: 0 <= i < |s| - 1 ==> s[i] == s[..|s| - 1][i];
      1 + m
    else 0
  }

  /** `s.lstrip()`: drops the leading whitespace and nothing else. */
  function StripLeft(s: string): string {
    s[LeadingSpace(s)..]
  }

  /** `s.rstrip()`: drops the trailing whitespace and nothing else. */
  function StripRight(s: string): string {
    s[..|s| - TrailingSpace(s)]
  }

  /** `s.strip()`. */
  function Strip(s: string): string {
    StripRight(StripLeft(s))
  }

  /** Stripping keeps the slice of `s` that starts after its leading
      whitespace. */
  lemma StripIsSlice(s: string)
    ensures var i := LeadingSpace(s);
      i + |Strip(s)| <= |s| && Strip(s) == s[i..i + |Strip(s)|]
  {
    var i := LeadingSpace(s);
    var l := s[i..];
    var r := l[..|l| - TrailingSpace(l)];
    assert r == s[i..i + |r|];
  }

  /** What stripping drops after the slice it keeps is whitespace. */
  lemma StripDropsSpace(s: string)
    ensures forall k :: LeadingSpace(s) + |Strip(s)| <= k < |s| ==> IsSpace(s[k])
  {
    var i := LeadingSpace(s);
    var l := s[i..];
    var j := i + |l| - TrailingSpace(l);
    forall k | j <= k < |s| ensures IsSpace(s[k]) {
      assert s[k] == l[k - i];
    }
  }

  /** Neither end of a stripped string is whitespace. */
  lemma StripEnds(s: string)
    ensures Strip(s) == [] || (!IsSpace(Strip(s)[0]) && !IsSpace(Strip(s)[|Strip(s)| - 1]))
  {
    var i := LeadingSpace(s);
    var l := s[i..];
    var b := TrailingSpace(l);
    var r := l[..|l| - b];
    if r != [] {
      assert r[0] == l[0] == s[i];
      assert r[|r| - 1] == l[|l| - b - 1];
    }
  }

  /** A string with no whitespace at either end is its own stripped form. */
  lemma StripUnchanged(s: string)
    requires s == [] || (!IsSpace(s[0]) && !IsSpace(s[|s| - 1]))
    ensures Strip(s) == s
  {
    assert LeadingSpace(s) == 0;
    assert s[0..] == s;
    assert TrailingSpace(s) == 0;
  }

  /** Stripping twice is stripping once. */
  lemma StripIdempotent(s: string)
    ensures Strip(Strip(s)) == Strip(s)
  {
    StripEnds(s);
    StripUnchanged(Strip(s));
  }

  /** A text strips to nothing exactly when it is all whitespace. */
  lemma StripEmptyIff(s: string)
    ensures Strip(s) == "" <==> forall i :: 0 <= i < |s| ==> IsSpace(s[i])
  {
    if Strip(s) == "" {
      StripDropsSpace(s);
    } else {
      StripIsSlice(s);
      StripEnds(s);
      var i := LeadingSpace(s);
      assert Strip(s)[0] == s[i];
    }
  }

  /** `sep.join(xs)`. */
  function Join(sep: string, xs: seq<string>): (r: string)
    ensures |xs| == 1 ==> r == xs[0]
  {
    if xs == [] then ""
    else if |xs| == 1 then xs[0]
    else xs[0] + sep + Join(sep, xs[1..])
  }

  /** An ASCII capital letter as lower case; every other character as is. */
  function LowerAscii(c: char): char {
    if 'A' <= c <= 'Z' then (c as int + 32) as char else c
  }

  /** `a` equals the lower-case ASCII word `b` when letter case is ignored,
      as a regular expression compiled with `re.IGNORECASE` compares a word
      none of whose letters has a non-ASCII case variant (`k`, `s` and `i`
      have one). */
  predicate EqualsIgnoringCase(a: string, b: string) {
    |a| == |b| && forall i :: 0 <= i < |a| ==> LowerAscii(a[i]) == b[i]
  }

  // ---------------------------------------------------------------------------
  // Integer literals

  predicate IsDecimalDigit(c: char) { '0' <= c <= '9' }

  predicate IsHexDigit(c: char) {
    IsDecimalDigit(c) || ('a' <= c <= 'f') || ('A' <= c <= 'F')
  }

  /** A digit of the given base (10 or 16). */
  predicate IsDigit(c: char, base: int) {
    if base == 16 then IsHexDigit(c) else IsDecimalDigit(c)
  }

  /** A non-empty run of digits of the given base. */
  predicate AllDigits(s: string, base: int) {
    |s| > 0 && forall i :: 0 <= i < |s| ==> IsDigit(s[i], base)
  }

  function DigitOf(c: char): (d: nat)
    requires IsHexDigit(c)
    ensures d < 16
    ensures IsDecimalDigit(c) ==> d < 10
  {
    if IsDecimalDigit(c) then c as int - '0' as int
    else if 'a' <= c <= 'f' then c as int - 'a' as int + 10
    else c as int - 'A' as int + 10
  }

  /** The value of a run of digits, most significant first. */
  function DigitsValue(s: string, base: int): (v: nat)
    requires base == 10 || base == 16
    requires forall i :: 0 <= i < |s| ==> IsDigit(s[i], base)
    ensures v < Power(base, |s|)
  {
    if s == [] then 0
    else
      var last := s[|s| - 1];
      assert IsDigit(last, base);
      var d := DigitOf(last);
      var high := DigitsValue(s[..|s| - 1], base);
      assert d < base;
      assert high * base + d < Power(base, |s|) by {
        assert high + 1 <= Power(base, |s| - 1);
        assert (high + 1) * base <= Power(base, |s| - 1) * base;
      }
      high * base + d
  }

  function Power(b: nat, n: nat): nat {
    if n == 0 then 1 else b * Power(b, n - 1)
  }

  /** Python's `int(text, base)` for base 10 (`int(text)`) and base 16 on
      ASCII digits: surrounding whitespace is ignored, then an optional sign,
      then one or more digits. Python also accepts `_` between digits,
      non-ASCII decimal digits and, in base 16, a `0x` prefix; those forms
      are rejected here. */
  function ParseInt(s: string, base: int): (r: Option<int>)
    requires base == 10 || base == 16
    ensures r.Some? ==> AllDigits(Unsigned(Strip(s)), base)
    ensures r.Some? ==> r.value == Sign(Strip(s)) * DigitsValue(Unsigned(Strip(s)), base)
    ensures r.None? ==> !AllDigits(Unsigned(Strip(s)), base)
  {
    var t := Strip(s);
    var digits := Unsigned(t);
    if AllDigits(digits, base) then Some(Sign(t) * DigitsValue(digits, base)) else None
  }

  /** The text after an optional leading sign. */
  function Unsigned(t: string): string {
    if |t| > 0 && (t[0] == '+' || t[0] == '-') then t[1..] else t
  }

  function Sign(t: string): int {
    if |t| > 0 && t[0] == '-' then -1 else 1
  }

  /** A digit is neither whitespace nor a sign. */
  lemma DigitNotSpace(c: char, base: int)
    requires IsDigit(c, base)
    ensures !IsSpace(c) && c != '+' && c != '-'
  {
  }

  /** A bare run of digits parses to its value. */
  lemma ParseDigits(s: string, base: int)
    requires base == 10 || base == 16
    requires AllDigits(s, base)
    ensures ParseInt(s, base) == Some(DigitsValue(s, base))
  {
    DigitNotSpace(s[0], base);
    DigitNotSpace(s[|s| - 1], base);
    StripUnchanged(s);
    assert Unsigned(s) == s;
  }

  /** `int()` ignores the whitespace around a literal. */
  lemma ParseIntStripped(s: string, base: int)
    requires base == 10 || base == 16
    ensures ParseInt(s, base) == ParseInt(Strip(s), base)
  {
    StripIdempotent(s);
  }

  // ---------------------------------------------------------------------------
  // Writing integers, the inverse of ParseInt

  function DecimalChar(d: nat): char
    requires d < 10
  {
    ('0' as int + d) as char
  }

  function HexChar(d: nat): char
    requires d < 16
  {
    if d < 10 then DecimalChar(d) else ('A' as int + d - 10) as char
  }

  /** The decimal digits of `n`, without leading zeros. */
  function NatToDecimal(n: nat): (s: string)
    ensures forall i :: 0 <= i < |s| ==> IsDecimalDigit(s[i])
    ensures |s| > 0
  {
    if n < 10 then [DecimalChar(n)] else NatToDecimal(n / 10) + [DecimalChar(n % 10)]
  }

  /** `str(n)`. */
  function IntToDecimal(n: int): string {
    if n < 0 then "-" + NatToDecimal(-n) else NatToDecimal(n)
  }

  /** Two upper-case hex digits for a byte. */
  function HexByte(b: nat): (s: string)
    requires b < 256
    ensures |s| == 2 && IsHexDigit(s[0]) && IsHexDigit(s[1])
  {
    [HexChar(b / 16), HexChar(b % 16)]
  }

  lemma {:induction false} DecimalValue(n: nat)
    ensures DigitsValue(NatToDecimal(n), 10) == n
  {
    if n >= 10 {
      var s := NatToDecimal(n);
      assert s[..|s| - 1] == NatToDecimal(n / 10);
      DecimalValue(n / 10);
    }
  }

  /** A minus sign in front of a non-empty text with no whitespace at its
      end. */
  lemma SignedText(d: string)
    requires d != []
    ensures var s := "-" + d;
      && Unsigned(s) == d && Sign(s) == -1 && !IsSpace(s[0]) && s[|s| - 1] == d[|d| - 1]
  {
    var s := "-" + d;
    assert s[1..] == d;
  }

  /** `int(str(n)) == n`. */
  lemma ParseDecimal(n: int)
    ensures ParseInt(IntToDecimal(n), 10) == Some(n)
  {
    var s := IntToDecimal(n);
    if n < 0 {
      var d := NatToDecimal(-n);
      assert s == "-" + d;
      SignedText(d);
      DigitNotSpace(d[|d| - 1], 10);
      StripUnchanged(s);
      DecimalValue(-n);
    } else {
      ParseDigits(s, 10);
      DecimalValue(n);
    }
  }

  /** Two hex digits parse to the byte they spell. */
  lemma ParseTwoHexDigits(pair: string)
    requires |pair| == 2 && IsHexDigit(pair[0]) && IsHexDigit(pair[1])
    ensures ParseInt(pair, 16) == Some(16 * DigitOf(pair[0]) + DigitOf(pair[1]))
  {
    assert AllDigits(pair, 16);
    ParseDigits(pair, 16);
    assert pair[..1] == [pair[0]];
  }

  /** `int(h, 16) == b` for the two hex digits `h` of a byte. */
  lemma ParseHexByte(b: nat)
    requires b < 256
    ensures ParseInt(HexByte(b), 16) == Some(b)
  {
    var s := HexByte(b);
    StripUnchanged(s);
    assert Unsigned(s) == s;
    assert s[..1] == [HexChar(b / 16)];
    assert DigitOf(s[0]) == b / 16 && DigitOf(s[1]) == b % 16;
    assert DigitsValue(s[..1], 16) == b / 16;
  }
}
