/**
 * The parts of JavaScript's string built-ins the reader depends on:
 * the white-space set of `String.prototype.trim` and `parseInt`, `trim` itself,
 * `parseInt` without a radix, and the decimal rendering of an integer in a template string.
 */
module JsText {
  import opened Wrappers

  /** WhiteSpace and LineTerminator code points of ECMAScript (section 12.2 and 12.3 of ECMA-262). */
  predicate IsJsSpace(c: char) {
    c == '\t' || c == '\n' || c == '\U{000B}' || c == '\U{000C}' || c == '\r' || c == ' '
    || c == '\U{00A0}' || c == '\U{1680}' || ('\U{2000}' <= c <= '\U{200A}')
    || c == '\U{2028}' || c == '\U{2029}' || c == '\U{202F}' || c == '\U{205F}'
    || c == '\U{3000}' || c == '\U{FEFF}'
  }

  /** Every character of s is white space (the empty string included). */
  predicate IsBlank(s: string) {
    forall i :: 0 <= i < |s| ==> IsJsSpace(s[i])
  }

  /** s without its leading white space. */
  function TrimStart(s: string): (r: string)
    ensures |r| <= |s|
  {
    if s != [] && IsJsSpace(s[0]) then TrimStart(s[1..]) else s
  }

  /** TrimStart removes a blank prefix and leaves a string that does not start with white space. */
  lemma {:induction false} TrimStartSplits(s: string)
    ensures |TrimStart(s)| <= |s| && TrimStart(s) == s[|s| - |TrimStart(s)|..]
    ensures TrimStart(s) == [] || !IsJsSpace(TrimStart(s)[0])
    ensures IsBlank(s[..|s| - |TrimStart(s)|])
  {
    if s != [] && IsJsSpace(s[0]) {
      TrimStartSplits(s[1..]);
      var r := TrimStart(s);
      assert s[..|s| - |r|] == [s[0]] + s[1..][..|s| - 1 - |r|];
    }
  }

  /** s without its trailing white space. */
  function TrimEnd(s: string): (r: string)
    ensures |r| <= |s| && r == s[..|r|]
    ensures r == [] || !IsJsSpace(r[|r| - 1])
    ensures IsBlank(s[|r|..])
  {
    if s != [] && IsJsSpace(s[|s| - 1]) then TrimEnd(s[..|s| - 1]) else s
  }

  /**
   * `String.prototype.trim`: s is white space, then the result, then white space, and the
   * result neither starts nor ends with white space.
   */
  function Trim(s: string): (r: string)
    ensures var k := |s| - |TrimStart(s)|;
      k + |r| <= |s| && s[k..k + |r|] == r && IsBlank(s[..k]) && IsBlank(s[k + |r|..])
    ensures r == [] || (!IsJsSpace(r[0]) && !IsJsSpace(r[|r| - 1]))
  {
    TrimStartSplits(s);
    var t := TrimStart(s);
    var r := TrimEnd(t);
    var k := |s| - |t|;
    assert s[k..k + |r|] == r && s[k + |r|..] == t[|r|..];
    r
  }

  /** `s.trim() === ""` holds exactly for the blank strings. */
  lemma TrimEmptyIffBlank(s: string)
    ensures Trim(s) == "" <==> IsBlank(s)
  {
    TrimStartSplits(s);
    var t := TrimStart(s);
    if IsBlank(s) {
      assert t == [];
    }
    if Trim(s) == "" {
      assert t[|TrimEnd(t)|..] == t;
      assert t == [];
      assert s[..|s| - |t|] == s;
    }
  }

  predicate IsDecimalDigit(c: char) {
    '0' <= c <= '9'
  }

  predicate IsHexDigit(c: char) {
    IsDecimalDigit(c) || 'a' <= c <= 'f' || 'A' <= c <= 'F'
  }

  predicate IsDigitOf(c: char, hex: bool) {
    if hex then IsHexDigit(c) else IsDecimalDigit(c)
  }

  function DigitValue(c: char): (v: nat)
    requires IsHexDigit(c)
    ensures v < 16
    ensures IsDecimalDigit(c) ==> v < 10
  {
    if IsDecimalDigit(c) then c as int - '0' as int
    else if 'a' <= c <= 'f' then c as int - 'a' as int + 10
    else c as int - 'A' as int + 10
  }

  /** The longest prefix of s made of digits of the given radix. */
  function DigitPrefix(s: string, hex: bool): (r: string)
    ensures |r| <= |s| && r == s[..|r|]
    ensures forall i :: 0 <= i < |r| ==> IsDigitOf(r[i], hex)
    ensures |r| == |s| || !IsDigitOf(s[|r|], hex)
  {
    if s != [] && IsDigitOf(s[0], hex) then [s[0]] + DigitPrefix(s[1..], hex) else []
  }

  /** The value of a digit string read in base 16 (hex) or 10, most significant digit first. */
  function DigitsValue(ds: string, hex: bool): nat
    requires forall i :: 0 <= i < |ds| ==> IsDigitOf(ds[i], hex)
  {
    if ds == [] then 0
    else
      var last := ds[|ds| - 1];
      assert IsDigitOf(last, hex);
      var high := DigitsValue(ds[..|ds| - 1], hex);
      (if hex then high * 16 else high * 10) + DigitValue(last)
  }

  /**
   * `parseInt(s)` with the radix left out (section 19.2.5 of ECMA-262): leading white space
   * is skipped, one sign is taken, a "0x"/"0X" prefix selects base 16, and the longest run of
   * digits that follows is read; no digits at all gives NaN, here None.
   */
  function ParseInt(s: string): (r: Option<int>)
    // NaN unless a digit follows the leading white space and the sign
    ensures var u := Unsigned(TrimStart(s));
      r.Some? ==> u != [] && IsDecimalDigit(u[0])
    // a decimal digit there always gives a number, unless it starts a "0x" prefix
    ensures var u := Unsigned(TrimStart(s));
      u != [] && IsDecimalDigit(u[0]) && !HexPrefixed(u) ==> r.Some?
  {
    ParseSigned(TrimStart(s))
  }

  /** The text after one leading sign, if there is one. */
  function Unsigned(t: string): string {
    if t != [] && (t[0] == '-' || t[0] == '+') then t[1..] else t
  }

  predicate HexPrefixed(u: string) {
    |u| >= 2 && u[0] == '0' && (u[1] == 'x' || u[1] == 'X')
  }

  function ParseSigned(t: string): Option<int> {
    if t != [] && (t[0] == '-' || t[0] == '+') then
      match ParseUnsigned(t[1..])
      case None => None
      case Some(v) => Some(if t[0] == '-' then -(v as int) else v)
    else
      match ParseUnsigned(t)
      case None => None
      case Some(v) => Some(v)
  }

  function ParseUnsigned(u: string): Option<nat> {
    var hex := HexPrefixed(u);
    var digits := DigitPrefix(if hex then u[2..] else u, hex);
    if digits == [] then None else Some(DigitsValue(digits, hex))
  }

  predicate IsDecimalString(s: string) {
    |s| > 0 && forall i :: 0 <= i < |s| ==> IsDecimalDigit(s[i])
  }

  /** On a string of decimal digits parseInt returns the number they spell. */
  lemma ParseIntOfDigits(ds: string)
    requires IsDecimalString(ds)
    ensures ParseInt(ds) == Some(DigitsValue(ds, false))
  {
    NoSpaceBeforeDigits(ds);
    NoSignBeforeDigits(ds);
    ParseUnsignedOfDigits(ds);
  }

  lemma NoSpaceBeforeDigits(ds: string)
    requires IsDecimalString(ds)
    ensures TrimStart(ds) == ds
  {
    assert IsDecimalDigit(ds[0]);
  }

  lemma NoSignBeforeDigits(ds: string)
    requires IsDecimalString(ds)
    ensures ParseSigned(ds) == ParseUnsigned(ds)
  {
    assert IsDecimalDigit(ds[0]);
  }

  lemma ParseUnsignedOfDigits(ds: string)
    requires IsDecimalString(ds)
    ensures ParseUnsigned(ds) == Some(DigitsValue(ds, false))
  {
    assert !HexPrefixed(ds) by {
      if |ds| >= 2 { assert IsDecimalDigit(ds[1]); }
    }
    DigitPrefixAll(ds, false);
  }

  /** A string made only of digits is its own longest digit prefix. */
  lemma DigitPrefixAll(ds: string, hex: bool)
    requires forall i :: 0 <= i < |ds| ==> IsDigitOf(ds[i], hex)
    ensures DigitPrefix(ds, hex) == ds
  {
    var r := DigitPrefix(ds, hex);
  }

  function DecimalDigit(d: nat): (c: char)
    requires d < 10
    ensures IsDecimalDigit(c) && DigitValue(c) == d
  {
    ('0' as int + d) as char
  }

  /** The decimal text of n, as `${n}` renders a non-negative integer. */
  function Decimal(n: nat): (r: string)
    ensures IsDecimalString(r)
  {
    if n < 10 then [DecimalDigit(n)] else Decimal(n / 10) + [DecimalDigit(n % 10)]
  }

  /** Reading back the decimal text of n gives n. */
  lemma {:induction false} DecimalValue(n: nat)
    ensures DigitsValue(Decimal(n), false) == n
  {
    var r := Decimal(n);
    if n >= 10 {
      DecimalValue(n / 10);
      assert r[..|r| - 1] == Decimal(n / 10);
    } else {
      assert r[..0] == [];
    }
  }

  /** parseInt inverts the decimal rendering. */
  lemma ParseIntOfDecimal(n: nat)
    ensures ParseInt(Decimal(n)) == Some(n)
  {
    ParseIntOfDigits(Decimal(n));
    DecimalValue(n);
  }

  function Pow10(k: nat): (p: nat)
    ensures p >= 1
  {
    if k == 0 then 1 else 10 * Pow10(k - 1)
  }

  /** A number of at least 10^k has more than k decimal digits. */
  lemma {:induction false} DecimalLength(n: nat, k: nat)
    requires n >= Pow10(k)
    ensures |Decimal(n)| > k
  {
    if k > 0 {
      DecimalLength(n / 10, k - 1);
    }
  }
}
