/**
 * String helpers the JavaScript runtime provides to the player: ASCII case
 * folding, case-insensitive search, `trim`, `padStart`, decimal rendering of
 * numbers (`toString`) and the decimal part of `parseInt`.
 */
module Text {
  import opened Wrappers

  // ---------------------------------------------------------------------------
  // Case folding
  // ---------------------------------------------------------------------------

  predicate IsAsciiUpper(c: char) { 'A' <= c <= 'Z' }

  predicate IsAscii(c: char) { c as int < 128 }

  /** `toLowerCase` restricted to ASCII letters; every other character is kept. */
  function LowerChar(c: char): char {
    if IsAsciiUpper(c) then (c as int + 32) as char else c
  }

  function Lower(s: string): (r: string)
    ensures |r| == |s|
    ensures forall i :: 0 <= i < |s| ==> r[i] == LowerChar(s[i])
  {
    seq(|s|, i requires 0 <= i < |s| => LowerChar(s[i]))
  }

  /** Equality after ASCII lower-casing, the `i` flag of a non-Unicode regular expression. */
  predicate SameIgnoringCase(a: string, b: string) {
    Lower(a) == Lower(b)
  }

  /** `String.prototype.startsWith`. */
  predicate StartsWith(s: string, prefix: string) {
    |prefix| <= |s| && s[..|prefix|] == prefix
  }

  /** A concatenation starts with its first part and continues with its second. */
  lemma StartsWithConcat(a: string, b: string)
    ensures StartsWith(a + b, a) && (a + b)[|a|..] == b
  {
    assert (a + b)[..|a|] == a;
  }

  /** `q` occurs, ignoring ASCII case, in `text` starting at index `i`. */
  predicate MatchesAt(text: string, q: string, i: int) {
    0 <= i && i + |q| <= |text| && SameIgnoringCase(text[i..i + |q|], q)
  }

  /** Some occurrence of `q`, ignoring case, lies entirely inside `text`. */
  predicate ContainsIgnoringCase(text: string, q: string) {
    exists i :: 0 <= i <= |text| && MatchesAt(text, q, i)
  }

  /** The leftmost occurrence of `q` in `text` at or after `from`, ignoring case. */
  function FindFrom(text: string, q: string, from: nat): (r: Option<nat>)
    requires from <= |text|
    ensures r.Some? ==> from <= r.value && MatchesAt(text, q, r.value)
    ensures r.Some? ==> forall j :: from <= j < r.value ==> !MatchesAt(text, q, j)
    ensures r.None? ==> forall j :: from <= j <= |text| ==> !MatchesAt(text, q, j)
    decreases |text| - from
  {
    if MatchesAt(text, q, from) then Some(from)
    else if from == |text| then None
    else FindFrom(text, q, from + 1)
  }

  // ---------------------------------------------------------------------------
  // Whitespace and trimming
  // ---------------------------------------------------------------------------

  /** ECMAScript WhiteSpace and LineTerminator code points, as removed by `trim`. */
  predicate IsJsWhitespace(c: char) {
    || c == '\t' || c == '\n' || c == '\U{B}' || c == '\U{C}' || c == '\r'
    || c == ' ' || c == '\U{A0}' || c == '\U{1680}'
    || ('\U{2000}' <= c <= '\U{200A}')
    || c == '\U{2028}' || c == '\U{2029}' || c == '\U{202F}' || c == '\U{205F}'
    || c == '\U{3000}' || c == '\U{FEFF}'
  }

  function TrimStart(s: string): (r: string)
    ensures |r| <= |s| && r == s[|s| - |r|..]
    ensures forall i :: 0 <= i < |s| - |r| ==> IsJsWhitespace(s[i])
    ensures |r| > 0 ==> !IsJsWhitespace(r[0])
  {
    if |s| > 0 && IsJsWhitespace(s[0]) then TrimStart(s[1..]) else s
  }

  function TrimEnd(s: string): (r: string)
    ensures |r| <= |s| && r == s[..|r|]
    ensures forall i :: |r| <= i < |s| ==> IsJsWhitespace(s[i])
    ensures |r| > 0 ==> !IsJsWhitespace(r[|r| - 1])
  {
    if |s| > 0 && IsJsWhitespace(s[|s| - 1]) then TrimEnd(s[..|s| - 1]) else s
  }

  /**
   * `String.prototype.trim`: the slice of `s` left after the leading and
   * trailing whitespace, starting where `TrimStart` stops skipping.
   */
  function Trim(s: string): (r: string)
    ensures |r| <= |s|
    ensures |r| > 0 ==> !IsJsWhitespace(r[0]) && !IsJsWhitespace(r[|r| - 1])
    ensures var lead := |s| - |TrimStart(s)|; lead + |r| <= |s| && r == s[lead..lead + |r|]
    ensures forall i :: 0 <= i < |s| - |TrimStart(s)| ==> IsJsWhitespace(s[i])
    ensures forall i :: |s| - |TrimStart(s)| + |r| <= i < |s| ==> IsJsWhitespace(s[i])
  {
    var t := TrimStart(s);
    var r := TrimEnd(t);
    TrimIsSlice(s, t, r);
    r
  }

  /** A prefix of a suffix is a slice, and what follows the prefix in the suffix follows it in the whole. */
  lemma TrimIsSlice(s: string, t: string, r: string)
    requires |t| <= |s| && t == s[|s| - |t|..]
    requires |r| <= |t| && r == t[..|r|]
    requires forall i :: |r| <= i < |t| ==> IsJsWhitespace(t[i])
    ensures r == s[|s| - |t|..|s| - |t| + |r|]
    ensures forall i :: |s| - |t| + |r| <= i < |s| ==> IsJsWhitespace(s[i])
  {
    var lead := |s| - |t|;
    forall i | lead + |r| <= i < |s|
      ensures IsJsWhitespace(s[i])
    {
      assert s[i] == t[i - lead];
    }
  }

  predicate AllWhitespace(s: string) {
    forall i :: 0 <= i < |s| ==> IsJsWhitespace(s[i])
  }

  /** A string trims to the empty string exactly when it is all whitespace. */
  lemma TrimEmptyIffAllWhitespace(s: string)
    ensures Trim(s) == "" <==> AllWhitespace(s)
  {
    var t := TrimStart(s);
    if |t| > 0 {
      assert t[0] == s[|s| - |t|];
    }
  }

  /** `padStart(width, pad)` with a one-character pad. */
  function PadStart(s: string, width: nat, pad: char): (r: string)
    ensures |r| == if |s| >= width then |s| else width
    ensures r[|r| - |s|..] == s
    ensures forall i :: 0 <= i < |r| - |s| ==> r[i] == pad
  {
    if |s| >= width then s else seq(width - |s|, _ => pad) + s
  }

  // ---------------------------------------------------------------------------
  // Decimal numbers
  // ---------------------------------------------------------------------------

  predicate IsDigit(c: char) { '0' <= c <= '9' }

  predicate AllDigits(s: string) {
    forall i :: 0 <= i < |s| ==> IsDigit(s[i])
  }

  function DigitChar(d: nat): (c: char)
    requires d < 10
    ensures IsDigit(c) && c as int - '0' as int == d
  {
    (d + '0' as int) as char
  }

  function DigitValue(c: char): nat
    requires IsDigit(c)
  {
    c as int - '0' as int
  }

  /** The numeric value of a string of decimal digits. */
  function DigitsValue(s: string): nat
    requires AllDigits(s)
  {
    if |s| == 0 then 0 else DigitsValue(s[..|s| - 1]) * 10 + DigitValue(s[|s| - 1])
  }

  /** `n.toString()` for a non-negative integer: canonical decimal, no leading zero. */
  function NatToString(n: nat): (r: string)
    ensures |r| >= 1 && AllDigits(r)
    ensures |r| > 1 ==> r[0] != '0'
    ensures n < 10 <==> |r| == 1
  {
    if n < 10 then [DigitChar(n)] else NatToString(n / 10) + [DigitChar(n % 10)]
  }

  /** `n.toString()` for any integer. */
  function IntToString(n: int): (r: string)
    ensures |r| >= 1
    ensures n < 0 <==> r[0] == '-'
  {
    if n < 0 then "-" + NatToString(-n) else NatToString(n)
  }

  /** Reading back a rendered natural number yields that number. */
  lemma {:induction false} NatToStringRoundTrip(n: nat)
    ensures DigitsValue(NatToString(n)) == n
  {
    if n >= 10 {
      NatToStringRoundTrip(n / 10);
      var s := NatToString(n);
      assert s[..|s| - 1] == NatToString(n / 10);
    }
  }

  /** Distinct numbers render to distinct strings. */
  lemma NatToStringInjective(a: nat, b: nat)
    requires NatToString(a) == NatToString(b)
    ensures a == b
  {
    NatToStringRoundTrip(a);
    NatToStringRoundTrip(b);
  }

  /** The longest prefix of `s` made of decimal digits. */
  function LeadingDigits(s: string): (r: string)
    ensures AllDigits(r) && |r| <= |s| && r == s[..|r|]
    ensures |r| < |s| ==> !IsDigit(s[|r|])
  {
    if |s| > 0 && IsDigit(s[0]) then [s[0]] + LeadingDigits(s[1..]) else ""
  }

  /**
   * `parseInt(s)` with the default radix on a decimal numeral: leading
   * whitespace, an optional sign, then the longest run of digits; `None` is
   * `NaN`, the result when no digit follows.
   */
  function ParseInt(s: string): (r: Option<int>)
    ensures (forall i :: 0 <= i < |s| ==> !IsDigit(s[i])) ==> r.None?
    ensures r.Some? && r.value < 0 ==> '-' in s
    ensures |s| > 0 && AllDigits(s) ==> r == Some(DigitsValue(s))
  {
    var t := TrimStart(s);
    var negative := |t| > 0 && t[0] == '-';
    var body := if |t| > 0 && (t[0] == '-' || t[0] == '+') then t[1..] else t;
    var digits := LeadingDigits(body);
    var value: int := DigitsValue(digits);
    ParseIntFacts(s, t, body, digits);
    if |digits| == 0 then None
    else if negative then Some(-value)
    else Some(value)
  }

  lemma ParseIntFacts(s: string, t: string, body: string, digits: string)
    requires t == TrimStart(s)
    requires body == if |t| > 0 && (t[0] == '-' || t[0] == '+') then t[1..] else t
    requires digits == LeadingDigits(body)
    ensures |digits| > 0 ==> exists i :: 0 <= i < |s| && IsDigit(s[i])
    ensures |digits| > 0 && |t| > 0 && t[0] == '-' ==> '-' in s
    ensures |s| > 0 && AllDigits(s) ==> digits == s && !(|t| > 0 && t[0] == '-')
  {
    if |digits| > 0 {
      FirstDigitInString(s, t, body, digits);
    }
    if |t| > 0 {
      assert t[0] == s[|s| - |t|];
    }
    if |s| > 0 && AllDigits(s) {
      NumeralParsesWhole(s);
    }
  }

  lemma FirstDigitInString(s: string, t: string, body: string, digits: string)
    requires t == TrimStart(s)
    requires body == if |t| > 0 && (t[0] == '-' || t[0] == '+') then t[1..] else t
    requires digits == LeadingDigits(body) && |digits| > 0
    ensures IsDigit(s[|s| - |body|])
  {
    assert body == s[|s| - |body|..];
    assert s[|s| - |body|] == digits[0];
  }

  lemma NumeralParsesWhole(s: string)
    requires |s| > 0 && AllDigits(s)
    ensures TrimStart(s) == s && s[0] != '-' && s[0] != '+' && LeadingDigits(s) == s
  {
    assert !IsJsWhitespace(s[0]);
    LeadingDigitsOfDigits(s);
  }

  lemma LeadingDigitsOfDigits(s: string)
    requires AllDigits(s)
    ensures LeadingDigits(s) == s
  {
    if |s| > 0 {
      LeadingDigitsOfDigits(s[1..]);
    }
  }

  /** Digits followed by something that is not a digit: the digits are the leading run. */
  lemma {:induction false} LeadingDigitsStopAt(d: string, rest: string)
    requires AllDigits(d) && (|rest| == 0 || !IsDigit(rest[0]))
    ensures LeadingDigits(d + rest) == d
  {
    if |d| > 0 {
      assert (d + rest)[1..] == d[1..] + rest;
      LeadingDigitsStopAt(d[1..], rest);
    }
  }

  /**
   * `parseInt` reads the numeral at the front and ignores whatever follows
   * the last digit: `parseInt("12abc")` is 12 and `parseInt("3.7")` is 3.
   */
  lemma ParseIntReadsLeadingNumeral(n: int, rest: string)
    requires |rest| == 0 || !IsDigit(rest[0])
    ensures ParseInt(IntToString(n) + rest) == Some(n)
  {
    var m: nat := if n < 0 then -n else n;
    var digits := NatToString(m);
    var s := IntToString(n) + rest;
    assert !IsJsWhitespace(s[0]);
    assert TrimStart(s) == s;
    if n < 0 {
      assert s[1..] == digits + rest;
    } else {
      assert s == digits + rest;
      assert s[0] != '+' && s[0] != '-';
    }
    LeadingDigitsStopAt(digits, rest);
    NatToStringRoundTrip(m);
  }

  /** `parseInt(n.toString()) == n`: the rendered form parses back to `n`. */
  lemma ParseIntRoundTrip(n: int)
    ensures ParseInt(IntToString(n)) == Some(n)
  {
    ParseIntReadsLeadingNumeral(n, "");
    assert IntToString(n) + "" == IntToString(n);
  }

  /**
   * `parseInt` is `NaN` when the first character after the leading
   * whitespace, or after a sign there, is not a digit: `parseInt("abc1")`
   * and `parseInt("-x")` are `NaN` whatever digits come later.
   */
  lemma ParseIntNeedsLeadingDigit(s: string, k: nat)
    requires k < |s| && !IsJsWhitespace(s[k])
    requires forall i :: 0 <= i < k ==> IsJsWhitespace(s[i])
    requires !IsDigit(s[k])
    requires s[k] == '-' || s[k] == '+' ==> k + 1 == |s| || !IsDigit(s[k + 1])
    ensures ParseInt(s) == None
  {
    var t := TrimStart(s);
    TrimStartStopsAt(s, k);
    assert t[0] == s[k];
    if s[k] == '-' || s[k] == '+' {
      assert |t| == 1 || t[1] == s[k + 1];
    }
  }

  /** Leading whitespace ends at the first character that is not whitespace. */
  lemma TrimStartStopsAt(s: string, k: nat)
    requires k < |s| && !IsJsWhitespace(s[k])
    requires forall i :: 0 <= i < k ==> IsJsWhitespace(s[i])
    ensures TrimStart(s) == s[k..]
  {
    var t := TrimStart(s);
    assert |s| - |t| <= k;
    assert |t| > 0 && t[0] == s[|s| - |t|];
  }

  /** `parseInt("12abc")` stores 12. */
  lemma ParseIntIgnoresTrailingLetters()
    ensures ParseInt("12abc") == Some(12)
  {
    assert "12abc" == IntToString(12) + "abc";
    ParseIntReadsLeadingNumeral(12, "abc");
  }

  /** `parseInt("3.7")` stores 3. */
  lemma ParseIntTruncatesDecimals()
    ensures ParseInt("3.7") == Some(3)
  {
    assert "3.7" == IntToString(3) + ".7";
    ParseIntReadsLeadingNumeral(3, ".7");
  }

  /** `parseInt("1_000")` stores 1: there is no numeric-separator syntax. */
  lemma ParseIntStopsAtSeparator()
    ensures ParseInt("1_000") == Some(1)
  {
    assert "1_000" == IntToString(1) + "_000";
    ParseIntReadsLeadingNumeral(1, "_000");
  }

  /** `parseInt("abc1")` is `NaN`. */
  lemma ParseIntRefusesLeadingLetters()
    ensures ParseInt("abc1") == None
  {
    ParseIntNeedsLeadingDigit("abc1", 0);
  }
}
