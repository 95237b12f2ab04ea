/**
 * Character classes and string helpers with Python's meaning:
 * `str.strip()` / `str.strip(chars)` and `str(int)`.
 */
module Text {
  import opened Wrappers

  /** Python's `str.isspace()`: the characters removed by `str.strip()` with no argument. */
  predicate IsSpace(c: char) {
    || ('\t' <= c <= '\r')
    || ('\U{1C}' <= c <= '\U{1F}')
    || c == ' '
    || c == '\U{85}'
    || c == '\U{A0}'
    || c == '\U{1680}'
    || ('\U{2000}' <= c <= '\U{200A}')
    || c == '\U{2028}'
    || c == '\U{2029}'
    || c == '\U{202F}'
    || c == '\U{205F}'
    || c == '\U{3000}'
  }

  /** The characters removed by `strip("'\"")`. */
  predicate IsQuote(c: char) {
    c == '\'' || c == '"'
  }

  /** The two sets of characters the loader strips: whitespace, and the quote characters. */
  datatype CharClass = Whitespace | Quotes

  predicate InClass(c: char, cls: CharClass) {
    match cls
    case Whitespace => IsSpace(c)
    case Quotes => IsQuote(c)
  }

  /** Length of the longest prefix of `s` made of characters in class `cls`. */
  function LeadingRun(s: string, cls: CharClass): (n: nat)
    ensures n <= |s|
  {
    if s == [] || !InClass(s[0], cls) then 0 else 1 + LeadingRun(s[1..], cls)
  }

  /** Length of the longest suffix of `s` made of characters in class `cls`. */
  function TrailingRun(s: string, cls: CharClass): (n: nat)
    ensures n <= |s|
  {
    if s == [] || !InClass(s[|s| - 1], cls) then 0 else 1 + TrailingRun(s[..|s| - 1], cls)
  }

  /**
   * Python's `s.strip(chars)`: the part of `s` left after removing every
   * leading and every trailing character in class `cls`.
   */
  function Strip(s: string, cls: CharClass): string {
    var i := LeadingRun(s, cls);
    s[i..|s| - TrailingRun(s[i..], cls)]
  }

  /** Python's `s.strip()`. */
  function StripSpace(s: string): string {
    Strip(s, Whitespace)
  }

  lemma {:induction false} LeadingRunIsMaximal(s: string, cls: CharClass)
    ensures var n := LeadingRun(s, cls);
            && (forall k :: 0 <= k < n ==> InClass(s[k], cls))
            && (n < |s| ==> !InClass(s[n], cls))
  {
    if s != [] && InClass(s[0], cls) {
      LeadingRunIsMaximal(s[1..], cls);
    }
  }

  lemma {:induction false} TrailingRunIsMaximal(s: string, cls: CharClass)
    ensures var n := TrailingRun(s, cls);
            && (forall k :: |s| - n <= k < |s| ==> InClass(s[k], cls))
            && (n < |s| ==> !InClass(s[|s| - 1 - n], cls))
  {
    if s != [] && InClass(s[|s| - 1], cls) {
      TrailingRunIsMaximal(s[..|s| - 1], cls);
    }
  }

  /** The bounds `Strip` cuts at, and what the two runs it cuts off consist of. */
  lemma StripBounds(s: string, cls: CharClass) returns (i: nat, j: nat)
    ensures 0 <= i <= j <= |s| && Strip(s, cls) == s[i..j]
    ensures forall k :: 0 <= k < i ==> InClass(s[k], cls)
    ensures forall k :: j <= k < |s| ==> InClass(s[k], cls)
    ensures i < |s| ==> !InClass(s[i], cls)
    ensures i < j ==> !InClass(s[j - 1], cls)
  {
    i := LeadingRun(s, cls);
    var t := TrailingRun(s[i..], cls);
    j := |s| - t;
    LeadingRunIsMaximal(s, cls);
    TrailingRunIsMaximal(s[i..], cls);
    forall k | j <= k < |s| ensures InClass(s[k], cls) {
      assert s[k] == s[i..][k - i];
    }
    if i < j {
      assert s[j - 1] == s[i..][|s[i..]| - 1 - t];
    }
  }

  /**
   * `Strip` removes exactly the leading and trailing run of characters of the
   * class: what is left is a contiguous part of `s`, everything cut off on
   * either side is in the class, and what is left neither starts nor ends with
   * such a character (so it is empty only when every character was in the class).
   */
  lemma StripRemovesExactlyTheEnds(s: string, cls: CharClass)
    ensures var r := Strip(s, cls);
            exists i, j ::
              && 0 <= i <= j <= |s|
              && r == s[i..j]
              && (forall k :: 0 <= k < i ==> InClass(s[k], cls))
              && (forall k :: j <= k < |s| ==> InClass(s[k], cls))
    ensures var r := Strip(s, cls);
            r != [] ==> !InClass(r[0], cls) && !InClass(r[|r| - 1], cls)
    ensures Strip(s, cls) == [] <==> forall k :: 0 <= k < |s| ==> InClass(s[k], cls)
  {
    var i, j := StripBounds(s, cls);
    var r := Strip(s, cls);
    if r != [] {
      assert r[0] == s[i] && r[|r| - 1] == s[j - 1];
    }
    forall k | 0 <= k < |s| && !InClass(s[k], cls) ensures i <= k < j {
    }
  }

  /** Stripping twice removes nothing more. */
  lemma StripIdempotent(s: string, cls: CharClass)
    ensures Strip(Strip(s, cls), cls) == Strip(s, cls)
  {
    var r := Strip(s, cls);
    StripRemovesExactlyTheEnds(s, cls);
    if r != [] {
      assert LeadingRun(r, cls) == 0;
      assert TrailingRun(r, cls) == 0;
      assert r[0..|r|] == r;
    }
  }

  /** The decimal digit character for `d`. */
  function DigitChar(d: nat): (c: char)
    requires d < 10
    ensures '0' <= c <= '9'
  {
    (48 + d) as char
  }

  /** The value of a decimal digit character. */
  function DigitValue(c: char): (d: nat)
    requires '0' <= c <= '9'
    ensures d < 10
  {
    c as int - 48
  }

  predicate IsDigit(c: char) {
    '0' <= c <= '9'
  }

  /** Python's `str(n)` for a non-negative integer: its digits, no leading zero. */
  function NatToDecimal(n: nat): (s: string)
    ensures s != []
    ensures forall k :: 0 <= k < |s| ==> IsDigit(s[k])
    ensures s[0] == '0' ==> n == 0 && |s| == 1
    decreases n
  {
    if n < 10 then [DigitChar(n)] else NatToDecimal(n / 10) + [DigitChar(n % 10)]
  }

  /** Python's `str(n)` for any integer. */
  function DecimalString(n: int): (s: string)
    ensures s != []
    ensures n < 0 <==> s[0] == '-'
  {
    if n < 0 then "-" + NatToDecimal(-n) else NatToDecimal(n)
  }

  /** The number that a string of decimal digits denotes (a reference reading, independent of the printer). */
  function DigitsValue(s: string): nat
    requires AllDigits(s)
  {
    if s == [] then 0
    else
      assert IsDigit(s[|s| - 1]);
      10 * DigitsValue(s[..|s| - 1]) + DigitValue(s[|s| - 1])
  }

  /** Reads a decimal integer: an optional '-' followed by one or more digits. */
  function ParseDecimal(s: string): Option<int> {
    if s != [] && s[0] == '-' then
      (if |s| > 1 && AllDigits(s[1..]) then Some(0 - DigitsValue(s[1..]) as int) else None)
    else if s != [] && AllDigits(s) then Some(DigitsValue(s))
    else None
  }

  predicate AllDigits(s: string) {
    forall k :: 0 <= k < |s| ==> IsDigit(s[k])
  }



  lemma {:induction false} NatToDecimalValue(n: nat)
    ensures DigitsValue(NatToDecimal(n)) == n
    decreases n
  {
    if n >= 10 {
      var s := NatToDecimal(n);
      var p := NatToDecimal(n / 10);
      assert s == p + [DigitChar(n % 10)];
      assert s[..|s| - 1] == p;
      NatToDecimalValue(n / 10);
    }
  }

  /** `int(str(n)) == n`: the printed id reads back as the same number. */
  lemma DecimalRoundTrip(n: int)
    ensures ParseDecimal(DecimalString(n)) == Some(n)
  {
    var s := DecimalString(n);
    if n < 0 {
      var d := NatToDecimal(-n);
      assert s == "-" + d;
      assert s[1..] == d;
      assert AllDigits(d);
      NatToDecimalValue(-n);
    } else {
      var d := NatToDecimal(n);
      assert s == d && AllDigits(d) && d[0] != '-';
      NatToDecimalValue(n);
    }
  }

  /** Different ids print as different strings. */
  lemma DecimalStringInjective(m: int, n: int)
    requires DecimalString(m) == DecimalString(n)
    ensures m == n
  {
    DecimalRoundTrip(m);
    DecimalRoundTrip(n);
  }
}
