/**
  The two Python built-ins on text that the downloader leans on:
  `str.strip()` with no argument, and `str(n)` for a non-negative `int`
  (the digits that `f"{n:02d}"` pads).
 */
module Text {

  /**
    The code points for which Python 3's `str.isspace()` holds, which is the
    set `str.strip()` removes when it is given no argument.
   */
  predicate IsWhitespace(c: char)
  {
    || ('\t' <= c <= '\r')                       // TAB, LF, VT, FF, CR
    || ('\U{1C}' <= c <= '\U{1F}')               // FS, GS, RS, US
    || c == ' ' || c == '\U{85}' || c == '\U{A0}'
    || c == '\U{1680}'
    || ('\U{2000}' <= c <= '\U{200A}')
    || c == '\U{2028}' || c == '\U{2029}' || c == '\U{202F}'
    || c == '\U{205F}' || c == '\U{3000}'
  }

  /** Neither the first nor the last character is whitespace. */
  predicate IsTrimmed(s: string)
  {
    s == [] || (!IsWhitespace(s[0]) && !IsWhitespace(s[|s| - 1]))
  }

  /**
    `s.strip()`: removes whitespace from the front while there is some, then
    from the back; what is left neither starts nor ends with whitespace.
   */
  function Strip(s: string): (r: string)
    ensures IsTrimmed(r) && |r| <= |s|
  {
    if s != [] && IsWhitespace(s[0]) then Strip(s[1..])
    else if s != [] && IsWhitespace(s[|s| - 1]) then Strip(s[..|s| - 1])
    else s
  }

  /** How many whitespace characters `s` starts with. */
  function LeadingWhitespace(s: string): (n: nat)
    ensures n <= |s|
  {
    if s != [] && IsWhitespace(s[0]) then 1 + LeadingWhitespace(s[1..]) else 0
  }

  /**
    What `Strip` removes is whitespace only: the result is the slice of `s`
    that follows its leading whitespace, and everything after that slice is
    whitespace too.
   */
  lemma {:induction false} StripSlice(s: string)
    ensures var lo, r := LeadingWhitespace(s), Strip(s);
              && lo + |r| <= |s| && r == s[lo..lo + |r|]
              && (forall i :: 0 <= i < lo ==> IsWhitespace(s[i]))
              && (forall i :: lo + |r| <= i < |s| ==> IsWhitespace(s[i]))
  {
    if s != [] && IsWhitespace(s[0]) {
      StripSlice(s[1..]);
    } else if s != [] && IsWhitespace(s[|s| - 1]) {
      var init := s[..|s| - 1];
      StripSlice(init);
      assert LeadingWhitespace(init) == 0;
    }
  }

  /** A line strips to nothing exactly when it is whitespace only. */
  lemma {:induction false} StripEmpty(s: string)
    ensures Strip(s) == [] <==> forall i :: 0 <= i < |s| ==> IsWhitespace(s[i])
  {
    if s != [] && IsWhitespace(s[0]) {
      StripEmpty(s[1..]);
      if Strip(s) == [] {
        assert forall i :: 1 <= i < |s| ==> s[i] == s[1..][i - 1];
      }
    } else if s != [] && IsWhitespace(s[|s| - 1]) {
      StripEmpty(s[..|s| - 1]);
    }
  }

  predicate IsDigit(c: char)
  {
    '0' <= c <= '9'
  }

  predicate AllDigits(s: string)
  {
    forall i :: 0 <= i < |s| ==> IsDigit(s[i])
  }

  function DigitChar(d: nat): (c: char)
    requires d < 10
    ensures IsDigit(c) && c as int - '0' as int == d
  {
    (d + '0' as int) as char
  }

  /**
    `str(n)` for `n >= 0`: decimal digits, most significant first, with no
    leading zero except for `n == 0` itself.
   */
  function Digits(n: nat): (r: string)
    ensures |r| >= 1 && AllDigits(r)
    ensures |r| > 1 ==> r[0] != '0'
    ensures n < 10 <==> |r| == 1
    ensures n >= 100 ==> |r| >= 3
  {
    if n < 10 then [DigitChar(n)] else Digits(n / 10) + [DigitChar(n % 10)]
  }

  /** The number a string of decimal digits denotes (the inverse of `Digits`). */
  function DecimalValue(s: string): nat
    requires AllDigits(s)
  {
    if s == [] then 0
    else 10 * DecimalValue(s[..|s| - 1]) + (s[|s| - 1] as int - '0' as int)
  }

  /** Reading back `str(n)` gives `n`. */
  lemma {:induction false} DecimalRoundTrip(n: nat)
    ensures DecimalValue(Digits(n)) == n
  {
    if n >= 10 {
      DecimalRoundTrip(n / 10);
      var d := Digits(n);
      assert d[..|d| - 1] == Digits(n / 10);
    }
  }

  /** A leading zero does not change the value of a digit string. */
  lemma {:induction false} LeadingZero(s: string)
    requires AllDigits(s)
    ensures AllDigits("0" + s) && DecimalValue("0" + s) == DecimalValue(s)
  {
    if s != [] {
      var t := "0" + s;
      assert t[..|t| - 1] == "0" + s[..|s| - 1];
      LeadingZero(s[..|s| - 1]);
    }
  }
}
