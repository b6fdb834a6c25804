/**
 * The standard-library string primitives the tool relies on: character classes of
 * std::regex (ECMAScript grammar, classic "C" locale), std::tolower, std::from_chars
 * for a base-10 int, and std::string::find / rfind.
 */
module Text {
  import opened Wrappers

  predicate IsDigit(c: char) { '0' <= c <= '9' }

  predicate IsAsciiUpper(c: char) { 'A' <= c <= 'Z' }

  predicate IsAsciiLetter(c: char) { IsAsciiUpper(c) || 'a' <= c <= 'z' }

  /** `\w`: the characters on one side of a `\b` word boundary. */
  predicate IsWordChar(c: char) { IsDigit(c) || IsAsciiLetter(c) || c == '_' }

  /** `\s`, i.e. isspace in the "C" locale. */
  predicate IsSpace(c: char) {
    c == ' ' || c == '\t' || c == '\n' || c == '\U{000B}' || c == '\U{000C}' || c == '\r'
  }

  /** The line terminators that an ECMAScript `.` does not match and that fit in a char. */
  predicate IsLineTerminator(c: char) { c == '\n' || c == '\r' }

  /** std::tolower in the "C" locale: only 'A'..'Z' change. */
  function LowerChar(c: char): char {
    if IsAsciiUpper(c) then (c as int + 32) as char else c
  }

  /** Comparison under std::regex::icase, which translates both sides with tolower. */
  predicate EqualsIgnoreCase(a: string, b: string) {
    |a| == |b| && forall i :: 0 <= i < |a| ==> LowerChar(a[i]) == LowerChar(b[i])
  }

  lemma LowerCharIdempotent(c: char)
    ensures LowerChar(LowerChar(c)) == LowerChar(c) && !IsAsciiUpper(LowerChar(c))
  {
  }

  // ---------------------------------------------------------------------------
  // Decimal digits

  predicate AllDigits(s: string) {
    forall i :: 0 <= i < |s| ==> IsDigit(s[i])
  }

  function DigitValue(c: char): nat
    requires IsDigit(c)
  {
    c as int - '0' as int
  }

  function Digit(n: nat): char
    requires n < 10
  {
    ('0' as int + n) as char
  }

  function Pow10(n: nat): nat {
    if n == 0 then 1 else 10 * Pow10(n - 1)
  }

  /** The value of a string of decimal digits, most significant first. */
  function DecimalValue(s: string): nat
    requires AllDigits(s)
  {
    if |s| == 0 then 0 else DecimalValue(s[..|s| - 1]) * 10 + DigitValue(s[|s| - 1])
  }

  lemma {:induction false} DecimalValueBound(s: string)
    requires AllDigits(s)
    ensures DecimalValue(s) < Pow10(|s|)
  {
    if |s| > 0 {
      DecimalValueBound(s[..|s| - 1]);
    }
  }

  /** The `width`-digit, zero-padded decimal rendering of n (only the low `width` digits). */
  function Padded(n: nat, width: nat): (r: string)
    ensures |r| == width && AllDigits(r)
  {
    if width == 0 then [] else Padded(n / 10, width - 1) + [Digit(n % 10)]
  }

  /** Rendering a number that fits and reading it back gives the number. */
  lemma {:induction false} PaddedValue(n: nat, width: nat)
    requires n < Pow10(width)
    ensures DecimalValue(Padded(n, width)) == n
  {
    if width > 0 {
      var r := Padded(n, width);
      assert r[..width - 1] == Padded(n / 10, width - 1);
      PaddedValue(n / 10, width - 1);
    }
  }

  /** The two-digit rendering of a number below 100 is its tens digit, then its units digit. */
  lemma PaddedTwoDigits(n: nat, a: char, b: char)
    requires n < 100 && a == Digit(n / 10) && b == Digit(n % 10)
    ensures Padded(n, 2) == [a, b]
  {
    assert Padded(n / 10, 1) == Padded(n / 100, 0) + [a];
  }

  /** The number of leading decimal digits of s. */
  function DigitPrefixLength(s: string): (n: nat)
    ensures n <= |s| && AllDigits(s[..n]) && (n < |s| ==> !IsDigit(s[n]))
  {
    if |s| == 0 || !IsDigit(s[0]) then 0
    else
      var k := DigitPrefixLength(s[1..]);
      assert s[..k + 1] == [s[0]] + s[1..][..k];
      k + 1
  }

  lemma {:induction false} DigitPrefixOfDigits(s: string)
    requires AllDigits(s)
    ensures DigitPrefixLength(s) == |s|
  {
    if |s| > 0 {
      DigitPrefixOfDigits(s[1..]);
    }
  }

  /**
   * std::from_chars(first, last, int&) in base 10 over the characters s: an optional
   * '-' followed by the longest run of digits. It fails only when no digit is found;
   * whatever follows the digits is ignored.
   */
  function FromChars(s: string): (r: Option<int>)
    ensures r.None? <==> !(|s| > 0 && IsDigit(s[0])) && !(|s| > 1 && s[0] == '-' && IsDigit(s[1]))
    ensures r.Some? ==> -(Pow10(|s|) as int) < r.value < Pow10(|s|)
  {
    if |s| > 0 && s[0] == '-' then
      var n := DigitPrefixLength(s[1..]);
      if n == 0 then None
      else
        DecimalValueBound(s[1..][..n]);
        PowMonotonic(n, |s|);
        Some(-(DecimalValue(s[1..][..n]) as int))
    else
      var n := DigitPrefixLength(s);
      if n == 0 then None
      else
        DecimalValueBound(s[..n]);
        PowMonotonic(n, |s|);
        Some(DecimalValue(s[..n]))
  }

  lemma {:induction false} PowMonotonic(a: nat, b: nat)
    requires a <= b
    ensures Pow10(a) <= Pow10(b)
  {
    if a < b {
      PowMonotonic(a, b - 1);
    }
  }

  /** Reading a string that is all digits gives its decimal value. */
  lemma FromCharsOfDigits(s: string)
    requires |s| > 0 && AllDigits(s)
    ensures FromChars(s) == Some(DecimalValue(s))
  {
    DigitPrefixOfDigits(s);
    assert s[..|s|] == s;
  }

  /** The leading digits stop at the first character that is not a digit. */
  lemma {:induction false} DigitPrefixBeforeJunk(d: string, junk: string)
    requires AllDigits(d) && (junk == [] || !IsDigit(junk[0]))
    ensures DigitPrefixLength(d + junk) == |d|
  {
    if |d| > 0 {
      assert (d + junk)[1..] == d[1..] + junk;
      DigitPrefixBeforeJunk(d[1..], junk);
    }
  }

  /** A slot reads only its leading digits: whatever follows them is ignored. */
  lemma FromCharsLeadingDigits(d: string, junk: string)
    requires |d| > 0 && AllDigits(d) && (junk == [] || !IsDigit(junk[0]))
    ensures FromChars(d + junk) == Some(DecimalValue(d))
  {
    var s := d + junk;
    assert s[0] == d[0];
    DigitPrefixBeforeJunk(d, junk);
    assert s[..|d|] == d;
  }

  /** ... and a leading '-' negates them. */
  lemma FromCharsNegatedDigits(d: string, junk: string)
    requires |d| > 0 && AllDigits(d) && (junk == [] || !IsDigit(junk[0]))
    ensures FromChars("-" + (d + junk)) == Some(-(DecimalValue(d) as int))
  {
    var t := "-" + (d + junk);
    assert t[1..] == d + junk;
    FromCharsAfterMinus(t, d, junk);
  }

  lemma FromCharsAfterMinus(t: string, d: string, junk: string)
    requires |d| > 0 && AllDigits(d) && (junk == [] || !IsDigit(junk[0]))
    requires |t| > 0 && t[0] == '-' && t[1..] == d + junk
    ensures FromChars(t) == Some(-(DecimalValue(d) as int))
  {
    var s := t[1..];
    assert DigitPrefixLength(s) == |d| by { DigitPrefixBeforeJunk(d, junk); }
    assert s[..|d|] == d;
  }

  /** Reading the zero-padded rendering of a number gives the number back. */
  lemma FromCharsPadded(n: nat, width: nat)
    requires 0 < width && n < Pow10(width)
    ensures FromChars(Padded(n, width)) == Some(n)
  {
    FromCharsOfDigits(Padded(n, width));
    PaddedValue(n, width);
  }

  /** Two and four given digits, spelled out: the values worked examples need. */
  lemma DecimalValueTwoDigits(a: char, b: char)
    requires IsDigit(a) && IsDigit(b)
    ensures DecimalValue([a, b]) == DigitValue(a) * 10 + DigitValue(b)
  {
    assert [a, b][..1] == [a] && [a][..0] == [];
    assert DecimalValue([a]) == DigitValue(a);
  }

  lemma DecimalValueFourDigits(a: char, b: char, c: char, d: char)
    requires IsDigit(a) && IsDigit(b) && IsDigit(c) && IsDigit(d)
    ensures DecimalValue([a, b, c, d]) == ((DigitValue(a) * 10 + DigitValue(b)) * 10 + DigitValue(c)) * 10 + DigitValue(d)
  {
    assert [a, b, c, d][..3] == [a, b, c] && [a, b, c][..2] == [a, b];
    DecimalValueTwoDigits(a, b);
  }

  lemma FromCharsTwoDigits(a: char, b: char)
    requires IsDigit(a) && IsDigit(b)
    ensures FromChars([a, b]) == Some(DigitValue(a) * 10 + DigitValue(b))
  {
    FromCharsOfDigits([a, b]);
    DecimalValueTwoDigits(a, b);
  }

  lemma FromCharsFourDigits(a: char, b: char, c: char, d: char)
    requires IsDigit(a) && IsDigit(b) && IsDigit(c) && IsDigit(d)
    ensures FromChars([a, b, c, d]) == Some(((DigitValue(a) * 10 + DigitValue(b)) * 10 + DigitValue(c)) * 10 + DigitValue(d))
  {
    FromCharsOfDigits([a, b, c, d]);
    DecimalValueFourDigits(a, b, c, d);
  }

  // ---------------------------------------------------------------------------
  // Searching

  predicate OccursAt(s: string, pattern: string, i: nat) {
    i + |pattern| <= |s| && s[i..i + |pattern|] == pattern
  }

  /** std::string::find(pattern, from): the first occurrence at or after `from`. */
  function Find(s: string, pattern: string, from: nat): (r: Option<nat>)
    decreases |s| - from
    ensures r.Some? ==> from <= r.value && OccursAt(s, pattern, r.value)
    ensures r.Some? ==> forall j :: from <= j < r.value ==> !OccursAt(s, pattern, j)
    ensures r.None? ==> forall j :: from <= j ==> !OccursAt(s, pattern, j)
  {
    if from + |pattern| > |s| then None
    else if OccursAt(s, pattern, from) then Some(from)
    else Find(s, pattern, from + 1)
  }

  /** `s.find(pattern) != npos` */
  predicate Contains(s: string, pattern: string) {
    Find(s, pattern, 0).Some?
  }

  /** std::string::rfind(c): the last position holding c. */
  function RFind(s: string, c: char): (r: Option<nat>)
    ensures r.Some? ==> r.value < |s| && s[r.value] == c
    ensures r.Some? ==> forall j :: r.value < j < |s| ==> s[j] != c
    ensures r.None? <==> c !in s
  {
    if |s| == 0 then None
    else if s[|s| - 1] == c then Some(|s| - 1)
    else
      var r := RFind(s[..|s| - 1], c);
      assert s == s[..|s| - 1] + [s[|s| - 1]];
      r
  }
}
