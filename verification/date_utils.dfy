/**
 * The date parsers: three fixed-format parsers (CLI argument, file name, free text) and
 * ParseDate, which tries them in that order. Every result is a valid calendar date.
 */
module DateUtils {
  import opened Wrappers
  import opened Text
  import opened Calendar
  import opened Constants

  // ---------------------------------------------------------------------------
  // CLI argument form: YYYY?MM?DD

  /**
   * Exactly 10 characters; year from [0,4), month from [5,7), day from [8,10), each
   * read with from_chars. Characters 4 and 7 are never examined.
   */
  function StringToDateCLIArg(s: string): (r: Option<Date>)
    ensures |s| != ExpectedDateArgumentLengthShort ==> r.None?
    ensures r.Some? ==> IsValid(r.value)
  {
    if |s| != 10 then None
    else
      var y :- FromChars(s[..4]);
      var m :- FromChars(s[5..7]);
      var d :- FromChars(s[8..10]);
      var ymd := MakeDate(y, m, d);
      if IsValid(ymd) then Some(ymd) else None
  }

  /** A CLI date rendered with arbitrary separators. */
  function CliText(y: nat, m: nat, d: nat, sep1: char, sep2: char): string {
    Padded(y, 4) + [sep1] + Padded(m, 2) + [sep2] + Padded(d, 2)
  }

  /** Every valid date with a four-digit year reads back from its CLI rendering, whatever the separators. */
  lemma CliRoundTrip(y: nat, m: nat, d: nat, sep1: char, sep2: char)
    requires y < 10000 && IsValid(Date(y, m, d))
    ensures |CliText(y, m, d, sep1, sep2)| == ExpectedDateArgumentLengthShort
    ensures StringToDateCLIArg(CliText(y, m, d, sep1, sep2)) == Some(Date(y, m, d))
  {
    var s := CliText(y, m, d, sep1, sep2);
    assert s[..4] == Padded(y, 4);
    assert s[5..7] == Padded(m, 2);
    assert s[8..10] == Padded(d, 2);
    FromCharsPadded(y, 4);
    FromCharsPadded(m, 2);
    FromCharsPadded(d, 2);
  }

  /** Two CLI arguments whose slots read the same give the same date. */
  lemma CliSameSlots(s: string, t: string)
    requires |s| == |t| == 10
    requires FromChars(s[..4]) == FromChars(t[..4]) && FromChars(s[5..7]) == FromChars(t[5..7])
    requires FromChars(s[8..10]) == FromChars(t[8..10])
    ensures StringToDateCLIArg(s) == StringToDateCLIArg(t)
  {
  }

  /** The separators at positions 4 and 7 do not influence the result. */
  lemma CliIgnoresSeparators(s: string, sep1: char, sep2: char)
    requires |s| == 10
    ensures StringToDateCLIArg(s[4 := sep1][7 := sep2]) == StringToDateCLIArg(s)
  {
    var t := s[4 := sep1][7 := sep2];
    assert t[..4] == s[..4];
    assert t[5..7] == s[5..7];
    assert t[8..10] == s[8..10];
  }

  /** A CLI argument spelled digit by digit reads as the numbers those digits make; the separators are not examined. */
  lemma CliOfDigits(y1: char, y2: char, y3: char, y4: char, sep1: char, m1: char, m2: char, sep2: char, d1: char, d2: char, y: nat, m: nat, d: nat)
    requires IsDigit(y1) && IsDigit(y2) && IsDigit(y3) && IsDigit(y4)
    requires IsDigit(m1) && IsDigit(m2) && IsDigit(d1) && IsDigit(d2)
    requires y == ((DigitValue(y1) * 10 + DigitValue(y2)) * 10 + DigitValue(y3)) * 10 + DigitValue(y4)
    requires m == DigitValue(m1) * 10 + DigitValue(m2) && d == DigitValue(d1) * 10 + DigitValue(d2)
    ensures StringToDateCLIArg([y1, y2, y3, y4, sep1, m1, m2, sep2, d1, d2])
      == if IsValid(MakeDate(y, m, d)) then Some(MakeDate(y, m, d)) else None
  {
    var s := [y1, y2, y3, y4, sep1, m1, m2, sep2, d1, d2];
    assert FromChars(s[..4]) == Some(y) by {
      assert s[..4] == [y1, y2, y3, y4];
      FromCharsFourDigits(y1, y2, y3, y4);
    }
    assert FromChars(s[5..7]) == Some(m) by {
      assert s[5..7] == [m1, m2];
      FromCharsTwoDigits(m1, m2);
    }
    assert FromChars(s[8..10]) == Some(d) by {
      assert s[8..10] == [d1, d2];
      FromCharsTwoDigits(d1, d2);
    }
  }

  /** A CLI argument whose slots hold zero-padded numbers reads as those numbers; the separators are not examined. */
  lemma CliSlots(s: string, y: nat, m: nat, d: nat)
    requires |s| == 10 && y < 10000 && m < 100 && d < 100
    requires s[..4] == Padded(y, 4) && s[5..7] == Padded(m, 2) && s[8..10] == Padded(d, 2)
    ensures StringToDateCLIArg(s) == if IsValid(MakeDate(y, m, d)) then Some(MakeDate(y, m, d)) else None
  {
    FromCharsPadded(y, 4);
    FromCharsPadded(m, 2);
    FromCharsPadded(d, 2);
  }

  // ---------------------------------------------------------------------------
  // File-name form: YYYYMM[DD]

  /** A full file-name date spelled digit by digit reads as the numbers those digits make. */
  lemma FileNameOfDigits(y1: char, y2: char, y3: char, y4: char, m1: char, m2: char, d1: char, d2: char, y: nat, m: nat, d: nat)
    requires IsDigit(y1) && IsDigit(y2) && IsDigit(y3) && IsDigit(y4)
    requires IsDigit(m1) && IsDigit(m2) && IsDigit(d1) && IsDigit(d2)
    requires y == ((DigitValue(y1) * 10 + DigitValue(y2)) * 10 + DigitValue(y3)) * 10 + DigitValue(y4)
    requires m == DigitValue(m1) * 10 + DigitValue(m2) && d == DigitValue(d1) * 10 + DigitValue(d2)
    ensures StringToDateEAFileName([y1, y2, y3, y4, m1, m2, d1, d2])
      == if IsValid(MakeDate(y, m, d)) then Some(MakeDate(y, m, d)) else None
  {
    var s := [y1, y2, y3, y4, m1, m2, d1, d2];
    assert FromChars(s[..4]) == Some(y) by {
      assert s[..4] == [y1, y2, y3, y4];
      FromCharsFourDigits(y1, y2, y3, y4);
    }
    assert FromChars(s[4..6]) == Some(m) by {
      assert s[4..6] == [m1, m2];
      FromCharsTwoDigits(m1, m2);
    }
    assert FromChars(s[6..8]) == Some(d) by {
      assert s[6..8] == [d1, d2];
      FromCharsTwoDigits(d1, d2);
    }
  }

  /** A month-only file-name date spelled digit by digit takes the month's day from the table. */
  lemma MonthOnlyOfDigits(y1: char, y2: char, y3: char, y4: char, m1: char, m2: char, y: nat, m: nat)
    requires IsDigit(y1) && IsDigit(y2) && IsDigit(y3) && IsDigit(y4) && IsDigit(m1) && IsDigit(m2)
    requires y == ((DigitValue(y1) * 10 + DigitValue(y2)) * 10 + DigitValue(y3)) * 10 + DigitValue(y4)
    requires m == DigitValue(m1) * 10 + DigitValue(m2)
    ensures var d := if 1 <= m <= 12 then MonthDays[m - 1] else 0;
      StringToDateEAFileName([y1, y2, y3, y4, m1, m2])
        == if IsValid(MakeDate(y, m, d)) then Some(MakeDate(y, m, d)) else None
  {
    var s := [y1, y2, y3, y4, m1, m2];
    assert FromChars(s[..4]) == Some(y) by {
      assert s[..4] == [y1, y2, y3, y4];
      FromCharsFourDigits(y1, y2, y3, y4);
    }
    assert FromChars(s[4..6]) == Some(m) by {
      assert s[4..6] == [m1, m2];
      FromCharsTwoDigits(m1, m2);
    }
  }

  /** A full file-name date whose slots hold zero-padded numbers reads as those numbers. */
  lemma FileNameSlots(s: string, y: nat, m: nat, d: nat)
    requires |s| == 8 && y < 10000 && m < 100 && d < 100
    requires s[..4] == Padded(y, 4) && s[4..6] == Padded(m, 2) && s[6..8] == Padded(d, 2)
    ensures StringToDateEAFileName(s) == if IsValid(MakeDate(y, m, d)) then Some(MakeDate(y, m, d)) else None
  {
    FromCharsPadded(y, 4);
    FromCharsPadded(m, 2);
    FromCharsPadded(d, 2);
  }

  /** A month-only file-name date takes the month's day from the table. */
  lemma MonthOnlySlots(s: string, y: nat, m: nat)
    requires |s| == 6 && y < 10000 && m < 100
    requires s[..4] == Padded(y, 4) && s[4..6] == Padded(m, 2)
    ensures var d := if 1 <= m <= 12 then MonthDays[m - 1] else 0;
      StringToDateEAFileName(s) == if IsValid(MakeDate(y, m, d)) then Some(MakeDate(y, m, d)) else None
  {
    assert FromChars(s[..4]) == Some(y) by { FromCharsPadded(y, 4); }
    assert FromChars(s[4..6]) == Some(m) by { FromCharsPadded(m, 2); }
  }

  /**
   * Lengths 6 to 8; year from [0,4), month from [4,6), and the day from [6,8) only at
   * length 8. Otherwise the day is the month's entry in MonthDays (no leap day).
   */
  function StringToDateEAFileName(s: string): (r: Option<Date>)
    ensures !(6 <= |s| <= 8) ==> r.None?
    ensures r.Some? ==> IsValid(r.value)
    ensures r.Some? && |s| < 8 ==> r.value.day == MonthDays[r.value.month - 1]
  {
    if |s| < 6 || |s| > 8 then None
    else
      var y :- FromChars(s[..4]);
      var m :- FromChars(s[4..6]);
      var d :- if |s| == 8 then FromChars(s[6..8])
               else Some(if 1 <= m <= 12 then MonthDays[m - 1] else 0);
      var ymd := MakeDate(y, m, d);
      if IsValid(ymd) then Some(ymd) else None
  }

  /** Every valid date with a four-digit year reads back from its YYYYMMDD rendering. */
  lemma FileNameRoundTrip(y: nat, m: nat, d: nat)
    requires y < 10000 && IsValid(Date(y, m, d))
    ensures StringToDateEAFileName(Padded(y, 4) + Padded(m, 2) + Padded(d, 2)) == Some(Date(y, m, d))
  {
    var s := Padded(y, 4) + Padded(m, 2) + Padded(d, 2);
    assert |s| == 8;
    assert s[..4] == Padded(y, 4);
    assert s[4..6] == Padded(m, 2);
    assert s[6..8] == Padded(d, 2);
    FromCharsPadded(y, 4);
    FromCharsPadded(m, 2);
    FromCharsPadded(d, 2);
    assert FromChars(s[..4]) == Some(y as int);
    assert FromChars(s[4..6]) == Some(m as int);
    assert FromChars(s[6..8]) == Some(d as int);
  }

  /** A YYYYMM rendering always parses, to the table's last day of that month. */
  lemma FileNameMonthOnly(y: nat, m: nat)
    requires y < 10000 && 1 <= m <= 12
    ensures StringToDateEAFileName(Padded(y, 4) + Padded(m, 2)) == Some(Date(y, m, MonthDays[m - 1]))
  {
    var s := Padded(y, 4) + Padded(m, 2);
    assert s[..4] == Padded(y, 4);
    assert s[4..6] == Padded(m, 2);
    FromCharsPadded(y, 4);
    FromCharsPadded(m, 2);
    MonthDaysFitEveryYear(y, m);
  }

  // ---------------------------------------------------------------------------
  // Free-text form, e.g. the Last-Modified value "Thu, 12 Jan 2023 10:20:30 GMT"

  const MonthAbbreviations: seq<string> :=
    ["Jan", "Feb", "Mar", "Apr", "May", "Jun", "Jul", "Aug", "Sep", "Oct", "Nov", "Dec"]

  /** The three patterns the text form searches for. */
  datatype TokenKind =
    | DayToken    // \b\d{1,2}\b
    | MonthToken  // \b(Jan|Feb|...|Dec)\b
    | YearToken   // \b\d{4}\b

  /** `\b` before position i, where s[i] is a word character. */
  predicate IsWordStart(s: string, i: nat) {
    i <= |s| && (i == 0 || !IsWordChar(s[i - 1]))
  }

  /** `\b` at position j, where s[j - 1] is a word character. */
  predicate IsWordEnd(s: string, j: nat) {
    j == |s| || (j < |s| && !IsWordChar(s[j]))
  }

  /** `\b\d{n}\b` matches at i. */
  predicate DigitWordAt(s: string, i: nat, n: nat) {
    i + n <= |s| && IsWordStart(s, i) && AllDigits(s[i..i + n]) && IsWordEnd(s, i + n)
  }

  predicate MonthWordAt(s: string, i: nat) {
    i + 3 <= |s| && IsWordStart(s, i) && s[i..i + 3] in MonthAbbreviations && IsWordEnd(s, i + 3)
  }

  /** The length of the match of the kind's pattern at i (the greedy choice first), 0 if none. */
  function TokenLength(kind: TokenKind, s: string, i: nat): (n: nat)
    ensures n > 0 ==> i + n <= |s|
    ensures n > 0 && kind != MonthToken ==> AllDigits(s[i..i + n])
    ensures n > 0 && kind == MonthToken ==> n == 3 && s[i..i + 3] in MonthAbbreviations
  {
    match kind
    case DayToken => if DigitWordAt(s, i, 2) then 2 else if DigitWordAt(s, i, 1) then 1 else 0
    case MonthToken => if MonthWordAt(s, i) then 3 else 0
    case YearToken => if DigitWordAt(s, i, 4) then 4 else 0
  }

  /** regex_search: the leftmost position at or after `from` where the pattern matches. */
  function FindToken(kind: TokenKind, s: string, from: nat): (r: Option<nat>)
    decreases |s| - from
    ensures r.Some? ==> from <= r.value && TokenLength(kind, s, r.value) > 0
    ensures r.Some? ==> forall j :: from <= j < r.value ==> TokenLength(kind, s, j) == 0
    ensures r.None? ==> forall j :: from <= j ==> TokenLength(kind, s, j) == 0
  {
    if from >= |s| then None
    else if TokenLength(kind, s, from) > 0 then Some(from)
    else FindToken(kind, s, from + 1)
  }

  /** A match at i with none before it is the one regex_search finds. */
  lemma FirstTokenAt(kind: TokenKind, s: string, i: nat)
    requires TokenLength(kind, s, i) > 0
    requires forall j :: 0 <= j < i ==> TokenLength(kind, s, j) == 0
    ensures FindToken(kind, s, 0) == Some(i)
  {
  }

  /** The pattern does not match anywhere. */
  lemma NoToken(kind: TokenKind, s: string)
    requires forall j :: 0 <= j <= |s| ==> TokenLength(kind, s, j) == 0
    ensures FindToken(kind, s, 0) == None
  {
  }

  /** 1 for "Jan" ... 12 for "Dec" (the month table; every matched name is in it). */
  function MonthNumber(name: string): (m: int)
    requires name in MonthAbbreviations
    ensures 1 <= m <= 12 && MonthAbbreviations[m - 1] == name
  {
    IndexIn(name, MonthAbbreviations) + 1
  }

  /** The abbreviations are distinct, so each one names exactly its own month. */
  lemma MonthNumberOf(m: int)
    requires 1 <= m <= 12
    ensures MonthNumber(MonthAbbreviations[m - 1]) == m
  {
    assert forall i, j :: 0 <= i < j < |MonthAbbreviations| ==> MonthAbbreviations[i] != MonthAbbreviations[j];
    IndexOfDistinct(MonthAbbreviations, m - 1);
  }

  /** In a list without repeats, the position found for an element is its own. */
  lemma {:induction false} IndexOfDistinct(names: seq<string>, k: nat)
    requires k < |names|
    requires forall i, j :: 0 <= i < j < |names| ==> names[i] != names[j]
    ensures IndexIn(names[k], names) == k
  {
    if k > 0 {
      assert names[0] != names[k];
      assert names[1..][k - 1] == names[k];
      IndexOfDistinct(names[1..], k - 1);
    }
  }

  function IndexIn(name: string, names: seq<string>): (k: nat)
    requires name in names
    ensures k < |names| && names[k] == name
  {
    if names[0] == name then 0 else 1 + IndexIn(name, names[1..])
  }

  /** The number the first match of the kind stands for; 0 (the initial value) when there is none. */
  function FirstTokenValue(kind: TokenKind, s: string): (v: nat)
    ensures v < 10000
    ensures kind == DayToken ==> v < 100
    ensures FindToken(kind, s, 0).None? ==> v == 0
    ensures kind == MonthToken && FindToken(kind, s, 0).Some? ==> 1 <= v <= 12
  {
    match FindToken(kind, s, 0)
    case None => 0
    case Some(i) =>
      if kind == MonthToken then MonthNumber(s[i..i + 3])
      else
        var digits := s[i..i + TokenLength(kind, s, i)];
        DecimalValueBound(digits);
        DecimalValue(digits)
  }

  /**
   * The first standalone 1-2 digit number is the day, the first whole-word month
   * abbreviation (case-sensitive) the month, the first standalone 4-digit number the
   * year; all three must be present and positive and form a valid date.
   */
  function StringToDateEAXml(s: string): (r: Option<Date>)
    ensures r.Some? ==> IsValid(r.value) && r.value.year > 0
    ensures r.Some? ==> FindToken(DayToken, s, 0).Some? && FindToken(MonthToken, s, 0).Some?
                        && FindToken(YearToken, s, 0).Some?
    ensures r.Some? ==> r.value == Date(FirstTokenValue(YearToken, s), FirstTokenValue(MonthToken, s),
                                        FirstTokenValue(DayToken, s))
    ensures r.Some? <==>
      && FindToken(MonthToken, s, 0).Some? && FirstTokenValue(YearToken, s) > 0
      && IsValid(Date(FirstTokenValue(YearToken, s), FirstTokenValue(MonthToken, s), FirstTokenValue(DayToken, s)))
  {
    var dayNum := FirstTokenValue(DayToken, s);
    var monthNum := FirstTokenValue(MonthToken, s);
    var yearNum := FirstTokenValue(YearToken, s);
    if dayNum > 0 && yearNum > 0 && monthNum != 0 then
      var ymd := MakeDate(yearNum, monthNum, dayNum);
      if IsValid(ymd) then Some(ymd) else None
    else None
  }

  // ---------------------------------------------------------------------------
  // The dispatcher

  /**
   * "" gives none at once; otherwise the first success among the CLI, file-name and
   * text forms, in that order. (The warning printed when all three fail is not modelled.)
   */
  function ParseDate(s: string): (r: Option<Date>)
    ensures s == "" ==> r.None?
    ensures r.Some? ==> IsValid(r.value) && r.value != DefaultDate && r.value != InvalidDate
    ensures StringToDateCLIArg(s).Some? ==> r == StringToDateCLIArg(s)
    ensures StringToDateCLIArg(s).None? && StringToDateEAFileName(s).Some? ==> r == StringToDateEAFileName(s)
    ensures s != "" && StringToDateCLIArg(s).None? && StringToDateEAFileName(s).None? ==> r == StringToDateEAXml(s)
    ensures r.None? <==>
      || s == ""
      || (StringToDateCLIArg(s).None? && StringToDateEAFileName(s).None? && StringToDateEAXml(s).None?)
  {
    if s == "" then None
    else if StringToDateCLIArg(s).Some? then StringToDateCLIArg(s)
    else if StringToDateEAFileName(s).Some? then StringToDateEAFileName(s)
    else StringToDateEAXml(s)
  }

  // ---------------------------------------------------------------------------
  // Properties across the forms

  /** ParseDate reads every CLI rendering of a valid date back (any separators). */
  lemma ParseDateCliRoundTrip(y: nat, m: nat, d: nat, sep1: char, sep2: char)
    requires y < 10000 && IsValid(Date(y, m, d))
    ensures ParseDate(CliText(y, m, d, sep1, sep2)) == Some(Date(y, m, d))
  {
    CliRoundTrip(y, m, d, sep1, sep2);
  }

  /**
   * On a 6- or 8-digit token the dispatcher gives exactly the file-name form: the CLI
   * form needs 10 characters and the text form finds no standalone 1-2 digit day.
   */
  lemma ParseDateOfDigitToken(t: string)
    requires (|t| == 6 || |t| == 8) && AllDigits(t)
    ensures ParseDate(t) == StringToDateEAFileName(t)
  {
    forall j | 0 <= j <= |t| ensures TokenLength(DayToken, t, j) == 0 {
      if 0 < j {
        assert IsDigit(t[j - 1]);
      } else {
        assert IsDigit(t[1]) && IsDigit(t[2]);
      }
    }
    NoToken(DayToken, t);
  }

  /** ParseDateOfDigitToken for names spelled digit by digit. */
  lemma ParseDateOfSixDigits(a: char, b: char, c: char, d: char, e: char, f: char)
    requires IsDigit(a) && IsDigit(b) && IsDigit(c) && IsDigit(d) && IsDigit(e) && IsDigit(f)
    ensures ParseDate([a, b, c, d, e, f]) == StringToDateEAFileName([a, b, c, d, e, f])
  {
    ParseDateOfDigitToken([a, b, c, d, e, f]);
  }

  lemma ParseDateOfEightDigits(a: char, b: char, c: char, d: char, e: char, f: char, g: char, h: char)
    requires IsDigit(a) && IsDigit(b) && IsDigit(c) && IsDigit(d) && IsDigit(e) && IsDigit(f) && IsDigit(g) && IsDigit(h)
    ensures ParseDate([a, b, c, d, e, f, g, h]) == StringToDateEAFileName([a, b, c, d, e, f, g, h])
  {
    ParseDateOfDigitToken([a, b, c, d, e, f, g, h]);
  }

  /** The IMF-fixdate of section 7.1.1.1 of RFC 7231, e.g. "Sun, 06 Nov 1994 08:49:37 GMT". */
  function ImfFixdate(dayName: string, d: nat, m: nat, y: nat, hh: nat, mm: nat, ss: nat): string
    requires 1 <= m <= 12
  {
    dayName + ", " + Padded(d, 2) + " " + MonthAbbreviations[m - 1] + " " + Padded(y, 4)
    + " " + Padded(hh, 2) + ":" + Padded(mm, 2) + ":" + Padded(ss, 2) + " GMT"
  }

  const DayNames: seq<string> := ["Mon", "Tue", "Wed", "Thu", "Fri", "Sat", "Sun"]

  lemma MonthNamesAreCapitalisedWords(name: string)
    requires name in MonthAbbreviations
    ensures |name| == 3 && IsAsciiUpper(name[0]) && IsAsciiLetter(name[1]) && IsAsciiLetter(name[2])
  {
  }

  /** A word that does not start with a capital is no month abbreviation. */
  lemma LowerStartNotMonth(name: string)
    requires |name| > 0 && !IsAsciiUpper(name[0])
    ensures name !in MonthAbbreviations
  {
    forall i | 0 <= i < |MonthAbbreviations| ensures MonthAbbreviations[i] != name {
      assert IsAsciiUpper(MonthAbbreviations[i][0]);
    }
  }

  /** The month pattern never matches at a character that is not a capital. */
  lemma NoMonthAtLowerCase(s: string, j: nat)
    requires j < |s| ==> !IsAsciiUpper(s[j])
    ensures TokenLength(MonthToken, s, j) == 0
  {
    if j + 3 <= |s| {
      assert s[j..j + 3][0] == s[j];
      LowerStartNotMonth(s[j..j + 3]);
    }
  }

  /** Where the pieces of an IMF-fixdate sit. */
  ghost predicate ImfLayout(s: string, dayName: string, d: nat, m: nat, y: nat)
    requires 1 <= m <= 12
  {
    && |s| == 29 && s[..3] == dayName && s[3] == ',' && s[4] == ' '
    && s[5..7] == Padded(d, 2) && s[7] == ' '
    && s[8..11] == MonthAbbreviations[m - 1] && s[11] == ' '
    && s[12..16] == Padded(y, 4) && s[16] == ' '
  }

  lemma ImfFixdateLayout(dayName: string, d: nat, m: nat, y: nat, hh: nat, mm: nat, ss: nat)
    requires |dayName| == 3 && 1 <= m <= 12
    ensures ImfLayout(ImfFixdate(dayName, d, m, y, hh, mm, ss), dayName, d, m, y)
  {
  }

  /** In an IMF-fixdate the day pattern first matches the two-digit day at 5. */
  lemma ImfDayToken(s: string, dayName: string, d: nat, m: nat, y: nat)
    requires dayName in DayNames && 1 <= m <= 12 && d < 100 && y < 10000
    requires ImfLayout(s, dayName, d, m, y)
    ensures FirstTokenValue(DayToken, s) == d
  {
    PaddedValue(d, 2);
    assert s[5] == s[5..7][0] && s[6] == s[5..7][1];
    assert TokenLength(DayToken, s, 5) == 2;
    forall j | 0 <= j < 5 ensures TokenLength(DayToken, s, j) == 0 {
      if j < 3 {
        assert s[j] == dayName[j];
      }
    }
    FirstTokenAt(DayToken, s, 5);
  }

  /** In an IMF-fixdate the month pattern first matches the abbreviation at 8. */
  lemma ImfMonthTokenAt(s: string, dayName: string, d: nat, m: nat, y: nat)
    requires dayName in DayNames && 1 <= m <= 12 && ImfLayout(s, dayName, d, m, y)
    ensures FindToken(MonthToken, s, 0) == Some(8)
  {
    MonthNamesAreCapitalisedWords(s[8..11]);
    assert s[10] == s[8..11][2];
    assert TokenLength(MonthToken, s, 8) == 3;
    forall j | 0 <= j < 8 ensures TokenLength(MonthToken, s, j) == 0 {
      ImfNoMonthBefore(s, dayName, d, m, y, j);
    }
    FirstTokenAt(MonthToken, s, 8);
  }

  /** Before 8 an IMF-fixdate holds a day name, ", " and digits: no month abbreviation starts there. */
  lemma ImfNoMonthBefore(s: string, dayName: string, d: nat, m: nat, y: nat, j: nat)
    requires dayName in DayNames && 1 <= m <= 12 && ImfLayout(s, dayName, d, m, y) && j < 8
    ensures TokenLength(MonthToken, s, j) == 0
  {
    if j == 0 {
      assert s[0..3] == dayName;
    } else if j < 3 {
      assert s[j - 1] == dayName[j - 1];
      assert !IsWordStart(s, j);
    } else {
      if j == 5 || j == 6 {
        assert IsDigit(s[5..7][j - 5]);
      }
      NoMonthAtLowerCase(s, j);
    }
  }

  /** ... and so the month read from it is the month that was written. */
  lemma ImfMonthToken(s: string, dayName: string, d: nat, m: nat, y: nat)
    requires dayName in DayNames && 1 <= m <= 12 && ImfLayout(s, dayName, d, m, y)
    ensures FirstTokenValue(MonthToken, s) == m
  {
    ImfMonthTokenAt(s, dayName, d, m, y);
    assert s[8..8 + 3] == MonthAbbreviations[m - 1];
    MonthNumberOf(m);
  }

  /** In an IMF-fixdate the year pattern first matches the four digits at 12. */
  lemma ImfYearToken(s: string, dayName: string, d: nat, m: nat, y: nat)
    requires dayName in DayNames && 1 <= m <= 12 && d < 100 && y < 10000
    requires ImfLayout(s, dayName, d, m, y)
    ensures FirstTokenValue(YearToken, s) == y
  {
    PaddedValue(y, 4);
    assert s[12..16] == Padded(y, 4);
    assert TokenLength(YearToken, s, 12) == 4;
    forall j | 0 <= j < 12 ensures TokenLength(YearToken, s, j) == 0 {
      ImfNoYearBefore(s, dayName, d, m, y, j);
    }
    FirstTokenAt(YearToken, s, 12);
  }

  /** Before 12 an IMF-fixdate holds no four-digit word: a day name, ", ", two digits and a month. */
  lemma ImfNoYearBefore(s: string, dayName: string, d: nat, m: nat, y: nat, j: nat)
    requires dayName in DayNames && 1 <= m <= 12 && ImfLayout(s, dayName, d, m, y) && j < 12
    ensures TokenLength(YearToken, s, j) == 0
  {
    if j < 3 {
      assert s[j] == dayName[j];
      assert s[j..j + 4][0] == s[j];
    } else if j == 5 {
      assert s[5..9][2] == s[7];
    } else if j == 6 {
      assert IsDigit(s[5..7][0]);
      assert !IsWordStart(s, 6);
    } else if 8 <= j < 11 {
      MonthNamesAreCapitalisedWords(s[8..11]);
      assert s[j] == s[8..11][j - 8];
      assert s[j..j + 4][0] == s[j];
    } else {
      assert s[j..j + 4][0] == s[j];
    }
  }

  /** Month names are matched case-sensitively: text without a capital letter has no month. */
  lemma NoCapitalNoMonth(s: string)
    requires forall j :: 0 <= j < |s| ==> !IsAsciiUpper(s[j])
    ensures FindToken(MonthToken, s, 0) == None && StringToDateEAXml(s) == None
  {
    forall j | 0 <= j <= |s| ensures TokenLength(MonthToken, s, j) == 0 {
      NoMonthAtLowerCase(s, j);
    }
    NoToken(MonthToken, s);
  }

  /**
   * A Last-Modified value in IMF-fixdate form parses, through the text form, to the date
   * it spells (for years 1..9999, the years the text form accepts).
   */
  lemma LastModifiedRoundTrip(dayName: string, d: nat, m: nat, y: nat, hh: nat, mm: nat, ss: nat)
    requires dayName in DayNames
    requires 1 <= m <= 12 && 0 < y < 10000 && IsValid(Date(y, m, d))
    requires hh < 100 && mm < 100 && ss < 100
    ensures ParseDate(ImfFixdate(dayName, d, m, y, hh, mm, ss)) == Some(Date(y, m, d))
  {
    var s := ImfFixdate(dayName, d, m, y, hh, mm, ss);
    ImfFixdateLayout(dayName, d, m, y, hh, mm, ss);
    ImfDayToken(s, dayName, d, m, y);
    ImfMonthToken(s, dayName, d, m, y);
    ImfYearToken(s, dayName, d, m, y);
    assert StringToDateEAXml(s) == Some(Date(y, m, d));
  }
}
