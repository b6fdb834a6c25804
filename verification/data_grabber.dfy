/**
 * The tool's query handling: reading the -sd/-ed arguments, the query path, the paginated
 * listing fetch and the date filter over the listed containers. The HTTP transport is a
 * scripted sequence of responses, one per request: a response is either a failure (None)
 * or the chunks curl delivers; a request past the end of the script fails.
 */
module DataGrabber {
  import opened Wrappers
  import opened Text
  import opened Calendar
  import opened Constants
  import opened DateUtils
  import opened WinUtils
  import opened CurlUtils
  import opened XmlUtils

  // ---------------------------------------------------------------------------
  // Arguments

  /** size_t arithmetic wraps modulo 2^64. */
  const SizeModulus: int := 0x1_0000_0000_0000_0000

  /** Length of the run of non-space characters from i. */
  function SpaceFreeRun(s: string, i: nat): (n: nat)
    requires i <= |s|
    decreases |s| - i
    ensures i + n <= |s| && (i + n == |s| || s[i + n] == ' ')
    ensures forall j :: i <= j < i + n ==> s[j] != ' '
  {
    if i == |s| || s[i] == ' ' then 0 else 1 + SpaceFreeRun(s, i + 1)
  }

  /**
   * ExtractInputArguments: after the first occurrence of the flag, skip one character
   * (whatever it is) and read the value there.
   */
  function ExtractInputArguments(argument: string, input: string): (r: Option<string>)
    ensures Find(input, argument, 0).None? ==> r.None?
    ensures r.Some? ==> |r.value| == ExpectedDateArgumentLengthShort || |r.value| == ExpectedDateArgumentLengthLong
  {
    match Find(input, argument, 0)
    case None => None
    case Some(argPos) => ValueAt(input, argPos + |argument| + 1)
  }

  /**
   * A value that is returned is the space-free text that starts one character after the
   * flag and runs to a space or to the end of the input.
   */
  lemma ExtractInputArgumentsValue(argument: string, input: string, start: nat)
    requires ExtractInputArguments(argument, input).Some?
    requires start == Find(input, argument, 0).value + |argument| + 1
    ensures var v := ExtractInputArguments(argument, input).value;
      && start + |v| <= |input|
      && v == input[start..start + |v|]
      && (forall j :: 0 <= j < |v| ==> v[j] != ' ')
      && (start + |v| == |input| || input[start + |v|] == ' ')
  {
    ExtractIsValueAt(argument, input, start);
  }

  /**
   * The value from startPos: the text up to the next space or the end; only a text of 10 or
   * 11 characters is returned. The length is computed in size_t, so a start one past the end
   * wraps to 2^64 - 1 and is refused.
   */
  function ValueAt(input: string, startPos: nat): (r: Option<string>)
    requires startPos <= |input| + 1
    ensures r.Some? ==> |r.value| == ExpectedDateArgumentLengthShort || |r.value| == ExpectedDateArgumentLengthLong
    ensures r.Some? ==>
      && startPos + |r.value| <= |input|
      && r.value == input[startPos..startPos + |r.value|]
      && (forall j :: 0 <= j < |r.value| ==> r.value[j] != ' ')
      && (startPos + |r.value| == |input| || input[startPos + |r.value|] == ' ')
  {
    var endPos := ArgumentEnd(input, startPos);
    var length := if startPos <= endPos then endPos - startPos else SizeModulus - (startPos - endPos);
    if length != ExpectedDateArgumentLengthShort && length != ExpectedDateArgumentLengthLong then None
    else
      assert startPos <= |input|;
      var value := input[startPos..endPos];
      assert forall j :: 0 <= j < |value| ==> value[j] != ' ' by {
        forall j | 0 <= j < |value| ensures value[j] != ' ' {
          assert value[j] == input[startPos + j];
        }
      }
      Some(value)
  }

  /** Where the value ends: the next space from `start`, or the end of the input when find gives npos. */
  function ArgumentEnd(input: string, start: nat): (e: nat)
    ensures start <= |input| ==> e == start + SpaceFreeRun(input, start)
    ensures start > |input| ==> e == |input|
  {
    var e := match Find(input, " ", start) case Some(e) => e case None => |input|;
    if start <= |input| then FindSpace(input, start); e else e
  }

  /**
   * When the flag is not the last text of the input, the argument is the space-free run after
   * the flag and one skipped character, exactly when that run has length 10 or 11.
   */
  lemma ExtractInputArgumentsRun(argument: string, input: string, start: nat)
    requires Find(input, argument, 0).Some?
    requires start == Find(input, argument, 0).value + |argument| + 1 <= |input|
    ensures var n := SpaceFreeRun(input, start);
      ExtractInputArguments(argument, input) == if n == 10 || n == 11 then Some(input[start..start + n]) else None
  {
    ExtractIsValueAt(argument, input, start);
    ValueAtRun(input, start);
  }

  lemma ExtractIsValueAt(argument: string, input: string, start: nat)
    requires Find(input, argument, 0).Some?
    requires start == Find(input, argument, 0).value + |argument| + 1
    ensures ExtractInputArguments(argument, input) == ValueAt(input, start)
  {
    var argPos := Find(input, argument, 0).value;
    assert Find(input, argument, 0) == Some(argPos);
  }

  /** Read from inside the input, the value is the space-free run there when that run has length 10 or 11. */
  lemma ValueAtRun(input: string, start: nat)
    requires start <= |input|
    ensures var n := SpaceFreeRun(input, start);
      ValueAt(input, start) == if n == 10 || n == 11 then Some(input[start..start + n]) else None
  {
    var n := SpaceFreeRun(input, start);
    assert ArgumentEnd(input, start) == start + n;
  }

  /** A flag at the very end of the input leaves nothing after the skipped character: the length wraps. */
  lemma ExtractInputArgumentsAtEnd(argument: string, input: string)
    requires Find(input, argument, 0).Some?
    requires Find(input, argument, 0).value + |argument| == |input|
    ensures ExtractInputArguments(argument, input).None?
  {
  }

  /** The next space from i is the end of the space-free run, if the run ends before the text does. */
  lemma FindSpace(s: string, i: nat)
    requires i <= |s|
    ensures var n := SpaceFreeRun(s, i);
      Find(s, " ", i) == if i + n < |s| then Some(i + n) else None
  {
    var n := SpaceFreeRun(s, i);
    var e := Find(s, " ", i);
    if i + n < |s| {
      assert OccursAt(s, " ", i + n) by { assert s[i + n..i + n + 1] == [s[i + n]]; }
    }
    if e.Some? {
      assert s[e.value] == s[e.value..e.value + 1][0];
    }
  }

  /** A bound: the CLI-form date of the argument's value, or the default date. */
  function ResolveBound(value: Option<string>): (d: Date)
    ensures d == DefaultDate || IsValid(d)
    ensures value.None? || |value.value| != ExpectedDateArgumentLengthShort ==> d == DefaultDate
  {
    match value
    case None => DefaultDate
    case Some(v) => StringToDateCLIArg(v).GetOr(DefaultDate)
  }

  /** ExtractSearchDatesCLI: each flag is looked up in the lower-cased input and read in the CLI form. */
  function ExtractSearchDatesCLI(input: string): (r: SearchDateParameters)
    ensures r.startDate == DefaultDate || IsValid(r.startDate)
    ensures r.endDate == DefaultDate || IsValid(r.endDate)
    ensures var v := ExtractInputArguments(StartDateStrArg, ToLowercase(input));
      if v.Some? && StringToDateCLIArg(v.value).Some? then r.startDate == StringToDateCLIArg(v.value).value
      else r.startDate == DefaultDate
    ensures var v := ExtractInputArguments(EndDateStrArg, ToLowercase(input));
      if v.Some? && StringToDateCLIArg(v.value).Some? then r.endDate == StringToDateCLIArg(v.value).value
      else r.endDate == DefaultDate
  {
    var lower := ToLowercase(input);
    SearchDateParameters(
      ResolveBound(ExtractInputArguments(StartDateStrArg, lower)),
      ResolveBound(ExtractInputArguments(EndDateStrArg, lower)))
  }

  /** The flags match in any case: the input's case does not change the bounds. */
  lemma SearchDatesIgnoreCase(input: string)
    ensures ExtractSearchDatesCLI(ToLowercase(input)) == ExtractSearchDatesCLI(input)
  {
    ToLowercaseIdempotent(input);
  }

  /** Each bound depends only on its own flag's value: the other flag cannot disturb it. */
  lemma BoundsAreIndependent(a: string, b: string)
    ensures ExtractInputArguments(StartDateStrArg, ToLowercase(a)) == ExtractInputArguments(StartDateStrArg, ToLowercase(b))
      ==> ExtractSearchDatesCLI(a).startDate == ExtractSearchDatesCLI(b).startDate
    ensures ExtractInputArguments(EndDateStrArg, ToLowercase(a)) == ExtractInputArguments(EndDateStrArg, ToLowercase(b))
      ==> ExtractSearchDatesCLI(a).endDate == ExtractSearchDatesCLI(b).endDate
  {
  }

  /** An 11-character value passes the argument check but never the CLI form: the bound stays unset. */
  lemma ElevenCharacterValueIsUnset(input: string)
    requires var v := ExtractInputArguments(StartDateStrArg, ToLowercase(input)); v.Some? && |v.value| == 11
    ensures ExtractSearchDatesCLI(input).startDate == DefaultDate
  {
  }

  /**
   * The flag, any one character, then a CLI date whose separators are not spaces, after text
   * that does not hold the flag in any case: the date is the start bound.
   */
  lemma StartFlagSetsStart(pre: string, c: char, y: nat, m: nat, d: nat, sep1: char, sep2: char, rest: string)
    requires !Contains(ToLowercase(pre), StartDateStrArg)
    requires y < 10000 && IsValid(Date(y, m, d)) && sep1 != ' ' && sep2 != ' '
    requires rest == "" || rest[0] == ' '
    ensures ExtractSearchDatesCLI(pre + StartDateStrArg + [c] + CliText(y, m, d, sep1, sep2) + rest).startDate
      == Date(y, m, d)
  {
    FlagSetsValue(StartDateStrArg, pre, c, y, m, d, sep1, sep2, rest);
    CliRoundTrip(y, m, d, LowerChar(sep1), LowerChar(sep2));
  }

  /** ... and the same for the end bound. */
  lemma EndFlagSetsEnd(pre: string, c: char, y: nat, m: nat, d: nat, sep1: char, sep2: char, rest: string)
    requires !Contains(ToLowercase(pre), EndDateStrArg)
    requires y < 10000 && IsValid(Date(y, m, d)) && sep1 != ' ' && sep2 != ' '
    requires rest == "" || rest[0] == ' '
    ensures ExtractSearchDatesCLI(pre + EndDateStrArg + [c] + CliText(y, m, d, sep1, sep2) + rest).endDate
      == Date(y, m, d)
  {
    FlagSetsValue(EndDateStrArg, pre, c, y, m, d, sep1, sep2, rest);
    CliRoundTrip(y, m, d, LowerChar(sep1), LowerChar(sep2));
  }

  /**
   * A query of the documented form, a path followed by "-sd" and "-ed" with their dates:
   * the path is the query path and the two dates are the bounds.
   */
  lemma QueryWithBothDates(q: string, path: string, y1: nat, m1: nat, d1: nat, y2: nat, m2: nat, d2: nat)
    requires PathText(path)
    requires y1 < 10000 && IsValid(Date(y1, m1, d1)) && y2 < 10000 && IsValid(Date(y2, m2, d2))
    requires q == path + " " + StartDateStrArg + " " + CliText(y1, m1, d1, '-', '-')
                  + " " + EndDateStrArg + " " + CliText(y2, m2, d2, '-', '-')
    ensures QueryPath(q) == path
    ensures ExtractSearchDatesCLI(q) == SearchDateParameters(Date(y1, m1, d1), Date(y2, m2, d2))
  {
    DatedQueryPath(q, path, y1, m1, d1, y2, m2, d2);
    DatedQueryStart(q, path, y1, m1, d1, y2, m2, d2);
    DatedQueryEnd(q, path, y1, m1, d1, y2, m2, d2);
  }

  lemma DatedQueryPath(q: string, path: string, y1: nat, m1: nat, d1: nat, y2: nat, m2: nat, d2: nat)
    requires PathText(path)
    requires y1 < 10000 && IsValid(Date(y1, m1, d1)) && y2 < 10000 && IsValid(Date(y2, m2, d2))
    requires q == path + " " + StartDateStrArg + " " + CliText(y1, m1, d1, '-', '-')
                  + " " + EndDateStrArg + " " + CliText(y2, m2, d2, '-', '-')
    ensures QueryPath(q) == path
  {
    var tail := StartDateStrArg + " " + CliText(y1, m1, d1, '-', '-') + " " + EndDateStrArg + " " + CliText(y2, m2, d2, '-', '-');
    assert q == path + [' '] + tail;
    QueryPathOf(path, ' ', tail);
  }

  lemma DatedQueryStart(q: string, path: string, y1: nat, m1: nat, d1: nat, y2: nat, m2: nat, d2: nat)
    requires PathText(path)
    requires y1 < 10000 && IsValid(Date(y1, m1, d1)) && y2 < 10000 && IsValid(Date(y2, m2, d2))
    requires q == path + " " + StartDateStrArg + " " + CliText(y1, m1, d1, '-', '-')
                  + " " + EndDateStrArg + " " + CliText(y2, m2, d2, '-', '-')
    ensures ExtractSearchDatesCLI(q).startDate == Date(y1, m1, d1)
  {
    var tail := " " + EndDateStrArg + " " + CliText(y2, m2, d2, '-', '-');
    assert q == (path + " ") + StartDateStrArg + " " + CliText(y1, m1, d1, '-', '-') + tail;
    NoDashesInPath(path);
    StartFlagSetsStart(path + " ", ' ', y1, m1, d1, '-', '-', tail);
  }

  lemma DatedQueryEnd(q: string, path: string, y1: nat, m1: nat, d1: nat, y2: nat, m2: nat, d2: nat)
    requires PathText(path)
    requires y1 < 10000 && IsValid(Date(y1, m1, d1)) && y2 < 10000 && IsValid(Date(y2, m2, d2))
    requires q == path + " " + StartDateStrArg + " " + CliText(y1, m1, d1, '-', '-')
                  + " " + EndDateStrArg + " " + CliText(y2, m2, d2, '-', '-')
    ensures ExtractSearchDatesCLI(q).endDate == Date(y2, m2, d2)
  {
    var pre := path + " " + StartDateStrArg + " " + CliText(y1, m1, d1, '-', '-') + " ";
    assert q == pre + EndDateStrArg + " " + CliText(y2, m2, d2, '-', '-') + "";
    NoEndFlagBefore(path, y1, m1, d1, pre);
    EndFlagSetsEnd(pre, ' ', y2, m2, d2, '-', '-', "");
  }

  /** The lower-cased query holds the flag and, after the skipped character, the lower-cased date. */
  lemma FlagSetsValue(flag: string, pre: string, c: char, y: nat, m: nat, d: nat, sep1: char, sep2: char, rest: string)
    requires flag == StartDateStrArg || flag == EndDateStrArg
    requires !Contains(ToLowercase(pre), flag)
    requires sep1 != ' ' && sep2 != ' '
    requires rest == "" || rest[0] == ' '
    ensures ExtractInputArguments(flag, ToLowercase(pre + flag + [c] + CliText(y, m, d, sep1, sep2) + rest))
      == Some(CliText(y, m, d, LowerChar(sep1), LowerChar(sep2)))
  {
    var v := CliText(y, m, d, sep1, sep2);
    var w := CliText(y, m, d, LowerChar(sep1), LowerChar(sep2));
    var input := pre + flag + [c] + v + rest;
    var lower := ToLowercase(input);
    var p := |pre|;
    CliTextChars(y, m, d, sep1, sep2);
    CliTextChars(y, m, d, LowerChar(sep1), LowerChar(sep2));
    assert lower[..p] == ToLowercase(pre) by {
      forall i | 0 <= i < p ensures lower[i] == ToLowercase(pre)[i] {
        assert input[i] == pre[i];
      }
    }
    assert OccursAt(lower, flag, p) by {
      forall i | 0 <= i < 3 ensures lower[p + i] == flag[i] {
        assert input[p + i] == flag[i];
      }
      assert lower[p..p + 3] == flag;
    }
    assert lower[p + 4..p + 14] == w by {
      forall i | 0 <= i < 10 ensures lower[p + 4 + i] == w[i] {
        assert input[p + 4 + i] == v[i];
      }
    }
    assert p + 14 == |lower| || lower[p + 14] == ' ' by {
      if rest != "" {
        assert input[p + 14] == rest[0];
      }
    }
    FlagFirstAfter(flag, ToLowercase(pre), lower);
    FlagValueAt(flag, lower, p);
  }

  /** A CLI date: eight digits with the two separators at positions 4 and 7. */
  lemma CliTextChars(y: nat, m: nat, d: nat, sep1: char, sep2: char)
    ensures var v := CliText(y, m, d, sep1, sep2);
      && |v| == 10 && v[4] == sep1 && v[7] == sep2
      && forall i :: 0 <= i < 10 && i != 4 && i != 7 ==> IsDigit(v[i])
  {
    var v := CliText(y, m, d, sep1, sep2);
    assert AllDigits(Padded(y, 4)) && AllDigits(Padded(m, 2)) && AllDigits(Padded(d, 2));
    assert v == Padded(y, 4) + [sep1] + Padded(m, 2) + [sep2] + Padded(d, 2);
  }

  /**
   * The first occurrence of a flag at p, then one skipped character, then ten non-space
   * characters ended by a space or the end: those ten characters are the value.
   */
  lemma FlagValueAt(flag: string, input: string, p: nat)
    requires |flag| == 3
    requires p + 14 <= |input| && OccursAt(input, flag, p)
    requires forall j :: 0 <= j < p ==> !OccursAt(input, flag, j)
    requires forall j :: p + 4 <= j < p + 14 ==> input[j] != ' '
    requires p + 14 == |input| || input[p + 14] == ' '
    ensures ExtractInputArguments(flag, input) == Some(input[p + 4..p + 14])
  {
    assert Find(input, flag, 0) == Some(p);
    SpaceFreeRunExact(input, p + 4, 10);
    ExtractInputArgumentsRun(flag, input, p + 4);
  }

  /** A flag absent from pre does not start inside pre when a '-' follows it: the flags' other characters are letters. */
  lemma FlagFirstAfter(flag: string, pre: string, input: string)
    requires flag == StartDateStrArg || flag == EndDateStrArg
    requires !Contains(pre, flag)
    requires |pre| < |input| && input[..|pre|] == pre && input[|pre|] == '-'
    ensures forall j :: 0 <= j < |pre| ==> !OccursAt(input, flag, j)
  {
    forall j | 0 <= j < |pre| ensures !OccursAt(input, flag, j) {
      if j + 3 <= |pre| {
        assert !OccursAt(pre, flag, j);
        assert pre[j..j + 3] == input[j..j + 3];
      } else if j + 3 <= |input| {
        assert input[j..j + 3][|pre| - j] == '-';
      }
    }
  }

  /** Text where every '-' is followed by a character other than the flag's second has no flag. */
  lemma NoFlagWhereDashesDiffer(s: string, flag: string)
    requires |flag| == 3 && flag[0] == '-'
    requires forall j :: 0 <= j < |s| && s[j] == '-' ==> j + 1 < |s| && s[j + 1] != flag[1]
    ensures !Contains(s, flag)
  {
    forall j | 0 <= j ensures !OccursAt(s, flag, j) {
      if j + 3 <= |s| {
        assert s[j..j + 3][0] == s[j] && s[j..j + 3][1] == s[j + 1];
      }
    }
  }

  /** A path holds no '-', so neither flag occurs in it (nor after a space), whatever its case. */
  lemma NoDashesInPath(path: string)
    requires PathText(path)
    ensures !Contains(ToLowercase(path + " "), StartDateStrArg)
  {
    var l := ToLowercase(path + " ");
    forall j | 0 <= j < |l| ensures l[j] != '-' {
      if j < |path| {
        assert (path + " ")[j] == path[j];
      }
    }
    NoFlagWhereDashesDiffer(l, StartDateStrArg);
  }

  /** Before "-ed" in the documented form, every '-' is followed by 's' or a digit. */
  lemma NoEndFlagBefore(path: string, y: nat, m: nat, d: nat, pre: string)
    requires PathText(path)
    requires pre == path + " " + StartDateStrArg + " " + CliText(y, m, d, '-', '-') + " "
    ensures !Contains(ToLowercase(pre), EndDateStrArg)
  {
    var v := CliText(y, m, d, '-', '-');
    var l := ToLowercase(pre);
    var n := |path|;
    CliTextChars(y, m, d, '-', '-');
    assert |pre| == n + 16;
    forall j | 0 <= j < |l| ensures l[j] == '-' ==> j + 1 < |l| && l[j + 1] != 'e' {
      if j < n {
        assert pre[j] == path[j];
      } else if j == n + 1 {
        assert pre[j + 1] == 's';
      } else if n + 5 <= j < n + 15 {
        assert pre[j] == v[j - n - 5];
        if j < n + 14 {
          assert pre[j + 1] == v[j + 1 - n - 5];
        }
      } else {
        assert pre[j] == ' ' || pre[j] == 's' || pre[j] == 'd';
      }
    }
    NoFlagWhereDashesDiffer(l, EndDateStrArg);
  }

  /** A space-free stretch ended by a space or the end is the run. */
  lemma {:induction false} SpaceFreeRunExact(s: string, i: nat, n: nat)
    requires i + n <= |s| && (i + n == |s| || s[i + n] == ' ')
    requires forall j :: i <= j < i + n ==> s[j] != ' '
    ensures SpaceFreeRun(s, i) == n
    decreases n
  {
    if n > 0 {
      SpaceFreeRunExact(s, i + 1, n - 1);
    }
  }

  // ---------------------------------------------------------------------------
  // Query path

  /** Length of the run of \s characters from i. */
  function SpacesFrom(s: string, i: nat): (n: nat)
    requires i <= |s|
    decreases |s| - i
    ensures i + n <= |s| && (i + n == |s| || !IsSpace(s[i + n]))
    ensures forall j :: i <= j < i + n ==> IsSpace(s[j])
  {
    if i == |s| || !IsSpace(s[i]) then 0 else 1 + SpacesFrom(s, i + 1)
  }

  /** Length of the run of [^-\s] characters from i. */
  function PathCharsFrom(s: string, i: nat): (n: nat)
    requires i <= |s|
    decreases |s| - i
    ensures i + n <= |s| && (i + n == |s| || IsSpace(s[i + n]) || s[i + n] == '-')
    ensures forall j :: i <= j < i + n ==> !IsSpace(s[j]) && s[j] != '-'
  {
    if i == |s| || IsSpace(s[i]) || s[i] == '-' then 0 else 1 + PathCharsFrom(s, i + 1)
  }

  /**
   * The query path, `^\s*[^-\s]+`: leading whitespace and the first run of characters that
   * are neither whitespace nor '-'; "" when no such character follows the whitespace.
   */
  function QueryPath(s: string): (r: string)
    ensures |r| <= |s| && r == s[..|r|]
    ensures r == "" <==> SpacesFrom(s, 0) == |s| || s[SpacesFrom(s, 0)] == '-'
    ensures r != "" ==> !IsSpace(r[|r| - 1]) && (|r| == |s| || IsSpace(s[|r|]) || s[|r|] == '-')
    ensures r != "" ==> SpacesFrom(s, 0) < |r| && forall j :: SpacesFrom(s, 0) <= j < |r| ==> !IsSpace(s[j])
    ensures '-' !in r
  {
    var w := SpacesFrom(s, 0);
    var n := PathCharsFrom(s, w);
    if n == 0 then ""
    else
      var r := s[..w + n];
      assert '-' !in r by {
        forall j | 0 <= j < |r| ensures r[j] != '-' {
          if j < w { assert IsSpace(s[j]); }
        }
      }
      r
  }

  /** Text the path pattern takes whole: non-empty, no whitespace, no '-'. */
  predicate PathText(path: string) {
    |path| > 0 && forall j :: 0 <= j < |path| ==> !IsSpace(path[j]) && path[j] != '-'
  }

  /** The path is given back whole when a space (the flags follow) or a '-' ends it. */
  lemma QueryPathOf(path: string, separator: char, rest: string)
    requires PathText(path) && (IsSpace(separator) || separator == '-')
    ensures QueryPath(path + [separator] + rest) == path
  {
    var s := path + [separator] + rest;
    assert s[|path|] == separator;
    assert forall j :: 0 <= j < |path| ==> s[j] == path[j];
    assert SpacesFrom(s, 0) == 0;
    PathCharsExact(s, 0, |path|);
    assert s[..|path|] == path;
  }

  /** Leading whitespace is kept, and the path after it still comes back whole. */
  lemma QueryPathOfIndented(lead: string, path: string, separator: char, rest: string)
    requires forall j :: 0 <= j < |lead| ==> IsSpace(lead[j])
    requires PathText(path) && (IsSpace(separator) || separator == '-')
    ensures QueryPath(lead + path + [separator] + rest) == lead + path
  {
    var s := lead + path + [separator] + rest;
    var w := |lead|;
    assert s[w + |path|] == separator;
    assert forall j :: 0 <= j < |path| ==> s[w + j] == path[j];
    assert forall j :: 0 <= j < w ==> s[j] == lead[j];
    SpacesExact(s, 0, w);
    PathCharsExact(s, w, |path|);
    assert s[..w + |path|] == lead + path;
  }

  /** A query that starts with a flag has no path. */
  lemma QueryPathOfFlagOnly(rest: string)
    ensures QueryPath("-" + rest) == ""
  {
    assert SpacesFrom("-" + rest, 0) == 0;
  }

  /** The path stops at the first '-': "Datasets/Foo-Bar" gives "Datasets/Foo". */
  lemma QueryPathStopsAtDash()
    ensures QueryPath("Datasets/Foo" + "-" + "Bar") == "Datasets/Foo"
  {
    assert PathText("Datasets/Foo");
    QueryPathOf("Datasets/Foo", '-', "Bar");
  }

  /** A query with flags: the path is the text before them. */
  lemma QueryPathBeforeFlags()
    ensures QueryPath("Datasets/Wholesale" + " " + "-sd 2023-01-01 -ed 2023-12-31") == "Datasets/Wholesale"
  {
    assert PathText("Datasets/Wholesale");
    QueryPathOf("Datasets/Wholesale", ' ', "-sd 2023-01-01 -ed 2023-12-31");
  }

  /** The documented query: both bounds are set and the path is the text before the flags. */
  lemma DocumentedQuery()
    ensures var q := "Datasets/Wholesale" + " " + "-sd" + " " + "2023-01-01" + " " + "-ed" + " " + "2023-12-31";
      && QueryPath(q) == "Datasets/Wholesale"
      && ExtractSearchDatesCLI(q) == SearchDateParameters(Date(2023, 1, 1), Date(2023, 12, 31))
  {
    DocumentedQueryOf("Datasets/Wholesale", "2023-01-01", "2023-12-31");
  }

  lemma DocumentedQueryOf(path: string, v1: string, v2: string)
    requires path == "Datasets/Wholesale" && v1 == "2023-01-01" && v2 == "2023-12-31"
    ensures var q := path + " " + "-sd" + " " + v1 + " " + "-ed" + " " + v2;
      && QueryPath(q) == path
      && ExtractSearchDatesCLI(q) == SearchDateParameters(Date(2023, 1, 1), Date(2023, 12, 31))
  {
    DocumentedDates();
    DocumentedPath(path);
    assert IsValid(Date(2023, 1, 1)) && IsValid(Date(2023, 12, 31));
    QueryWithBothDates(path + " " + "-sd" + " " + v1 + " " + "-ed" + " " + v2, path, 2023, 1, 1, 2023, 12, 31);
  }

  lemma DocumentedPath(path: string)
    requires path == "Datasets/Wholesale"
    ensures PathText(path)
  {
  }

  lemma DocumentedDates()
    ensures CliText(2023, 1, 1, '-', '-') == "2023-01-01"
    ensures CliText(2023, 12, 31, '-', '-') == "2023-12-31"
  {
    DocumentedYear();
    PaddedTwoDigits(1, '0', '1');
    PaddedTwoDigits(12, '1', '2');
    PaddedTwoDigits(31, '3', '1');
  }

  lemma DocumentedYear()
    ensures Padded(2023, 4) == "2023"
  {
    assert Digit(2) == '2' && Digit(0) == '0' && Digit(3) == '3';
    assert Padded(2, 1) == "2" by { assert Padded(2, 1) == Padded(0, 0) + [Digit(2)]; }
    assert Padded(20, 2) == "20" by { assert Padded(20, 2) == Padded(2, 1) + [Digit(0)]; }
    assert Padded(202, 3) == "202" by { assert Padded(202, 3) == Padded(20, 2) + [Digit(2)]; }
    assert Padded(2023, 4) == Padded(202, 3) + [Digit(3)];
  }

  lemma {:induction false} SpacesExact(s: string, i: nat, n: nat)
    requires i + n <= |s| && (i + n == |s| || !IsSpace(s[i + n]))
    requires forall j :: i <= j < i + n ==> IsSpace(s[j])
    ensures SpacesFrom(s, i) == n
    decreases n
  {
    if n > 0 {
      SpacesExact(s, i + 1, n - 1);
    }
  }

  lemma {:induction false} PathCharsExact(s: string, i: nat, n: nat)
    requires i + n <= |s| && (i + n == |s| || IsSpace(s[i + n]) || s[i + n] == '-')
    requires forall j :: i <= j < i + n ==> !IsSpace(s[j]) && s[j] != '-'
    ensures PathCharsFrom(s, i) == n
    decreases n
  {
    if n > 0 {
      PathCharsExact(s, i + 1, n - 1);
    }
  }

  // ---------------------------------------------------------------------------
  // Paginated listing

  /** What a run of the listing produced: the records in order and every request made. */
  datatype Discovery = Discovery(records: seq<BlobContainer>, requests: seq<Request>)

  /** A listing request: the first page of a prefix, or a follow-up page after a marker. */
  datatype Request = First(prefix: string) | FollowUp(prefix: string, marker: string)

  /** The URL a request is sent to. */
  function URL(r: Request): string {
    match r
    case First(prefix) => AllContainersURL + prefix
    case FollowUp(prefix, marker) => AllContainersURL + prefix + "&marker=" + marker
  }

  /** The response to the k-th request; past the end of the script the request fails. */
  function Fetch(responses: seq<Option<seq<string>>>, k: nat): Option<seq<string>> {
    if k < |responses| then responses[k] else None
  }

  /** What ParseEAXML takes from one page: its records and the marker it leaves (from the empty marker). */
  datatype Summary = Summary(records: seq<BlobContainer>, marker: string)

  function ReadPage(page: string): Summary {
    var ms := AllMatches(BlobOrNextMarker, page, 0);
    Summary(RecordsOf(ms), MarkerAfter(ms, ""))
  }

  /** The script as parsed pages: a failed transfer stays a failure, a delivered one is read. */
  function Parsed(responses: seq<Option<seq<string>>>): (pages: seq<Option<Summary>>)
    ensures |pages| == |responses|
    ensures forall k :: 0 <= k < |responses| ==> pages[k] == match responses[k]
      case None => None
      case Some(chunks) => Some(ReadPage(Concat(chunks)))
  {
    seq(|responses|, k requires 0 <= k < |responses| =>
      match responses[k]
      case None => None
      case Some(chunks) => Some(ReadPage(Concat(chunks))))
  }

  /** Send `request` as the k-th request and carry on from its page. */
  function Crawl(prefix: string, pages: seq<Option<Summary>>, k: nat, request: Request): (d: Discovery)
    decreases |pages| - k, 1
    ensures |d.requests| > 0 && d.requests[0] == request
  {
    if k >= |pages| || pages[k].None? then Discovery([], [request])
    else
      var rest := AfterPage(prefix, pages, k + 1, pages[k].value);
      Discovery(rest.records, [request] + rest.requests)
  }

  /** After a page is read: stop on an empty marker, else request the next page with the marker. */
  function AfterPage(prefix: string, pages: seq<Option<Summary>>, k: nat, page: Summary): Discovery
    requires k <= |pages|
    decreases |pages| - k + 1, 0
  {
    if page.marker == "" then Discovery(page.records, [])
    else
      var rest := Crawl(prefix, pages, k, FollowUp(prefix, page.marker));
      Discovery(page.records + rest.records, rest.requests)
  }

  /** The whole listing for a prefix. */
  function Discover(prefix: string, responses: seq<Option<seq<string>>>): Discovery {
    Crawl(prefix, Parsed(responses), 0, First(prefix))
  }

  /**
   * RunGetContainers: fetch the first page; then parse, and while the page leaves a marker,
   * empty the buffer, request the next page with that marker, and clear the marker. A failed
   * fetch ends the run with what has been gathered.
   */
  method RunGetContainers(output: seq<BlobContainer>, prefix: string, responses: seq<Option<seq<string>>>)
    returns (result: seq<BlobContainer>, requests: seq<Request>)
    ensures result == output + Discover(prefix, responses).records
    ensures requests == Discover(prefix, responses).requests
  {
    ghost var pages := Parsed(responses);
    var responseData := new StringBuffer();
    var nextMarker := "";
    result := output;
    var request := First(prefix);
    // The CURLOPT_URL setting; the transport that would read it is not modelled.
    var url := URL(request);
    requests := [request];
    var code := PerformListingRequest(Fetch(responses, 0), responseData);
    if code != 0 {
      return;
    }
    var k := 1;
    ghost var page := ReadPage(responseData.value);
    ParsedAt(responses, 0, responseData.value);
    CrawlFetched(prefix, pages, 0, First(prefix));
    while true
      invariant 1 <= k <= |responses|
      invariant page == ReadPage(responseData.value)
      invariant nextMarker == ""
      invariant result + AfterPage(prefix, pages, k, page).records == output + Discover(prefix, responses).records
      invariant requests + AfterPage(prefix, pages, k, page).requests == Discover(prefix, responses).requests
      decreases |responses| - k
    {
      ghost var before, requestsBefore := result, requests;
      result, nextMarker := ParseEAXML(result, responseData.value, nextMarker);
      assert result == before + page.records && nextMarker == page.marker;
      if nextMarker == "" {
        return;
      }
      CrawlStep(prefix, pages, k, page);
      responseData.Clear();
      request := FollowUp(prefix, nextMarker);
      url := URL(request);  // the updated CURLOPT_URL setting
      nextMarker := "";
      code := PerformListingRequest(Fetch(responses, k), responseData);
      requests := requests + [request];
      if code != 0 {
        assert AfterPage(prefix, pages, k, page) == Discovery(page.records, [request]);
        return;
      }
      ghost var next := ReadPage(responseData.value);
      ParsedAt(responses, k, responseData.value);
      ghost var rest := AfterPage(prefix, pages, k + 1, next);
      assert AfterPage(prefix, pages, k, page) == Discovery(page.records + rest.records, [request] + rest.requests);
      AppendAssociative(before, page.records, rest.records);
      AppendAssociative(requestsBefore, [request], rest.requests);
      page := next;
      k := k + 1;
    }
  }

  /** The parsed script at a delivered response is the reading of the delivered text. */
  lemma ParsedAt(responses: seq<Option<seq<string>>>, k: nat, text: string)
    requires k < |responses| && responses[k].Some? && text == Concat(responses[k].value)
    ensures Parsed(responses)[k] == Some(ReadPage(text))
  {
  }

  lemma AppendAssociative<T>(a: seq<T>, b: seq<T>, c: seq<T>)
    ensures (a + b) + c == a + (b + c)
  {
  }

  /** A fetched page: the request is followed by what its page leads to. */
  lemma CrawlFetched(prefix: string, pages: seq<Option<Summary>>, k: nat, request: Request)
    requires k < |pages| && pages[k].Some?
    ensures var next := AfterPage(prefix, pages, k + 1, pages[k].value);
      Crawl(prefix, pages, k, request) == Discovery(next.records, [request] + next.requests)
  {
  }

  /** One step of the loop: a page with a marker is followed by the next request's outcome. */
  lemma CrawlStep(prefix: string, pages: seq<Option<Summary>>, k: nat, page: Summary)
    requires k <= |pages| && page.marker != ""
    ensures k == |pages| || pages[k].None? ==>
      AfterPage(prefix, pages, k, page) == Discovery(page.records, [FollowUp(prefix, page.marker)])
    ensures k < |pages| && pages[k].Some? ==>
      var next := AfterPage(prefix, pages, k + 1, pages[k].value);
      AfterPage(prefix, pages, k, page) == Discovery(page.records + next.records, [FollowUp(prefix, page.marker)] + next.requests)
  {
  }

  /** A first fetch that fails leaves the caller's vector as it was, after one request. */
  lemma FirstFetchFails(prefix: string, responses: seq<Option<seq<string>>>)
    requires |responses| == 0 || responses[0].None?
    ensures Discover(prefix, responses) == Discovery([], [First(prefix)])
  {
  }

  /**
   * Request i (i > 0) of a run started at response k carries the marker of the page that
   * answered request i - 1, which was delivered and left a non-empty marker; a run makes at
   * most one request per remaining response, plus the one that fails.
   */
  predicate CarriesMarkers(prefix: string, pages: seq<Option<Summary>>, k: nat, requests: seq<Request>) {
    && k + |requests| <= |pages| + 1
    && forall i :: 1 <= i < |requests| ==> FollowsPage(prefix, pages, k + i - 1, requests[i])
  }

  /** Response j was delivered, left a non-empty marker, and request r asks for that marker. */
  predicate FollowsPage(prefix: string, pages: seq<Option<Summary>>, j: int, r: Request) {
    && 0 <= j < |pages| && pages[j].Some? && pages[j].value.marker != ""
    && r == FollowUp(prefix, pages[j].value.marker)
  }

  /** One more request in front of the follow-ups of the pages from k + 1 on. */
  lemma CarriesMarkersCons(prefix: string, pages: seq<Option<Summary>>, k: nat, request: Request, rest: seq<Request>)
    requires k < |pages| && pages[k].Some? && pages[k].value.marker != ""
    requires CarriesMarkers(prefix, pages, k + 1, rest)
    requires |rest| > 0 && rest[0] == FollowUp(prefix, pages[k].value.marker)
    ensures CarriesMarkers(prefix, pages, k, [request] + rest)
  {
    var all := [request] + rest;
    forall i | 1 <= i < |all| ensures FollowsPage(prefix, pages, k + i - 1, all[i]) {
      assert all[i] == rest[i - 1];
      if i > 1 {
        assert FollowsPage(prefix, pages, (k + 1) + (i - 1) - 1, rest[i - 1]);
      }
    }
  }

  lemma {:induction false} CrawlRequests(prefix: string, pages: seq<Option<Summary>>, k: nat, request: Request)
    requires k <= |pages|
    ensures CarriesMarkers(prefix, pages, k, Crawl(prefix, pages, k, request).requests)
    decreases |pages| - k
  {
    var d := Crawl(prefix, pages, k, request);
    if k < |pages| && pages[k].Some? {
      var page := pages[k].value;
      CrawlFetched(prefix, pages, k, request);
      if page.marker != "" {
        var next := FollowUp(prefix, page.marker);
        var rest := Crawl(prefix, pages, k + 1, next);
        CrawlRequests(prefix, pages, k + 1, next);
        assert AfterPage(prefix, pages, k + 1, page) == Discovery(page.records + rest.records, rest.requests);
        assert d.requests == [request] + rest.requests;
        CarriesMarkersCons(prefix, pages, k, request, rest.requests);
      } else {
        assert d.requests == [request];
      }
    } else {
      assert d.requests == [request];
    }
  }

  /** Two pages, the first with a marker: both pages' records in page order, after two requests. */
  lemma TwoPages(prefix: string, first: Summary, second: Summary)
    requires first.marker != "" && second.marker == ""
    ensures Crawl(prefix, [Some(first), Some(second)], 0, First(prefix)) == Discovery(
      first.records + second.records, [First(prefix), FollowUp(prefix, first.marker)])
  {
    var pages := [Some(first), Some(second)];
    var next := Crawl(prefix, pages, 1, FollowUp(prefix, first.marker));
    CrawlFetched(prefix, pages, 1, FollowUp(prefix, first.marker));
    assert next == Discovery(second.records, [FollowUp(prefix, first.marker)]);
    assert AfterPage(prefix, pages, 1, first) == Discovery(first.records + next.records, next.requests);
    CrawlFetched(prefix, pages, 0, First(prefix));
  }

  // ---------------------------------------------------------------------------
  // Date filter

  /** The per-record test of the filter loop; which comparison applies depends on which bounds are set. */
  predicate Keep(q: SearchDateParameters, c: BlobContainer) {
    if q.startDate != DefaultDate && q.endDate == DefaultDate then Before(q.startDate, c.fileNameDate)
    else if q.startDate == DefaultDate && q.endDate != DefaultDate then Before(c.fileNameDate, q.endDate)
    else Before(q.startDate, c.fileNameDate) && Before(c.fileNameDate, q.endDate)
  }

  /** The records that pass, in their original order. */
  function Selected(cs: seq<BlobContainer>, q: SearchDateParameters): seq<BlobContainer> {
    if |cs| == 0 then []
    else Selected(cs[..|cs| - 1], q) + (if Keep(q, cs[|cs| - 1]) then [cs[|cs| - 1]] else [])
  }

  /** The filter of FuzzyFindContainers: everything when no bound is set, else the passing records in order. */
  method FilterContainers(allContainers: seq<BlobContainer>, q: SearchDateParameters) returns (selected: seq<BlobContainer>)
    ensures q.startDate == DefaultDate && q.endDate == DefaultDate ==> selected == allContainers
    ensures !(q.startDate == DefaultDate && q.endDate == DefaultDate) ==> selected == Selected(allContainers, q)
  {
    if q.startDate == DefaultDate && q.endDate == DefaultDate {
      return allContainers;
    }
    selected := [];
    for i := 0 to |allContainers|
      invariant selected == Selected(allContainers[..i], q)
    {
      assert allContainers[..i + 1][..i] == allContainers[..i];
      if Keep(q, allContainers[i]) {
        selected := selected + [allContainers[i]];
      }
    }
    assert allContainers[..|allContainers|] == allContainers;
  }

  /** A record is selected exactly when it is listed and passes the test. */
  lemma {:induction false} SelectedMembers(cs: seq<BlobContainer>, q: SearchDateParameters, c: BlobContainer)
    ensures c in Selected(cs, q) <==> c in cs && Keep(q, c)
  {
    if |cs| > 0 {
      SelectedMembers(cs[..|cs| - 1], q, c);
      assert cs == cs[..|cs| - 1] + [cs[|cs| - 1]];
    }
  }

  /** Filtering keeps order: it distributes over concatenation. */
  lemma {:induction false} SelectedAppend(a: seq<BlobContainer>, b: seq<BlobContainer>, q: SearchDateParameters)
    ensures Selected(a + b, q) == Selected(a, q) + Selected(b, q)
    decreases |b|
  {
    if |b| == 0 {
      assert a + b == a;
    } else {
      var ab := a + b;
      assert ab[..|ab| - 1] == a + b[..|b| - 1];
      assert ab[|ab| - 1] == b[|b| - 1];
      SelectedAppend(a, b[..|b| - 1], q);
    }
  }

  /** With both bounds unset the test rejects everything, which is why the filter returns early. */
  lemma {:induction false} NoBoundSelectsNothing(cs: seq<BlobContainer>, q: SearchDateParameters)
    requires q.startDate == DefaultDate && q.endDate == DefaultDate
    ensures Selected(cs, q) == []
  {
    if |cs| > 0 {
      NoBoundSelectsNothing(cs[..|cs| - 1], q);
      BeforeIsStrictTotalOrder(q.startDate, cs[|cs| - 1].fileNameDate, q.endDate);
    }
  }

  /** The bounds are exclusive: a record dated on a bound is dropped. */
  lemma BoundsAreExclusive(q: SearchDateParameters, c: BlobContainer)
    requires (q.startDate != DefaultDate && c.fileNameDate == q.startDate)
      || (q.endDate != DefaultDate && c.fileNameDate == q.endDate)
    ensures !Keep(q, c)
  {
    BeforeIsStrictTotalOrder(q.startDate, c.fileNameDate, q.endDate);
  }

  /**
   * A record with no date in its name (the default date) is dropped under a start bound in
   * year 0 or later, but kept under a start bound with a negative year, which the CLI form
   * can produce ("-001-01-01"); under an end bound alone in year 0 or later it is kept.
   */
  lemma DefaultDatedRecords(q: SearchDateParameters, c: BlobContainer)
    requires c.fileNameDate == DefaultDate
    requires q.startDate == DefaultDate || IsValid(q.startDate)
    requires q.endDate == DefaultDate || IsValid(q.endDate)
    ensures q.startDate != DefaultDate && q.startDate.year >= 0 ==> !Keep(q, c)
    ensures q.startDate != DefaultDate && q.startDate.year < 0 && q.endDate == DefaultDate ==> Keep(q, c)
    ensures q.startDate == DefaultDate && q.endDate != DefaultDate && q.endDate.year >= 0 ==> Keep(q, c)
  {
  }

  // ---------------------------------------------------------------------------
  // Search

  /**
   * FuzzyFindContainers without its console: a predefined query, or else the line the user
   * typed ("x" in any case cancels); the listing for the query path, filtered by the query's
   * dates.
   */
  method FuzzyFindContainers(preDefinedInput: string, typedLine: string, responses: seq<Option<seq<string>>>)
    returns (containers: seq<BlobContainer>)
    ensures preDefinedInput == "" && ToLowercase(typedLine) == "x" ==> containers == []
    ensures !(preDefinedInput == "" && ToLowercase(typedLine) == "x") ==>
      var input := if preDefinedInput == "" then typedLine else preDefinedInput;
      var all := Discover(QueryPath(input), responses).records;
      var q := ExtractSearchDatesCLI(input);
      containers == if q.startDate == DefaultDate && q.endDate == DefaultDate then all else Selected(all, q)
  {
    var fuzzyUserInput: string;
    if preDefinedInput == "" {
      fuzzyUserInput := typedLine;
      if ToLowercase(fuzzyUserInput) == "x" {
        return [];
      }
    } else {
      fuzzyUserInput := preDefinedInput;
    }
    var queryPath := QueryPath(fuzzyUserInput);
    var allContainers, _ := RunGetContainers([], queryPath, responses);
    assert allContainers == Discover(queryPath, responses).records;
    var searchDate := ExtractSearchDatesCLI(fuzzyUserInput);
    containers := FilterContainers(allContainers, searchDate);
  }
}
