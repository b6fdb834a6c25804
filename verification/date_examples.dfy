/**
 * Worked examples of the date parsers, taken from the formats the tool meets: CLI
 * arguments, blob file names and Last-Modified headers.
 */
module DateExamples {
  import opened Wrappers
  import opened Text
  import opened Calendar
  import opened Constants
  import opened DateUtils

  /** The CLI cases from the tool's documentation; the separators are not examined. */
  lemma CliExampleDashes()
    ensures StringToDateCLIArg("2023-01-12") == Some(Date(2023, 1, 12))
  {
    CliOfDigits('2', '0', '2', '3', '-', '0', '1', '-', '1', '2', 2023, 1, 12);
  }

  lemma CliExampleSlashes()
    ensures StringToDateCLIArg("2023/01/12") == Some(Date(2023, 1, 12))
  {
    CliOfDigits('2', '0', '2', '3', '/', '0', '1', '/', '1', '2', 2023, 1, 12);
  }

  /** 29 February exists only in leap years. */
  lemma CliLeapDay()
    ensures StringToDateCLIArg("2024-02-29") == Some(Date(2024, 2, 29))
  {
    CliOfDigits('2', '0', '2', '4', '-', '0', '2', '-', '2', '9', 2024, 2, 29);
  }

  lemma CliRejectsMissingLeapDay()
    ensures StringToDateCLIArg("2023-02-29") == None
  {
    CliOfDigits('2', '0', '2', '3', '-', '0', '2', '-', '2', '9', 2023, 2, 29);
  }

  /** A digit slot reads only its leading digits: "1x" is month 1. */
  lemma CliIgnoresTrailingJunk()
    ensures StringToDateCLIArg("2023-1x-05") == Some(Date(2023, 1, 5))
  {
    var s, t := "2023-1x-05", "2023-01-05";
    assert s[..4] == t[..4] && s[8..10] == t[8..10];
    assert FromChars(s[5..7]) == FromChars(t[5..7]) by {
      assert s[5..7] == "1x" && t[5..7] == "01";
      JunkAfterDigit();
    }
    CliSameSlots(s, t);
    CliExampleFifth();
  }

  lemma CliExampleFifth()
    ensures StringToDateCLIArg("2023-01-05") == Some(Date(2023, 1, 5))
  {
    CliOfDigits('2', '0', '2', '3', '-', '0', '1', '-', '0', '5', 2023, 1, 5);
  }

  lemma JunkAfterDigit()
    ensures FromChars("1x") == FromChars("01") == Some(1)
  {
    assert DigitPrefixLength("1x") == 1 && "1x"[..1] == "1";
    assert DigitPrefixLength("01") == 2;
  }

  /** File names: a full date, and month-only names that take the table's last day. */
  lemma FileNameExampleFullDate()
    ensures ParseDate("20230112") == Some(Date(2023, 1, 12))
  {
    FileNameSlotsExample();
    ParseDateOfEightDigits('2', '0', '2', '3', '0', '1', '1', '2');
  }

  lemma FileNameSlotsExample()
    ensures StringToDateEAFileName("20230112") == Some(Date(2023, 1, 12))
  {
    FileNameOfDigits('2', '0', '2', '3', '0', '1', '1', '2', 2023, 1, 12);
  }

  /** February is day 28 in the table, leap year or not. */
  lemma FileNameExampleMonthOnly()
    ensures ParseDate("202402") == Some(Date(2024, 2, 28))
  {
    MonthOnlyName2024();
    ParseDateOfSixDigits('2', '0', '2', '4', '0', '2');
  }

  lemma MonthOnlyName2024()
    ensures StringToDateEAFileName("202402") == Some(Date(2024, 2, 28))
  {
    MonthOnlyOfDigits('2', '0', '2', '4', '0', '2', 2024, 2);
    assert MonthDays[1] == 28 && IsValid(Date(2024, 2, 28));
  }

  /** ... and the same day in a common year. */
  lemma FileNameExampleMonthOnlyCommonYear()
    ensures ParseDate("202302") == Some(Date(2023, 2, 28))
  {
    MonthOnlyName2023();
    ParseDateOfSixDigits('2', '0', '2', '3', '0', '2');
  }

  lemma MonthOnlyName2023()
    ensures StringToDateEAFileName("202302") == Some(Date(2023, 2, 28))
  {
    MonthOnlyOfDigits('2', '0', '2', '3', '0', '2', 2023, 2);
    assert MonthDays[1] == 28 && IsValid(Date(2023, 2, 28));
  }

  /** A month outside 1..12 gives none. */
  lemma FileNameRejectsMonth13()
    ensures StringToDateEAFileName("202313") == None
  {
    MonthOnlyOfDigits('2', '0', '2', '3', '1', '3', 2023, 13);
  }

  /** The text form: "12 Jan 2023" is 12 January 2023. */
  lemma TextExample()
    ensures StringToDateEAXml("12 Jan 2023") == Some(Date(2023, 1, 12))
  {
    TextExampleDay();
    TextExampleMonth();
    TextExampleYear();
  }

  lemma TextExampleDay()
    ensures FirstTokenValue(DayToken, "12 Jan 2023") == 12
  {
    var s := "12 Jan 2023";
    assert s[0..2] == "12";
    DecimalValueTwoDigits('1', '2');
    assert TokenLength(DayToken, s, 0) == 2;
  }

  lemma TextExampleMonth()
    ensures FirstTokenValue(MonthToken, "12 Jan 2023") == 1
  {
    var s := "12 Jan 2023";
    assert s[3..6] == MonthAbbreviations[0];
    assert TokenLength(MonthToken, s, 3) == 3;
    forall j | 0 <= j < 3 ensures TokenLength(MonthToken, s, j) == 0 {
      NoMonthAtLowerCase(s, j);
    }
    FirstTokenAt(MonthToken, s, 3);
    MonthNumberOf(1);
  }

  lemma TextExampleYear()
    ensures FirstTokenValue(YearToken, "12 Jan 2023") == 2023
  {
    var s := "12 Jan 2023";
    assert s[7..11] == "2023";
    DecimalValueFourDigits('2', '0', '2', '3');
    assert TokenLength(YearToken, s, 7) == 4;
    forall j | 0 <= j < 7 ensures TokenLength(YearToken, s, j) == 0 {
      if j == 0 {
        assert s[0..4][2] == ' ';
      } else if j == 3 {
        assert s[3..7][0] == 'J';
      } else if j == 6 {
        assert s[6..10][0] == ' ';
      } else {
        assert IsWordChar(s[j - 1]);
      }
    }
    FirstTokenAt(YearToken, s, 7);
  }

  /** A capitalised word that is no month abbreviation is not a month: "12 Xyz 2023" gives none. */
  lemma TextUnknownMonth()
    ensures StringToDateEAXml("12 Xyz 2023") == None
  {
    var s := "12 Xyz 2023";
    forall j | 0 <= j <= |s| ensures TokenLength(MonthToken, s, j) == 0 {
      if j == 3 {
        assert s[3..6] == "Xyz";
      } else {
        NoMonthAtLowerCase(s, j);
      }
    }
    NoToken(MonthToken, s);
  }

  /** A lower-case month name is not a month: "12 jan 2023" gives none. */
  lemma TextLowerCaseMonth()
    ensures StringToDateEAXml("12 jan 2023") == None
  {
    var s := "12 jan 2023";
    forall j | 0 <= j < |s| ensures !IsAsciiUpper(s[j]) {
    }
    NoCapitalNoMonth(s);
  }
}
