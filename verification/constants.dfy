/** The tool's shared constants: argument lengths, flags, sentinel dates, the month table. */
module Constants {
  import opened Calendar

  const ExpectedDateArgumentLengthShort: nat := 10
  const ExpectedDateArgumentLengthLong: nat := 11

  /** Flags are lower case; they are matched against the lower-cased query. */
  const StartDateStrArg: string := "-sd"
  const EndDateStrArg: string := "-ed"

  /** A default-constructed year_month_day: the "unset" date. */
  const DefaultDate: Date := Date(0, 0, 0)
  const InvalidDate: Date := Date(5000, 99, 99)

  const AllContainersURL: string := "https://emidatasets.blob.core.windows.net/publicdata?restype=container&comp=list&prefix="

  datatype FileExtension = PDF | TXT | CSV | ZIP | GDX | UNSUPPORTED | NONE

  /** Days in each month, February without the leap day. */
  const MonthDays: seq<int> := [31, 28, 31, 30, 31, 30, 31, 31, 30, 31, 30, 31]

  /** The table never exceeds the real month length, and equals it outside leap years. */
  lemma MonthDaysFitEveryYear(y: int, m: int)
    requires 1 <= m <= 12
    ensures |MonthDays| == 12
    ensures 1 <= MonthDays[m - 1] <= LastDayOfMonth(y, m)
    ensures !IsLeapYear(y) ==> MonthDays[m - 1] == LastDayOfMonth(y, m)
    ensures m == 2 ==> MonthDays[m - 1] == 28
  {
  }

  /** Neither sentinel is a real date, so no parsed (valid) date equals either. */
  lemma SentinelsAreInvalid(d: Date)
    requires IsValid(d)
    ensures !IsValid(DefaultDate) && !IsValid(InvalidDate)
    ensures d != DefaultDate && d != InvalidDate
  {
  }
}
