# EADataGrabber candidate discovery, in Dafny

EADataGrabber lists and downloads the Electricity Authority's public datasets from an Azure
blob store. This project models the part of the tool that works out which blobs a query
selects:

- **date parsing**: the CLI form `YYYY?MM?DD`, the file-name form `YYYYMM[DD]`, the free-text
  form that reads `Last-Modified` values, and `ParseDate`, which tries the three in that order;
- **listing parsing**: the case-insensitive `<tag>(.*?)</tag>` extractors, the URL date token,
  and `ParseEAXML`, which turns `<Blob>` blocks into `BlobContainer` records and captures
  `<NextMarker>`;
- **query handling**: the `-sd`/`-ed` arguments, the query path, the paginated
  `RunGetContainers` loop and the date filter of `FuzzyFindContainers`;
- **helpers**: the string and path helpers of the Windows utility file, curl's write
  callback, the extension classifier and the download dispatch;
- **constants**: the month-length table, argument lengths, flags and sentinel dates.

Dates are `Date(year, month, day)` triples with the validity test of
`std::chrono::year_month_day::ok()`. Their order is lexicographic. The default-constructed
date `Date(0, 0, 0)` is the "unset" sentinel.

Each regular expression is written as a scanner for that one pattern, with ECMAScript rules:
- the leftmost match wins;
- `.` does not cross `\n` or `\r`;
- `.*?` stops at the first place the closing tag matches;
- an iterator resumes where the previous match ended.

`std::from_chars` reads an optional `-` and the longest run of leading digits. It fails only
when there is no digit.

State that the tool changes in place is imperative here:
- the response string curl writes into is the `StringBuffer` class;
- the loops of `ParseEAXML`, the vector extractor, `RunGetContainers` and the date filter are
  methods with loop invariants.

Each method is proved equal to a specification function, such as `AllMatches`, `RecordsOf`,
`MarkerAfter`, `Discover` or `Selected`. The properties the tool relies on are lemmas about
those functions.

The HTTP transport is a script of responses, one per request. A response is either a failed
transfer or the chunks curl delivers. A request beyond the script fails.

Modules:
- `Wrappers`: `Option`.
- `Text`: character classes, `from_chars`, `find`, `rfind`.
- `Calendar`: dates, validity, order.
- `Constants`.
- `DateUtils` and `DateExamples`.
- `XmlUtils` and `XmlExamples`.
- `WinUtils`.
- `CurlUtils`.
- `DataGrabber`: query handling, pagination, filter.

## Model

| member | source | states |
|---|---|---|
| Text.FromChars | EADataGrabber/DateUtilsWrap.cpp:93-106 | A slot read fails exactly when it starts with neither a digit nor `-` followed by a digit. A value read from n characters lies strictly between -10^n and 10^n. |
| Text.FromCharsPadded | EADataGrabber/DateUtilsWrap.cpp:93-106 | Reading the zero-padded rendering of a number that fits the slot gives the number back. |
| Text.FromCharsLeadingDigits | EADataGrabber/DateUtilsWrap.cpp:93-106 | A slot reads the value of its leading digits, whatever follows them. |
| Text.FromCharsNegatedDigits | EADataGrabber/DateUtilsWrap.cpp:93-106 | A leading `-` negates the value of the digits after it, whatever follows them. |
| Text.Find | EADataGrabber/EADataGrabber.cpp:41 | `find` gives the first occurrence at or after the start position, and none exactly when there is no occurrence there. |
| Text.RFind | EADataGrabber/WinUtilsWrap.cpp:46 | `rfind` gives the last position holding the character, and none exactly when the character is absent. |
| Calendar.MakeDateWrapHarmless | EADataGrabber/DateUtilsWrap.cpp:108-110 | For slot values in -99..99, the unsigned-char conversion of month and day never turns an invalid date valid. A valid result is the date as written. |
| Calendar.BeforeIsStrictTotalOrder | EADataGrabber/EADataGrabber.cpp:247-257 | The date comparison the filter uses is irreflexive, transitive, asymmetric and total. |
| Constants.MonthDaysFitEveryYear | EADataGrabber/Constants.hpp:50 | The table has 12 entries. Every entry is at most the true month length in every year and equals it in common years. February is 28. |
| Constants.SentinelsAreInvalid | EADataGrabber/Constants.hpp:16-17 | DefaultDate (0/0/0) and InvalidDate (5000/99/99) are both invalid, so no valid date equals either. |
| DateUtils.StringToDateCLIArg | EADataGrabber/DateUtilsWrap.cpp:84-115 | The result is none unless the input has exactly 10 characters. Every date returned passes `ok()`. |
| DateUtils.CliRoundTrip | EADataGrabber/DateUtilsWrap.cpp:93-110 | Every valid date with a four-digit year reads back from its `YYYY?MM?DD` rendering, whatever the two separators. |
| DateUtils.CliSameSlots | EADataGrabber/DateUtilsWrap.cpp:93-108 | Two 10-character inputs whose three slots read the same give the same result. |
| DateUtils.CliIgnoresSeparators | EADataGrabber/DateUtilsWrap.cpp:93-108 | Characters 4 and 7 are never examined: replacing them leaves the result unchanged. |
| DateUtils.CliOfDigits | EADataGrabber/DateUtilsWrap.cpp:93-114 | Ten characters with digits in the slots read as the numbers those digits spell: that date if valid, none otherwise. |
| DateUtils.CliSlots | EADataGrabber/DateUtilsWrap.cpp:93-114 | With zero-padded numbers in the slots, the result is that year/month/day if it is a valid date, and none otherwise. |
| DateUtils.StringToDateEAFileName | EADataGrabber/DateUtilsWrap.cpp:123-158 | The result is none outside lengths 6 to 8 and every date returned is valid. Below length 8 the day is the month's `MonthDays` entry. |
| DateUtils.FileNameOfDigits | EADataGrabber/DateUtilsWrap.cpp:132-157 | Eight digits read as the year, month and day they spell: that date if valid, none otherwise. |
| DateUtils.FileNameSlots | EADataGrabber/DateUtilsWrap.cpp:132-157 | With zero-padded numbers in the three slots of an 8-character name, the result is that date if valid, and none otherwise. |
| DateUtils.MonthOnlyOfDigits | EADataGrabber/DateUtilsWrap.cpp:137-157 | Six digits read as year and month, with the table's day for months 1..12 and 0 otherwise: that date if valid, none otherwise. |
| DateUtils.MonthOnlySlots | EADataGrabber/DateUtilsWrap.cpp:137-157 | In a 6-character name, the day is `MonthDays[month-1]` for months 1..12 and 0 otherwise. The result is that date if valid. |
| DateUtils.FileNameRoundTrip | EADataGrabber/DateUtilsWrap.cpp:123-158 | Every valid date with a four-digit year reads back from `YYYYMMDD`. |
| DateUtils.FileNameMonthOnly | EADataGrabber/DateUtilsWrap.cpp:142-153 | `YYYYMM` with month 1..12 always parses, to the table's last day of that month. |
| DateUtils.TokenLength | EADataGrabber/DateUtilsWrap.cpp:25-27 | A match of `\b\d{1,2}\b`, `\b\d{4}\b` or the month pattern covers digits only, or exactly one of the twelve abbreviations. |
| DateUtils.FindToken | EADataGrabber/DateUtilsWrap.cpp:36-66 | `regex_search` finds the leftmost match. Nothing matches before it, and none means nothing matches at all. |
| DateUtils.MonthNumber | EADataGrabber/DateUtilsWrap.cpp:46-54 | A matched abbreviation maps to a month 1..12 whose table entry is that abbreviation. |
| DateUtils.MonthNumberOf | EADataGrabber/DateUtilsWrap.cpp:46-53 | Each month's abbreviation maps back to that month. |
| DateUtils.FirstTokenValue | EADataGrabber/DateUtilsWrap.cpp:32-66 | The value read from the first match is below 10000, below 100 for the day, and 1..12 for a month. Without a match it is the initial 0. |
| DateUtils.StringToDateEAXml | EADataGrabber/DateUtilsWrap.cpp:22-76 | There is a result exactly when the month pattern matches, the first year read is positive, and (first year, first month, first day) is a valid date. That date is then the result. |
| DateUtils.MonthNamesAreCapitalisedWords | EADataGrabber/DateUtilsWrap.cpp:26 | Every month alternative is three letters and starts with a capital. |
| DateUtils.NoMonthAtLowerCase | EADataGrabber/DateUtilsWrap.cpp:26 | Every month abbreviation starts with a capital, so the month pattern matches nowhere that a capital does not start. |
| DateUtils.NoCapitalNoMonth | EADataGrabber/DateUtilsWrap.cpp:26 | The month pattern is case-sensitive: text without a capital letter has no month, so the text form gives none. |
| DateUtils.ParseDate | EADataGrabber/DateUtilsWrap.cpp:166-185 | `""` gives none. Otherwise the result is the first success among the CLI, file-name and text forms, tried in that order. It is none exactly when the input is empty or all three fail. Every result is valid and differs from both sentinels. |
| DateUtils.ParseDateCliRoundTrip | EADataGrabber/DateUtilsWrap.cpp:171-173 | ParseDate reads every CLI rendering of a valid four-digit-year date back. |
| DateUtils.ParseDateOfDigitToken | EADataGrabber/DateUtilsWrap.cpp:166-181 | On a 6- or 8-digit token ParseDate is exactly the file-name form. |
| DateUtils.ParseDateOfSixDigits | EADataGrabber/DateUtilsWrap.cpp:166-181 | On six digits ParseDate is the file-name form. |
| DateUtils.ParseDateOfEightDigits | EADataGrabber/DateUtilsWrap.cpp:166-181 | On eight digits ParseDate is the file-name form. |
| DateUtils.ImfDayToken | EADataGrabber/DateUtilsWrap.cpp:25 | In an IMF-fixdate the day pattern first matches the two-digit day. |
| DateUtils.ImfMonthToken | EADataGrabber/DateUtilsWrap.cpp:26 | In an IMF-fixdate the month pattern first matches the month abbreviation, which reads as the month written. |
| DateUtils.ImfYearToken | EADataGrabber/DateUtilsWrap.cpp:27 | In an IMF-fixdate the year pattern first matches the four-digit year. |
| DateUtils.ImfNoYearBefore | EADataGrabber/DateUtilsWrap.cpp:27 | No four-digit word starts before the year of an IMF-fixdate. |
| DateUtils.LastModifiedRoundTrip | EADataGrabber/DateUtilsWrap.cpp:22-76 | A Last-Modified value in IMF-fixdate form (section 7.1.1.1 of RFC 7231) parses to the date it spells, for years 1..9999. |
| DateExamples.CliExampleDashes | EADataGrabber/DateUtilsWrap.cpp:93-110 | `"2023-01-12"` gives 2023-01-12. |
| DateExamples.CliExampleSlashes | EADataGrabber/DateUtilsWrap.cpp:93-110 | `"2023/01/12"` gives 2023-01-12 as well. |
| DateExamples.CliLeapDay | EADataGrabber/DateUtilsWrap.cpp:110 | `"2024-02-29"` gives 2024-02-29. |
| DateExamples.CliRejectsMissingLeapDay | EADataGrabber/DateUtilsWrap.cpp:110-114 | `"2023-02-29"` gives none. |
| DateExamples.CliIgnoresTrailingJunk | EADataGrabber/DateUtilsWrap.cpp:98-101 | `"2023-1x-05"` gives 2023-01-05: the slot reads only its leading digits. |
| DateExamples.FileNameExampleFullDate | EADataGrabber/DateUtilsWrap.cpp:175-177 | ParseDate(`"20230112"`) gives 2023-01-12. |
| DateExamples.FileNameExampleMonthOnly | EADataGrabber/DateUtilsWrap.cpp:148-150 | ParseDate(`"202402"`) gives 2024-02-28: the table has no leap day. |
| DateExamples.MonthOnlyName2024 | EADataGrabber/DateUtilsWrap.cpp:137-157 | `"202402"` reads as 2024-02-28 in the file-name form. |
| DateExamples.MonthOnlyName2023 | EADataGrabber/DateUtilsWrap.cpp:137-157 | `"202302"` reads as 2023-02-28 in the file-name form. |
| DateExamples.FileNameExampleMonthOnlyCommonYear | EADataGrabber/DateUtilsWrap.cpp:148-150 | ParseDate(`"202302"`) gives 2023-02-28. |
| DateExamples.FileNameRejectsMonth13 | EADataGrabber/DateUtilsWrap.cpp:149-157 | `"202313"` gives none. |
| DateExamples.TextExample | EADataGrabber/DateUtilsWrap.cpp:22-76 | `"12 Jan 2023"` gives 2023-01-12. |
| DateExamples.TextUnknownMonth | EADataGrabber/DateUtilsWrap.cpp:26 | `"12 Xyz 2023"` gives none. |
| DateExamples.TextLowerCaseMonth | EADataGrabber/DateUtilsWrap.cpp:26 | `"12 jan 2023"` gives none. |
| XmlUtils.LazyEnd | EADataGrabber/XMLUtils.cpp:20 | `(.*?)` stops at the first position where the closing tag matches, ignoring case. No line terminator may come before it, and none means no such position exists. |
| XmlUtils.ElementAtMeaning | EADataGrabber/XMLUtils.cpp:20 | A match at i is opening tag, shortest one-line inner text, then closing tag. With an opening tag but no match, no closing tag is reachable on the line. |
| XmlUtils.ElementAtPlain | EADataGrabber/XMLUtils.cpp:20 | An opening tag, text without `<` or a line terminator, and a closing tag form a match whose inner text is that text. |
| XmlUtils.MatchAt | EADataGrabber/XMLUtils.cpp:105 | The listing pattern tries the Blob alternative before the NextMarker one. A match covers the text it reports. |
| XmlUtils.FirstMatch | EADataGrabber/XMLUtils.cpp:107 | The search finds the match with the least start: nothing matches before it, and none means nothing matches at all. |
| XmlUtils.AllMatches | EADataGrabber/XMLUtils.cpp:22-25 | The iterator visits matches in increasing, non-overlapping order, each a genuine match. The first is the first search result. |
| XmlUtils.ExtractValuesFromXmlTag | EADataGrabber/XMLUtils.cpp:18-31 | The caller's vector is kept and followed by the inner text of every match, in document order. |
| XmlUtils.ExtractValueFromXmlTag | EADataGrabber/XMLUtils.cpp:39-54 | The result is the first of those values, or `""` when there is none. |
| XmlUtils.TwoElementValues | EADataGrabber/XMLUtils.cpp:18-31 | Two elements whose inner texts, and the text between them, hold no `<` and no line terminator yield both inner texts, in document order. |
| XmlExamples.ValuesExample | EADataGrabber/XMLUtils.cpp:18-31 | Tag `Blob` over `"<Blob>A</Blob>text<Blob>B</Blob>"` yields `["A", "B"]`. |
| XmlExamples.ElementIgnoresCase | EADataGrabber/XMLUtils.cpp:41 | Tags match in any case: `"<B>x</b>"` holds `"x"` for tag `"b"`. |
| XmlUtils.DateTokenLength | EADataGrabber/XMLUtils.cpp:64 | `\d{6}(?:\d{2})?` tries 8 digits before 6. A token is followed by a delimiter or the end, and there is none exactly when neither length fits. |
| XmlUtils.FindDateToken | EADataGrabber/XMLUtils.cpp:64-69 | The leftmost position that starts the string or follows a delimiter and begins a token. None means no such position. |
| XmlUtils.ExtractStrDateFromUrl | EADataGrabber/XMLUtils.cpp:63-77 | The first run of exactly 6 or 8 digits with start or `/ _ -` before it and end or `/ _ -` after it. Without such a run the result is none. |
| XmlUtils.OtherRunLengthsNeverMatch | EADataGrabber/XMLUtils.cpp:64 | A delimited digit run of any length other than 6 or 8 never matches. |
| XmlUtils.GetDateFromUrl | EADataGrabber/XMLUtils.cpp:86-93 | The file-name date of the token when it parses; otherwise, and when there is no token, the default date. The result is valid or the default. |
| XmlExamples.UrlTokenExample | EADataGrabber/XMLUtils.cpp:57-58 | `"Foo_20231231"` yields the token `"20231231"`. |
| XmlExamples.UrlDateExample | EADataGrabber/XMLUtils.cpp:84-91 | `"Foo_20231231"` gives 2023-12-31. |
| XmlExamples.UrlSevenDigitsExample | EADataGrabber/XMLUtils.cpp:84 | `"a_2023123"` has no token and gives the default date. |
| XmlUtils.BlockRecordFields | EADataGrabber/XMLUtils.cpp:116-126 | The record's URL is the block's first Url value. A missing or unreadable Last-Modified gives the default date. The file-name date is GetDateFromUrl of the URL. |
| XmlUtils.ParseEAXML | EADataGrabber/XMLUtils.cpp:103-131 | The caller's vector is kept, followed by one record per Blob-classified match in order. The marker is what the NextMarker matches leave, starting from the caller's value. |
| XmlUtils.ParseStep | EADataGrabber/XMLUtils.cpp:115-130 | A Blob match appends its record and leaves the marker. Otherwise the records are unchanged and a NextMarker match sets the marker. |
| XmlUtils.RecordsOfAppend | EADataGrabber/XMLUtils.cpp:110-127 | The records of consecutive stretches of matches concatenate, so entries are only ever appended. |
| XmlUtils.OneRecordPerBlock | EADataGrabber/XMLUtils.cpp:115-127 | There are exactly as many records as Blob blocks, and the k-th record is built from the k-th block alone. |
| XmlUtils.UnclassifiedMatchesAddNothing | EADataGrabber/XMLUtils.cpp:105-128 | Matches whose text lacks the case-sensitive `/Blob` and `<NextMarker>` add no record and leave the marker, for example lower-case `<blob>` blocks. |
| XmlUtils.MarkerUnchanged | EADataGrabber/XMLUtils.cpp:128-130 | With no NextMarker block the marker is left as it was. |
| XmlUtils.MarkerIsLast | EADataGrabber/XMLUtils.cpp:128-130 | Otherwise the marker is the inner text of the last NextMarker block. |
| WinUtils.ToLowercase | EADataGrabber/WinUtilsWrap.cpp:22-27 | The result has the same length, equals the input ignoring case, and has no capital. Other characters are unchanged. |
| WinUtils.ToLowercaseIdempotent | EADataGrabber/WinUtilsWrap.cpp:22-27 | Lower-casing twice is lower-casing once. |
| WinUtils.ToLowercaseAppend | EADataGrabber/WinUtilsWrap.cpp:22-27 | Lower-casing commutes with concatenation. |
| WinUtils.FindFirstNotOf | EADataGrabber/WinUtilsWrap.cpp:30 | The first index holding another character; none exactly when every character is that one. |
| WinUtils.FindLastNotOf | EADataGrabber/WinUtilsWrap.cpp:34 | The last such index; none exactly when every character is that one. |
| WinUtils.Substr | EADataGrabber/WinUtilsWrap.cpp:36 | `substr(pos, count)` is the slice at pos of length min(count, size - pos). |
| WinUtils.RemoveLeadingWhitespace | EADataGrabber/WinUtilsWrap.cpp:29-37 | All-space input, the empty string included, comes back unchanged. Other input comes back strictly shorter, and as a prefix of itself when it starts with a non-space. |
| WinUtils.RemoveLeadingWhitespaceAfterSpaces | EADataGrabber/WinUtilsWrap.cpp:34-36 | With leading spaces the result starts with the whole text between the spaces. Anything more is trailing spaces. |
| WinUtils.RemoveLeadingWhitespaceWithoutSpaces | EADataGrabber/WinUtilsWrap.cpp:34-36 | Without a leading space the result is the text minus its last character. |
| WinUtils.RemoveLeadingWhitespaceExampleSpaces | EADataGrabber/WinUtilsWrap.cpp:36 | `"  ab  "` gives `"ab "`; the trim gives `"ab"`. |
| WinUtils.RemoveLeadingWhitespaceExampleNoSpaces | EADataGrabber/WinUtilsWrap.cpp:36 | `"abc"` gives `"ab"`; the trim gives `"abc"`. |
| WinUtils.TrimSpaces | EADataGrabber/WinUtilsWrap.cpp:29-37 | The intended trim gives `""` exactly for all-space input. Otherwise the result has no space at either end. |
| WinUtils.TrimSpacesOf | EADataGrabber/WinUtilsWrap.cpp:29-37 | The trim recovers any unpadded text from between two runs of spaces. |
| WinUtils.TrimSpacesIdempotent | EADataGrabber/WinUtilsWrap.cpp:29-37 | Trimming twice is trimming once. |
| WinUtils.GetFileExtension | EADataGrabber/WinUtilsWrap.cpp:45-53 | A non-empty result is the text after the last `.`, contains no `.` or `/`, and needs a `/` in the path. `""` when either character is absent. |
| WinUtils.GetFileExtensionOf | EADataGrabber/WinUtilsWrap.cpp:45-53 | A path with a `/` ending in `.` + e has extension e. |
| WinUtils.GetFileName | EADataGrabber/WinUtilsWrap.cpp:61-69 | A non-empty result is the text after the last `/`. The result is `""` when there is no `/`. |
| WinUtils.GetFileNameOf | EADataGrabber/WinUtilsWrap.cpp:61-69 | The name after the last `/` comes back whole, extension included. |
| WinUtils.BareFileName | EADataGrabber/WinUtilsWrap.cpp:48 | `"file.txt"` has neither name nor extension by these rules. |
| CurlUtils.StringBuffer.constructor | EADataGrabber/EADataGrabber.cpp:126 | The response buffer starts empty. |
| CurlUtils.StringBuffer.Clear | EADataGrabber/EADataGrabber.cpp:145 | Clearing empties the buffer. |
| CurlUtils.WriteCallback | EADataGrabber/CurlUtilsWrap.cpp:27-31 | Appends exactly size*nmemb characters of the data to the buffer, keeps its earlier contents and returns size*nmemb. |
| CurlUtils.ConcatAppend | EADataGrabber/CurlUtilsWrap.cpp:27-31 | The text of a response is the concatenation of its chunks, whichever way they are split. |
| CurlUtils.PerformListingRequest | EADataGrabber/CurlUtilsWrap.cpp:186-198 | A failed transfer returns 1. A delivered one returns 0 after the buffer has received the response's chunks in order. |
| CurlUtils.ConvertStrToFileExt | EADataGrabber/CurlUtilsWrap.cpp:247-264 | Never NONE. UNSUPPORTED exactly for names other than the five lower-case ones. |
| CurlUtils.ExtensionRoundTrip | EADataGrabber/CurlUtilsWrap.cpp:247-262 | Classification and naming are inverse on the five supported extensions. |
| CurlUtils.ExtensionCaseSensitive | EADataGrabber/CurlUtilsWrap.cpp:247-264 | `"PDF"`, `"Csv"` and `""` are UNSUPPORTED. |
| CurlUtils.Route | EADataGrabber/CurlUtilsWrap.cpp:158-171 | No route exactly for UNSUPPORTED and NONE. The text route exactly for TXT and CSV. |
| CurlUtils.PerformDownload | EADataGrabber/CurlUtilsWrap.cpp:154-178 | 1 without a download for an unsupported extension; otherwise the routed download's result. |
| CurlUtils.RouteByName | EADataGrabber/CurlUtilsWrap.cpp:158-171 | `txt`/`csv` take the text route and `pdf`/`zip`/`gdx` the binary route. Any other name returns 1. |
| DataGrabber.SpaceFreeRun | EADataGrabber/EADataGrabber.cpp:44 | The run from i holds no space and ends at a space or the end of the input. |
| DataGrabber.ExtractInputArguments | EADataGrabber/EADataGrabber.cpp:40-61 | None when the flag is absent. A value has 10 or 11 characters. |
| DataGrabber.ExtractInputArgumentsValue | EADataGrabber/EADataGrabber.cpp:43-58 | A value sits one character past the first flag occurrence, contains no space, and is followed by a space or the end. |
| DataGrabber.ValueAt | EADataGrabber/EADataGrabber.cpp:43-58 | The text read from a start position is 10 or 11 characters of the input from there, without a space, and ends at a space or the end. |
| DataGrabber.ValueAtRun | EADataGrabber/EADataGrabber.cpp:44-55 | From a start inside the input, the text is the space-free run there exactly when that run has 10 or 11 characters, and none otherwise. |
| DataGrabber.ArgumentEnd | EADataGrabber/EADataGrabber.cpp:44-48 | The end is the next space from the start, or the input's length when there is none or the start is past the end. |
| DataGrabber.ExtractInputArgumentsRun | EADataGrabber/EADataGrabber.cpp:43-58 | When the flag is not last, the value is the space-free run after the skipped character, exactly when that run has 10 or 11 characters. |
| DataGrabber.ExtractInputArgumentsAtEnd | EADataGrabber/EADataGrabber.cpp:46-53 | A flag at the very end gives none: the size_t length wraps. |
| DataGrabber.ResolveBound | EADataGrabber/EADataGrabber.cpp:76-87 | A bound is valid or the default, and the default when the value is missing or not 10 characters long. |
| DataGrabber.ExtractSearchDatesCLI | EADataGrabber/EADataGrabber.cpp:69-89 | A bound is its flag's value in the lower-cased input, read in the CLI form, when that value exists and reads as a date. Otherwise it is the default date. Each bound is valid or the default. |
| DataGrabber.SearchDatesIgnoreCase | EADataGrabber/EADataGrabber.cpp:73-74 | The input's case does not change the bounds, so `-SD` and `-Ed` work. |
| DataGrabber.BoundsAreIndependent | EADataGrabber/EADataGrabber.cpp:70-88 | Each bound depends only on its own flag's value. |
| DataGrabber.ElevenCharacterValueIsUnset | EADataGrabber/EADataGrabber.cpp:76-81 | An 11-character start value passes the length check but always leaves the bound unset. |
| DataGrabber.StartFlagSetsStart | EADataGrabber/EADataGrabber.cpp:69-89 | `-sd` written in lower case, then any one character, then a CLI date whose two separators are not spaces, sets the start bound to that date. This holds wherever the flag stands when the text before it holds no `-sd` in any case. `SearchDatesIgnoreCase` carries this to every query whose lower-case form has that shape, such as one written with `-SD`. |
| DataGrabber.EndFlagSetsEnd | EADataGrabber/EADataGrabber.cpp:69-89 | The same for `-ed` (in lower case, then any one character) and the end bound. |
| DataGrabber.QueryWithBothDates | EADataGrabber/EADataGrabber.cpp:69-89 | A query `path -sd <date> -ed <date>` has that path as its query path, that start bound and that end bound. |
| DataGrabber.FlagSetsValue | EADataGrabber/EADataGrabber.cpp:40-58 | In the lower-cased query, the flag's value is the ten-character CLI date written one character after it, with its separators lower-cased. |
| DataGrabber.FlagValueAt | EADataGrabber/EADataGrabber.cpp:40-58 | With the first flag occurrence at p, the value is the ten non-space characters after the skipped one, when a space or the end follows them. |
| DataGrabber.DocumentedQuery | EADataGrabber/EADataGrabber.cpp:69-89 | `"Datasets/Wholesale -sd 2023-01-01 -ed 2023-12-31"` has path `"Datasets/Wholesale"`, start 2023-01-01 and end 2023-12-31. |
| DataGrabber.QueryPath | EADataGrabber/EADataGrabber.cpp:212-235 | `^\s*[^-\s]+` gives a prefix of the input with no `-`. It is the leading whitespace and the non-space run after it, stopping at the first whitespace, `-` or end. It is `""` exactly when no path character follows the leading whitespace. |
| DataGrabber.QueryPathOf | EADataGrabber/EADataGrabber.cpp:212-235 | A path followed by whitespace or `-` comes back whole. |
| DataGrabber.QueryPathOfIndented | EADataGrabber/EADataGrabber.cpp:212-235 | After leading whitespace, a path followed by whitespace or `-` comes back whole, with the whitespace kept. |
| DataGrabber.QueryPathBeforeFlags | EADataGrabber/EADataGrabber.cpp:212 | `"Datasets/Wholesale"`, a space, then `"-sd 2023-01-01 -ed 2023-12-31"` gives `"Datasets/Wholesale"`. |
| DataGrabber.QueryPathStopsAtDash | EADataGrabber/EADataGrabber.cpp:212 | `"Datasets/Foo"` + `"-"` + `"Bar"` gives `"Datasets/Foo"`. |
| DataGrabber.QueryPathOfFlagOnly | EADataGrabber/EADataGrabber.cpp:230-235 | Input starting with `-` gives `""`. |
| DataGrabber.Crawl | EADataGrabber/EADataGrabber.cpp:131-156 | A run of the loop starts with the request it is given. |
| DataGrabber.RunGetContainers | EADataGrabber/EADataGrabber.cpp:125-157 | The caller's vector is kept, followed by the records of the whole listing. The requests made are exactly those of the listing. |
| DataGrabber.FirstFetchFails | EADataGrabber/EADataGrabber.cpp:133-136 | If the first fetch fails the vector is unchanged, after one request. |
| DataGrabber.CrawlStep | EADataGrabber/EADataGrabber.cpp:141-155 | A page with a marker is followed by a request carrying that marker. A failed follow-up ends the run with the records gathered so far. |
| DataGrabber.CarriesMarkersCons | EADataGrabber/EADataGrabber.cpp:141-152 | Putting a request in front of the follow-ups from the next page keeps every follow-up tied to its page's marker, when the new second request carries the current page's marker. |
| DataGrabber.CrawlRequests | EADataGrabber/EADataGrabber.cpp:141-152 | Every follow-up request carries the marker of the page that answered the request before it. That page was delivered and left a non-empty marker. There is at most one request per response, plus the failing one. |
| DataGrabber.TwoPages | EADataGrabber/EADataGrabber.cpp:138-156 | Two pages, the first with a marker: both pages' records in page order, after the first request and one follow-up. |
| DataGrabber.FilterContainers | EADataGrabber/EADataGrabber.cpp:240-261 | With both bounds unset the input is returned unchanged; otherwise the passing records, in order. |
| DataGrabber.SelectedMembers | EADataGrabber/EADataGrabber.cpp:244-261 | A record is selected exactly when it is listed and passes the test: after the start only, before the end only, or strictly between. |
| DataGrabber.SelectedAppend | EADataGrabber/EADataGrabber.cpp:244-261 | Filtering distributes over concatenation, so order is preserved. |
| DataGrabber.NoBoundSelectsNothing | EADataGrabber/EADataGrabber.cpp:240-242 | With both bounds unset the test itself rejects everything, which is why the early return is needed. |
| DataGrabber.BoundsAreExclusive | EADataGrabber/EADataGrabber.cpp:247-257 | A record dated exactly on a set bound is dropped. |
| DataGrabber.DefaultDatedRecords | EADataGrabber/EADataGrabber.cpp:246-255 | A record with the default date is dropped under a start bound of year 0 or later and kept under a negative-year start bound alone. Under an end bound alone of year 0 or later it is kept. |
| DataGrabber.FuzzyFindContainers | EADataGrabber/EADataGrabber.cpp:204-264 | A typed `x` in any case gives nothing. Otherwise: the listing for the query path, filtered by the query's dates. |

## Left out

- Console output is out: prompts, colours, screen clearing, `PrintBlobContainer` and the
  warning `ParseDate` prints when every form fails. None of it affects a result.
- The interactive parts of the tool are out: `main`, `RunDownload` and
  `ChangeOutputDirectory`. They are loops over `std::getline` and Windows calls.
  Both `RunDownload` (on the query, before `FuzzyFindContainers`) and `ChangeOutputDirectory`
  (on the path) call `removeLeadingWhitespace`, and only when the line's first character is a
  space (EADataGrabber/EADataGrabber.cpp:175-177 and 292-294). That helper is modelled; the
  call sites are not.
- The prompt of `FuzzyFindContainers` is the `typedLine` parameter: the line `std::getline`
  reads when `preDefinedInput` is empty (EADataGrabber/EADataGrabber.cpp:216-219), taken as
  read; nothing trims it. The line `RunDownload` passes, after any `removeLeadingWhitespace`,
  is `preDefinedInput`. That line is never empty, because `RunDownload` leaves its loop only
  with a non-empty line (EADataGrabber/EADataGrabber.cpp:279-285) and the trim of a line
  starting with a space keeps its first non-space character. So the prompt branch is not
  reached from `RunDownload`.
- The libcurl transport is out, including the per-request URL strings. The requests are
  recorded as `Request` values, and `URL` shows how each would be written.
- The file downloads (`DownloadTextFile`, `DownloadBinaryFile`, `HandleCurlResponse`) and curl
  set-up and tear-down are out. They are network and file I/O, and their 0/1 results are
  parameters of `PerformDownload`.
- `getDownloadsFolderPath` and `directoryExists` are out: they are Windows shell and
  filesystem calls.
- `std::regex` in general is out. Only the seven patterns the core uses are modelled, each as
  a scanner:
  - the day pattern `\b\d{1,2}\b` (EADataGrabber/DateUtilsWrap.cpp:25);
  - the month alternation (EADataGrabber/DateUtilsWrap.cpp:26);
  - the year pattern `\b\d{4}\b` (EADataGrabber/DateUtilsWrap.cpp:27);
  - the query path `^\s*[^-\s]+` (EADataGrabber/EADataGrabber.cpp:212);
  - the element pattern `<tag>(.*?)</tag>`, ignoring case (EADataGrabber/XMLUtils.cpp:20 and 41);
  - the URL date token (EADataGrabber/XMLUtils.cpp:64);
  - the Blob/NextMarker listing alternation (EADataGrabber/XMLUtils.cpp:105).
- Tag names are inserted into the pattern as literal text. Tags that contain regex
  metacharacters are not modelled.
- `\s` is the C-locale `isspace` set, `\w` is ASCII letters, digits and `_`, and `std::tolower`
  maps only `A`-`Z`. Other locales and multi-byte text are out.
- CurlUtils.PerformListingRequest: a failed transfer is taken to deliver nothing before it
  fails. curl may have written part of a page, which the loop never reads again.
- DataGrabber.ExtractInputArguments: `size_t` is modelled as 64 bits. Inputs are taken to be
  shorter than 2^64 characters, so only the wrap of a start position past the end matters.
- XmlUtils.GetDateFromUrl: when no token is found the function falls off its end without a
  `return` (undefined behaviour). The model returns the default date, as its doc comment says.
- XmlUtils.ParseEAXML and XmlUtils.ExtractValuesFromXmlTag: the caller's vector and the
  `nextMarker` pointer are value parameters and results, so aliasing between them is not
  modelled.
- The doc comment of `_ExtractStrDateFromUrl` gives `"20231221"` as the result for
  `…_20231231`. The code returns `"20231231"`, and the model follows the code.
- DataGrabber.DefaultDatedRecords: a record with no date in its name is not always dropped
  by a bounded search. It is kept under an end-only bound of year 0 or later, and under a
  start-only bound with a negative year, which `"-001-01-01"` produces. The model follows the
  code.

## Findings

| source | as written | input that shows it | evidently intended | confidence | as-written member | corrected member |
|---|---|---|---|---|---|---|
| EADataGrabber/WinUtilsWrap.cpp:36 | `substr(startPos, lastPos)` passes the index of the last non-space as a count. The computed `strRange` is unused. | `"  ab  "` gives `"ab "`, and `"abc"` gives `"ab"`. Both callers pass only lines that start with a space (EADataGrabber/EADataGrabber.cpp:175, 292), so in the program the effect is the kept trailing spaces. | `substr(startPos, strRange)`, which trims the spaces at both ends: `"ab"` and `"abc"` | high (not executed) | WinUtils.RemoveLeadingWhitespaceExampleSpaces | WinUtils.TrimSpacesOf |
