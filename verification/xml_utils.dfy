/**
 * The listing parser. Three regular expressions do the work in the tool, each written out
 * here as a scanner for that one pattern:
 *   <tag>(.*?)</tag>                                      case-insensitive
 *   (<Blob>(.*?)</Blob>|<NextMarker>(.*?)</NextMarker>)    case-insensitive
 *   (?:^|[/_-])(\d{6}(?:\d{2})?)(?:[/_-]|$)
 * with ECMAScript semantics: the leftmost match wins, `.` does not cross a line terminator,
 * `.*?` stops at the first place the rest of the pattern matches, alternatives are tried in
 * order, and an iterator resumes the search where the previous match ended.
 */
module XmlUtils {
  import opened Wrappers
  import opened Text
  import opened Calendar
  import opened Constants
  import opened DateUtils
  import opened CurlUtils

  // ---------------------------------------------------------------------------
  // Element scanner

  /** p occurs at i, compared character by character after std::tolower (regex::icase). */
  predicate OccursAtIgnoreCase(s: string, p: string, i: nat) {
    i + |p| <= |s| && EqualsIgnoreCase(s[i..i + |p|], p)
  }

  /** No line terminator in s[a..b]: what `.*` may run over. */
  predicate OnOneLine(s: string, a: nat, b: nat)
    requires a <= b <= |s|
  {
    forall j :: a <= j < b ==> !IsLineTerminator(s[j])
  }

  function OpenTag(tag: string): string { "<" + tag + ">" }
  function CloseTag(tag: string): string { "</" + tag + ">" }

  /**
   * Where a lazy `(.*?)` that starts at `from` stops: the first position of the closing
   * text, provided no line terminator comes before it.
   */
  function LazyEnd(s: string, close: string, from: nat): (r: Option<nat>)
    requires from <= |s|
    decreases |s| - from
    ensures r.Some? ==> from <= r.value && OccursAtIgnoreCase(s, close, r.value) && OnOneLine(s, from, r.value)
    ensures r.Some? ==> forall j :: from <= j < r.value ==> !OccursAtIgnoreCase(s, close, j)
    ensures r.None? ==> forall e :: from <= e <= |s| && OccursAtIgnoreCase(s, close, e) ==> !OnOneLine(s, from, e)
  {
    if OccursAtIgnoreCase(s, close, from) then Some(from)
    else if from == |s| || IsLineTerminator(s[from]) then None
    else LazyEnd(s, close, from + 1)
  }

  /** The patterns of the listing parser. */
  datatype Pattern = Element(tag: string) | BlobOrNextMarker

  /**
   * A match: it covers s[start..end] (the text of group 0, and of group 1 for the listing
   * pattern), `inner` is what the lazy group captured, and `marker` records that the
   * NextMarker alternative matched.
   */
  datatype Match = Match(start: nat, end: nat, whole: string, inner: string, marker: bool)

  /** `<tag>(.*?)</tag>` anchored at i. */
  function ElementAt(tag: string, s: string, i: nat): (r: Option<Match>)
    ensures r.Some? ==> r.value.start == i < r.value.end <= |s| && r.value.whole == s[i..r.value.end] && !r.value.marker
  {
    var open, close := OpenTag(tag), CloseTag(tag);
    if !OccursAtIgnoreCase(s, open, i) then None
    else
      match LazyEnd(s, close, i + |open|)
      case None => None
      case Some(c) => Some(Match(i, c + |close|, s[i..c + |close|], s[i + |open|..c], false))
  }

  /**
   * What a match of the element pattern at i means: the opening tag at i, the inner text up
   * to the first closing tag, all on one line; and no match when the opening tag is there
   * but no closing tag follows on its line.
   */
  lemma ElementAtMeaning(tag: string, s: string, i: nat)
    ensures var r := ElementAt(tag, s, i);
      r.Some? ==>
      var a := i + |OpenTag(tag)|;
      var c := a + |r.value.inner|;
      && OccursAtIgnoreCase(s, OpenTag(tag), i)
      && c + |CloseTag(tag)| == r.value.end
      && s[a..c] == r.value.inner
      && OccursAtIgnoreCase(s, CloseTag(tag), c)
      && OnOneLine(s, a, c)
      && forall j :: a <= j < c ==> !OccursAtIgnoreCase(s, CloseTag(tag), j)
    ensures var r := ElementAt(tag, s, i);
      r.None? && OccursAtIgnoreCase(s, OpenTag(tag), i) ==>
      forall e :: i + |OpenTag(tag)| <= e <= |s| && OccursAtIgnoreCase(s, CloseTag(tag), e) ==>
        !OnOneLine(s, i + |OpenTag(tag)|, e)
  {
  }

  /** The pattern anchored at i; the Blob alternative is tried before the NextMarker one. */
  function MatchAt(p: Pattern, s: string, i: nat): (r: Option<Match>)
    ensures r.Some? ==> r.value.start == i < r.value.end <= |s| && r.value.whole == s[i..r.value.end]
    ensures p.Element? ==> r == ElementAt(p.tag, s, i)
  {
    match p
    case Element(tag) => ElementAt(tag, s, i)
    case BlobOrNextMarker =>
      match ElementAt("Blob", s, i)
      case Some(m) => Some(m)
      case None =>
        match ElementAt("NextMarker", s, i)
        case Some(m) => Some(m.(marker := true))
        case None => None
  }

  /** regex_search from `from`: the match with the least start. */
  function FirstMatch(p: Pattern, s: string, from: nat): (r: Option<Match>)
    decreases |s| - from
    ensures r.Some? ==> from <= r.value.start && MatchAt(p, s, r.value.start) == r
    ensures r.Some? ==> forall j :: from <= j < r.value.start ==> MatchAt(p, s, j).None?
    ensures r.None? ==> forall j :: from <= j ==> MatchAt(p, s, j).None?
  {
    if from >= |s| then None
    else
      match MatchAt(p, s, from)
      case Some(m) => Some(m)
      case None => FirstMatch(p, s, from + 1)
  }

  /** What an sregex_iterator visits from `from`: each search resumes where the last match ended. */
  function AllMatches(p: Pattern, s: string, from: nat): (r: seq<Match>)
    decreases |s| - from
    ensures forall k :: 0 <= k < |r| ==> from <= r[k].start < r[k].end <= |s| && MatchAt(p, s, r[k].start) == Some(r[k])
    ensures forall k :: 0 <= k < |r| - 1 ==> r[k].end <= r[k + 1].start
    ensures |r| > 0 <==> FirstMatch(p, s, from).Some?
    ensures |r| > 0 ==> r[0] == FirstMatch(p, s, from).value
  {
    match FirstMatch(p, s, from)
    case None => []
    case Some(m) => [m] + AllMatches(p, s, m.end)
  }

  /** The captured texts, in order. */
  function Values(ms: seq<Match>): (r: seq<string>)
    ensures |r| == |ms| && forall k :: 0 <= k < |ms| ==> r[k] == ms[k].inner
  {
    seq(|ms|, k requires 0 <= k < |ms| => ms[k].inner)
  }

  lemma ValuesCons(m: Match, ms: seq<Match>)
    ensures Values([m] + ms) == [m.inner] + Values(ms)
  {
  }

  /**
   * _ExtractValueFromXMLTag (vector overload): appends the inner text of every match, in
   * document order, to the caller's vector.
   */
  method ExtractValuesFromXmlTag(tag: string, xml: string, output: seq<string>) returns (result: seq<string>)
    ensures result == output + Values(AllMatches(Element(tag), xml, 0))
  {
    result := output;
    var pos := 0;
    while true
      invariant pos <= |xml|
      invariant result + Values(AllMatches(Element(tag), xml, pos)) == output + Values(AllMatches(Element(tag), xml, 0))
      decreases |xml| - pos
    {
      var m := FirstMatch(Element(tag), xml, pos);
      if m.None? {
        return;
      }
      ValuesCons(m.value, AllMatches(Element(tag), xml, m.value.end));
      result := result + [m.value.inner];
      pos := m.value.end;
    }
  }

  /** _ExtractValueFromXMLTag (single overload): the first of those values, or "". */
  function ExtractValueFromXmlTag(tag: string, xml: string): (r: string)
    ensures var all := Values(AllMatches(Element(tag), xml, 0));
      (|all| == 0 ==> r == "") && (|all| > 0 ==> r == all[0])
  {
    match FirstMatch(Element(tag), xml, 0)
    case None => ""
    case Some(m) => m.inner
  }

  /** The element is found where it sits, provided nothing before it opens one. */
  lemma {:induction false} FirstElementAt(tag: string, s: string, i: nat, from: nat)
    requires from <= i && MatchAt(Element(tag), s, i).Some?
    requires forall j :: from <= j < i ==> !OccursAtIgnoreCase(s, OpenTag(tag), j)
    ensures FirstMatch(Element(tag), s, from) == MatchAt(Element(tag), s, i)
    decreases i - from
  {
    if from < i {
      FirstElementAt(tag, s, i, from + 1);
    }
  }

  /** No match can start where the opening text is not. */
  lemma {:induction false} NoElementFrom(tag: string, s: string, from: nat)
    requires forall j :: from <= j < |s| ==> !OccursAtIgnoreCase(s, OpenTag(tag), j)
    ensures FirstMatch(Element(tag), s, from).None?
    decreases |s| - from
  {
    if from < |s| {
      NoElementFrom(tag, s, from + 1);
    }
  }

  /** Text that can neither start a tag nor end a line. */
  predicate PlainText(t: string) {
    forall j :: 0 <= j < |t| ==> t[j] != '<' && !IsLineTerminator(t[j])
  }

  /** No tag text occurs where a character other than '<' stands: only '<' lower-cases to '<'. */
  lemma NoTagAt(s: string, tag: string, j: nat)
    requires j < |s| && s[j] != '<'
    ensures !OccursAtIgnoreCase(s, OpenTag(tag), j) && !OccursAtIgnoreCase(s, CloseTag(tag), j)
  {
    var open, close := OpenTag(tag), CloseTag(tag);
    assert open[0] == '<' && close[0] == '<';
    if j + |open| <= |s| {
      assert s[j..j + |open|][0] == s[j];
    }
    if j + |close| <= |s| {
      assert s[j..j + |close|][0] == s[j];
    }
  }

  /** The lazy group runs over plain text up to the closing tag that follows it. */
  lemma {:induction false} LazyEndOverPlainText(s: string, tag: string, from: nat, c: nat)
    requires from <= c && OccursAtIgnoreCase(s, CloseTag(tag), c)
    requires forall j :: from <= j < c ==> s[j] != '<' && !IsLineTerminator(s[j])
    ensures LazyEnd(s, CloseTag(tag), from) == Some(c)
    decreases c - from
  {
    if from < c {
      NoTagAt(s, tag, from);
      LazyEndOverPlainText(s, tag, from + 1, c);
    }
  }

  /** Text written at i occurs there, in any case. */
  lemma OccursWhereWritten(s: string, p: string, i: nat)
    requires i + |p| <= |s| && s[i..i + |p|] == p
    ensures OccursAtIgnoreCase(s, p, i)
  {
  }

  lemma PlainSlice(s: string, a: nat, c: nat)
    requires a <= c <= |s| && PlainText(s[a..c])
    ensures forall j :: a <= j < c ==> s[j] != '<' && !IsLineTerminator(s[j])
  {
    forall j | a <= j < c ensures s[j] != '<' && !IsLineTerminator(s[j]) {
      assert s[j] == s[a..c][j - a];
    }
  }

  /** The element at i, given where its lazy group stops. */
  lemma ElementAtOf(tag: string, s: string, i: nat, c: nat, e: nat, inner: string)
    requires OccursAtIgnoreCase(s, OpenTag(tag), i) && i + |OpenTag(tag)| <= c && e == c + |CloseTag(tag)| <= |s|
    requires LazyEnd(s, CloseTag(tag), i + |OpenTag(tag)|) == Some(c) && s[i + |OpenTag(tag)|..c] == inner
    ensures ElementAt(tag, s, i) == Some(Match(i, e, s[i..e], inner, false))
  {
  }

  /** An element with plain inner text, ending at e, is matched where it stands, with that text. */
  lemma ElementAtPlain(tag: string, s: string, i: nat, inner: string, e: nat)
    requires PlainText(inner)
    requires e == i + |OpenTag(tag)| + |inner| + |CloseTag(tag)| <= |s|
    requires s[i..i + |OpenTag(tag)|] == OpenTag(tag)
    requires s[i + |OpenTag(tag)|..i + |OpenTag(tag)| + |inner|] == inner
    requires s[i + |OpenTag(tag)| + |inner|..e] == CloseTag(tag)
    ensures ElementAt(tag, s, i) == Some(Match(i, e, s[i..e], inner, false))
  {
    var open, close := OpenTag(tag), CloseTag(tag);
    var a := i + |open|;
    var c := a + |inner|;
    OccursWhereWritten(s, open, i);
    OccursWhereWritten(s, close, c);
    PlainSlice(s, a, c);
    LazyEndOverPlainText(s, tag, a, c);
    ElementAtOf(tag, s, i, c, e, inner);
  }

  /** Plain text holds no start of an element. */
  lemma NoElementOverPlain(tag: string, s: string, a: nat, c: nat, text: string)
    requires a <= c <= |s| && s[a..c] == text && PlainText(text)
    ensures forall j :: a <= j < c ==> !OccursAtIgnoreCase(s, OpenTag(tag), j)
  {
    forall j | a <= j < c ensures !OccursAtIgnoreCase(s, OpenTag(tag), j) {
      assert s[j] == s[a..c][j - a];
      NoTagAt(s, tag, j);
    }
  }

  /** One step of the iterator: the first element after `from` sits at i. */
  lemma AllMatchesFrom(tag: string, s: string, from: nat, i: nat, m: Match)
    requires from <= i && ElementAt(tag, s, i) == Some(m)
    requires forall j :: from <= j < i ==> !OccursAtIgnoreCase(s, OpenTag(tag), j)
    ensures AllMatches(Element(tag), s, from) == [m] + AllMatches(Element(tag), s, m.end)
  {
    FirstElementAt(tag, s, i, from);
  }

  lemma ValuesOfTwo(m1: Match, m2: Match)
    ensures Values([m1] + [m2]) == [m1.inner, m2.inner]
  {
  }

  /**
   * Two elements with plain text between them, laid out in s: the vector extractor collects
   * both inner texts, in document order.
   */
  lemma TwoPlainElements(tag: string, s: string, first: string, gap: string, second: string, e1: nat, i2: nat)
    requires PlainText(first) && PlainText(gap) && PlainText(second)
    requires e1 == |OpenTag(tag)| + |first| + |CloseTag(tag)| && i2 == e1 + |gap|
    requires |s| == i2 + |OpenTag(tag)| + |second| + |CloseTag(tag)|
    requires s[0..|OpenTag(tag)|] == OpenTag(tag) && s[|OpenTag(tag)|..|OpenTag(tag)| + |first|] == first
    requires s[|OpenTag(tag)| + |first|..e1] == CloseTag(tag) && s[e1..i2] == gap
    requires s[i2..i2 + |OpenTag(tag)|] == OpenTag(tag) && s[i2 + |OpenTag(tag)|..i2 + |OpenTag(tag)| + |second|] == second
    requires s[i2 + |OpenTag(tag)| + |second|..|s|] == CloseTag(tag)
    ensures Values(AllMatches(Element(tag), s, 0)) == [first, second]
  {
    var m1 := Match(0, e1, s[0..e1], first, false);
    var m2 := Match(i2, |s|, s[i2..|s|], second, false);
    assert AllMatches(Element(tag), s, 0) == [m1] + AllMatches(Element(tag), s, e1) by {
      ElementAtPlain(tag, s, 0, first, e1);
      AllMatchesFrom(tag, s, 0, 0, m1);
    }
    assert AllMatches(Element(tag), s, e1) == [m2] by {
      ElementAtPlain(tag, s, i2, second, |s|);
      NoElementOverPlain(tag, s, e1, i2, gap);
      AllMatchesFrom(tag, s, e1, i2, m2);
      assert AllMatches(Element(tag), s, |s|) == [];
    }
    ValuesOfTwo(m1, m2);
  }

  /** The same, for two elements written out one after the other. */
  lemma TwoElementValues(tag: string, first: string, gap: string, second: string)
    requires PlainText(first) && PlainText(gap) && PlainText(second)
    ensures Values(AllMatches(Element(tag),
      OpenTag(tag) + first + CloseTag(tag) + gap + OpenTag(tag) + second + CloseTag(tag), 0)) == [first, second]
  {
    var open, close := OpenTag(tag), CloseTag(tag);
    var s := open + first + close + gap + open + second + close;
    var e1 := |open| + |first| + |close|;
    var i2 := e1 + |gap|;
    SlicesOfTwoElements(s, open, first, close, gap, second, e1, i2);
    TwoPlainElements(tag, s, first, gap, second, e1, i2);
  }

  /** Where the pieces of two written-out elements sit. */
  lemma SlicesOfTwoElements(s: string, open: string, first: string, close: string, gap: string, second: string, e1: nat, i2: nat)
    requires s == open + first + close + gap + open + second + close
    requires e1 == |open| + |first| + |close| && i2 == e1 + |gap|
    ensures |s| == i2 + |open| + |second| + |close|
    ensures s[0..|open|] == open && s[|open|..|open| + |first|] == first
    ensures s[|open| + |first|..e1] == close && s[e1..i2] == gap
    ensures s[i2..i2 + |open|] == open && s[i2 + |open|..i2 + |open| + |second|] == second
    ensures s[i2 + |open| + |second|..|s|] == close
  {
    var t := open + first + close + gap;
    assert s == t + (open + second + close);
    assert s[..i2] == t;
    assert s[i2..] == open + second + close;
  }

  // ---------------------------------------------------------------------------
  // Date token of a URL

  predicate IsUrlDelimiter(c: char) { c == '/' || c == '_' || c == '-' }

  /** (?:^|[/_-]) just before q. */
  predicate TokenStartsAt(s: string, q: nat) {
    q <= |s| && (q == 0 || IsUrlDelimiter(s[q - 1]))
  }

  /** n digits at q followed by (?:[/_-]|$). */
  predicate DigitRunAt(s: string, q: nat, n: nat) {
    q + n <= |s| && AllDigits(s[q..q + n]) && (q + n == |s| || IsUrlDelimiter(s[q + n]))
  }

  /** \d{6}(?:\d{2})? with the greedy optional part tried first: 8, else 6, else no match (0). */
  function DateTokenLength(s: string, q: nat): (n: nat)
    ensures n == 0 || n == 6 || n == 8
    ensures n > 0 ==> DigitRunAt(s, q, n)
    ensures n == 0 <==> !DigitRunAt(s, q, 6) && !DigitRunAt(s, q, 8)
  {
    if DigitRunAt(s, q, 8) then 8 else if DigitRunAt(s, q, 6) then 6 else 0
  }

  /** Start of the leftmost date token at or after `from`. */
  function FindDateToken(s: string, from: nat): (r: Option<nat>)
    decreases |s| + 1 - from
    ensures r.Some? ==> from <= r.value && TokenStartsAt(s, r.value) && DateTokenLength(s, r.value) > 0
    ensures r.Some? ==> forall j :: from <= j < r.value && TokenStartsAt(s, j) ==> DateTokenLength(s, j) == 0
    ensures r.None? ==> forall j :: from <= j && TokenStartsAt(s, j) ==> DateTokenLength(s, j) == 0
  {
    if from > |s| then None
    else if TokenStartsAt(s, from) && DateTokenLength(s, from) > 0 then Some(from)
    else FindDateToken(s, from + 1)
  }

  /**
   * _ExtractStrDateFromUrl: the first run of exactly 6 or 8 digits that has start-of-string
   * or a delimiter on its left and end-of-string or a delimiter on its right.
   */
  function ExtractStrDateFromUrl(url: string): (r: Option<string>)
    ensures r.Some? <==> FindDateToken(url, 0).Some?
    ensures r.Some? ==> var q := FindDateToken(url, 0).value;
      (|r.value| == 6 || |r.value| == 8) && AllDigits(r.value)
      && TokenStartsAt(url, q) && DigitRunAt(url, q, |r.value|) && r.value == url[q..q + |r.value|]
  {
    match FindDateToken(url, 0)
    case None => None
    case Some(q) => Some(url[q..q + DateTokenLength(url, q)])
  }

  /** A bounded digit run of any other length than 6 or 8 is never a token. */
  lemma OtherRunLengthsNeverMatch(s: string, q: nat, n: nat)
    requires n != 6 && n != 8 && DigitRunAt(s, q, n)
    ensures DateTokenLength(s, q) == 0
  {
    if n > 6 {
      assert IsDigit(s[q..q + n][6]);
    }
    if n > 8 {
      assert IsDigit(s[q..q + n][8]);
    }
  }

  /**
   * GetDateFromUrl: the file-name date of the URL's token when it parses, and the default
   * date otherwise, including when there is no token at all.
   */
  function GetDateFromUrl(url: string): (r: Date)
    ensures r == DefaultDate || IsValid(r)
    ensures ExtractStrDateFromUrl(url).None? ==> r == DefaultDate
    ensures ExtractStrDateFromUrl(url).Some? ==>
      r == StringToDateEAFileName(ExtractStrDateFromUrl(url).value).GetOr(DefaultDate)
  {
    match ExtractStrDateFromUrl(url)
    case None => DefaultDate
    case Some(t) =>
      ParseDateOfDigitToken(t);
      ParseDate(t).GetOr(DefaultDate)
  }

  // ---------------------------------------------------------------------------
  // Listing page

  /** The record ParseEAXML builds from the text of one Blob match. */
  function BlockRecord(block: string): BlobContainer {
    var url := ExtractValueFromXmlTag("Url", block);
    var lastModified := ParseDate(ExtractValueFromXmlTag("Last-Modified", block)).GetOr(DefaultDate);
    BlobContainer(url, lastModified, GetDateFromUrl(url))
  }

  /**
   * A record's URL is the block's first Url value; its dates are valid or the default, and
   * a missing or unreadable Last-Modified value gives the default date.
   */
  lemma BlockRecordFields(block: string)
    ensures var b := BlockRecord(block);
      && b.url == ExtractValueFromXmlTag("Url", block)
      && (b.lastModified == DefaultDate || IsValid(b.lastModified))
      && (ParseDate(ExtractValueFromXmlTag("Last-Modified", block)).None? ==> b.lastModified == DefaultDate)
      && (ExtractValueFromXmlTag("Last-Modified", block) == "" ==> b.lastModified == DefaultDate)
      && b.fileNameDate == GetDateFromUrl(b.url)
      && (b.fileNameDate == DefaultDate || IsValid(b.fileNameDate))
  {
  }

  /** Classification is by case-sensitive substring search in the matched text. */
  predicate IsBlobMatch(m: Match) {
    Contains(m.whole, "/Blob")
  }

  predicate IsMarkerMatch(m: Match) {
    !IsBlobMatch(m) && Contains(m.whole, "<NextMarker>")
  }

  /** Group 3: the NextMarker text, or "" when the Blob alternative matched. */
  function MarkerGroup(m: Match): string {
    if m.marker then m.inner else ""
  }

  /** The records the matches contribute, in order. */
  function RecordsOf(ms: seq<Match>): seq<BlobContainer> {
    if |ms| == 0 then []
    else (if IsBlobMatch(ms[0]) then [BlockRecord(ms[0].whole)] else []) + RecordsOf(ms[1..])
  }

  /** The marker after the matches have been visited, starting from `marker`. */
  function MarkerAfter(ms: seq<Match>, marker: string): string {
    if |ms| == 0 then marker
    else MarkerAfter(ms[1..], if IsMarkerMatch(ms[0]) then MarkerGroup(ms[0]) else marker)
  }

  /**
   * ParseEAXML: appends one record per Blob match to the caller's vector and sets the
   * marker from each NextMarker match, visiting the matches in document order.
   */
  method ParseEAXML(output: seq<BlobContainer>, xml: string, nextMarker: string)
    returns (result: seq<BlobContainer>, marker: string)
    ensures result == output + RecordsOf(AllMatches(BlobOrNextMarker, xml, 0))
    ensures marker == MarkerAfter(AllMatches(BlobOrNextMarker, xml, 0), nextMarker)
  {
    result, marker := output, nextMarker;
    var pos := 0;
    while true
      invariant pos <= |xml|
      invariant result + RecordsOf(AllMatches(BlobOrNextMarker, xml, pos))
        == output + RecordsOf(AllMatches(BlobOrNextMarker, xml, 0))
      invariant MarkerAfter(AllMatches(BlobOrNextMarker, xml, pos), marker)
        == MarkerAfter(AllMatches(BlobOrNextMarker, xml, 0), nextMarker)
      decreases |xml| - pos
    {
      var next := FirstMatch(BlobOrNextMarker, xml, pos);
      if next.None? {
        assert AllMatches(BlobOrNextMarker, xml, pos) == [];
        return;
      }
      var m := next.value;
      ghost var rest := AllMatches(BlobOrNextMarker, xml, m.end);
      assert AllMatches(BlobOrNextMarker, xml, pos) == [m] + rest;
      ParseStep(result, marker, m, rest);
      if IsBlobMatch(m) {
        result := result + [BlockRecord(m.whole)];
      } else if IsMarkerMatch(m) {
        marker := MarkerGroup(m);
      }
      pos := m.end;
    }
  }

  /** What visiting one match does to the records and the marker. */
  lemma ParseStep(result: seq<BlobContainer>, marker: string, m: Match, rest: seq<Match>)
    ensures IsBlobMatch(m) ==>
      && result + RecordsOf([m] + rest) == (result + [BlockRecord(m.whole)]) + RecordsOf(rest)
      && MarkerAfter([m] + rest, marker) == MarkerAfter(rest, marker)
    ensures !IsBlobMatch(m) ==>
      && result + RecordsOf([m] + rest) == result + RecordsOf(rest)
      && MarkerAfter([m] + rest, marker) == MarkerAfter(rest, if IsMarkerMatch(m) then MarkerGroup(m) else marker)
  {
    RecordsOfCons(m, rest);
    MarkerAfterCons(m, rest, marker);
  }

  lemma RecordsOfCons(m: Match, rest: seq<Match>)
    ensures RecordsOf([m] + rest) == (if IsBlobMatch(m) then [BlockRecord(m.whole)] else []) + RecordsOf(rest)
  {
    assert ([m] + rest)[1..] == rest;
  }

  lemma MarkerAfterCons(m: Match, rest: seq<Match>, marker: string)
    ensures MarkerAfter([m] + rest, marker) == MarkerAfter(rest, if IsMarkerMatch(m) then MarkerGroup(m) else marker)
  {
    assert ([m] + rest)[1..] == rest;
  }

  /** Records of consecutive stretches of matches concatenate. */
  lemma {:induction false} RecordsOfAppend(a: seq<Match>, b: seq<Match>)
    ensures RecordsOf(a + b) == RecordsOf(a) + RecordsOf(b)
  {
    if |a| == 0 {
      assert a + b == b;
    } else {
      assert (a + b)[0] == a[0];
      assert (a + b)[1..] == a[1..] + b;
      RecordsOfAppend(a[1..], b);
    }
  }

  /** The texts of the Blob matches, in order. */
  function BlobBlocks(ms: seq<Match>): seq<string> {
    if |ms| == 0 then []
    else (if IsBlobMatch(ms[0]) then [ms[0].whole] else []) + BlobBlocks(ms[1..])
  }

  /** Exactly one record per Blob block, the k-th record built from the k-th block alone. */
  lemma {:induction false} OneRecordPerBlock(ms: seq<Match>)
    ensures |RecordsOf(ms)| == |BlobBlocks(ms)|
    ensures forall k :: 0 <= k < |RecordsOf(ms)| ==> RecordsOf(ms)[k] == BlockRecord(BlobBlocks(ms)[k])
  {
    if |ms| > 0 {
      OneRecordPerBlock(ms[1..]);
    }
  }

  /** Matches that are neither Blob nor NextMarker blocks by the case-sensitive test add nothing. */
  lemma {:induction false} UnclassifiedMatchesAddNothing(ms: seq<Match>, marker: string)
    requires forall k :: 0 <= k < |ms| ==> !Contains(ms[k].whole, "/Blob") && !Contains(ms[k].whole, "<NextMarker>")
    ensures RecordsOf(ms) == [] && MarkerAfter(ms, marker) == marker
  {
    if |ms| > 0 {
      UnclassifiedMatchesAddNothing(ms[1..], marker);
    }
  }

  /** With no NextMarker block among the matches the marker is left as it was. */
  lemma {:induction false} MarkerUnchanged(ms: seq<Match>, marker: string)
    requires forall k :: 0 <= k < |ms| ==> !IsMarkerMatch(ms[k])
    ensures MarkerAfter(ms, marker) == marker
  {
    if |ms| > 0 {
      assert !IsMarkerMatch(ms[0]);
      MarkerUnchanged(ms[1..], marker);
    }
  }

  /** Otherwise it is the text of the last NextMarker block. */
  lemma {:induction false} MarkerIsLast(ms: seq<Match>, marker: string, k: nat)
    requires k < |ms| && IsMarkerMatch(ms[k])
    requires forall j :: k < j < |ms| ==> !IsMarkerMatch(ms[j])
    ensures MarkerAfter(ms, marker) == MarkerGroup(ms[k])
  {
    var next := if IsMarkerMatch(ms[0]) then MarkerGroup(ms[0]) else marker;
    assert MarkerAfter(ms, marker) == MarkerAfter(ms[1..], next);
    if k == 0 {
      MarkerUnchanged(ms[1..], next);
    } else {
      MarkerIsLast(ms[1..], next, k - 1);
    }
  }
}
