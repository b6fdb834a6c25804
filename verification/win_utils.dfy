/**
 * The string helpers of the Windows utility file: lower-casing, space trimming, and
 * splitting a URL or path into file name and extension.
 */
module WinUtils {
  import opened Wrappers
  import opened Text

  /** toLowercase: every character through std::tolower in the "C" locale. */
  function ToLowercase(s: string): (r: string)
    ensures |r| == |s| && EqualsIgnoreCase(r, s)
    ensures forall i :: 0 <= i < |r| ==> !IsAsciiUpper(r[i])
    ensures forall i :: 0 <= i < |s| && !IsAsciiUpper(s[i]) ==> r[i] == s[i]
  {
    seq(|s|, i requires 0 <= i < |s| => LowerChar(s[i]))
  }

  /** Lower-casing twice is lower-casing once. */
  lemma ToLowercaseIdempotent(s: string)
    ensures ToLowercase(ToLowercase(s)) == ToLowercase(s)
  {
    var once := ToLowercase(s);
    forall i | 0 <= i < |s| ensures ToLowercase(once)[i] == once[i] {
      LowerCharIdempotent(s[i]);
    }
  }

  /** Lower-casing commutes with concatenation, so a lower-case piece stays where it was. */
  lemma ToLowercaseAppend(a: string, b: string)
    ensures ToLowercase(a + b) == ToLowercase(a) + ToLowercase(b)
  {
    var l, r := ToLowercase(a + b), ToLowercase(a) + ToLowercase(b);
    forall i | 0 <= i < |l| ensures l[i] == r[i] {
      if i < |a| {
        assert (a + b)[i] == a[i];
      } else {
        assert (a + b)[i] == b[i - |a|];
      }
    }
  }

  // ---------------------------------------------------------------------------
  // find_first_not_of / find_last_not_of / substr

  /** std::string::find_first_not_of(c): the first index whose character is not c. */
  function FindFirstNotOf(s: string, c: char): (r: Option<nat>)
    ensures r.Some? ==> r.value < |s| && s[r.value] != c && forall j :: 0 <= j < r.value ==> s[j] == c
    ensures r.None? ==> forall j :: 0 <= j < |s| ==> s[j] == c
  {
    if |s| == 0 then None
    else if s[0] != c then Some(0)
    else
      match FindFirstNotOf(s[1..], c)
      case None => None
      case Some(k) => Some(k + 1)
  }

  /** std::string::find_last_not_of(c): the last index whose character is not c. */
  function FindLastNotOf(s: string, c: char): (r: Option<nat>)
    ensures r.Some? ==> r.value < |s| && s[r.value] != c && forall j :: r.value < j < |s| ==> s[j] == c
    ensures r.None? ==> forall j :: 0 <= j < |s| ==> s[j] == c
  {
    if |s| == 0 then None
    else if s[|s| - 1] != c then Some(|s| - 1)
    else FindLastNotOf(s[..|s| - 1], c)
  }

  /** std::string::substr(pos, count): at most count characters from pos. */
  function Substr(s: string, pos: nat, count: nat): (r: string)
    requires pos <= |s|
    ensures |r| == if count < |s| - pos then count else |s| - pos
    ensures r == s[pos..pos + |r|]
  {
    if count < |s| - pos then s[pos..pos + count] else s[pos..]
  }

  predicate AllSpaces(s: string) {
    forall j :: 0 <= j < |s| ==> s[j] == ' '
  }

  /** Text with no space at either end (possibly empty). */
  predicate Unpadded(t: string) {
    t == "" || (t[0] != ' ' && t[|t| - 1] != ' ')
  }

  /**
   * removeLeadingWhitespace as written: when the input has a non-space character it returns
   * substr(first non-space, index of the last non-space). The second argument is a count,
   * so the result is cut at (first + last) characters, not at the last non-space.
   */
  function RemoveLeadingWhitespace(s: string): (r: string)
    ensures AllSpaces(s) ==> r == s
    ensures !AllSpaces(s) ==> |r| < |s|
    ensures |s| > 0 && s[0] != ' ' ==> r == s[..|r|]
  {
    match FindFirstNotOf(s, ' ')
    case None => s
    case Some(first) =>
      var last := FindLastNotOf(s, ' ');
      assert last.Some? by { assert s[first] != ' '; }
      Substr(s, first, last.value)
  }

  /** The trim the helper is evidently meant to do: drop the spaces at both ends. */
  function TrimSpaces(s: string): (r: string)
    ensures AllSpaces(s) <==> r == ""
    ensures Unpadded(r) && |r| <= |s|
  {
    match FindFirstNotOf(s, ' ')
    case None => ""
    case Some(first) =>
      var last := FindLastNotOf(s, ' ');
      assert last.Some? by { assert s[first] != ' '; }
      assert first <= last.value;
      s[first..last.value + 1]
  }

  /** In spaces + text + spaces, the first and last non-spaces are the ends of the text. */
  lemma EndsOfPadded(lead: string, t: string, trail: string)
    requires AllSpaces(lead) && AllSpaces(trail) && t != "" && Unpadded(t)
    ensures FindFirstNotOf(lead + t + trail, ' ') == Some(|lead|)
    ensures FindLastNotOf(lead + t + trail, ' ') == Some(|lead| + |t| - 1)
  {
    var s := lead + t + trail;
    assert s[|lead|] == t[0] && s[|lead| + |t| - 1] == t[|t| - 1];
    assert forall j :: 0 <= j < |lead| ==> s[j] == lead[j];
    assert forall j :: |lead| + |t| <= j < |s| ==> s[j] == trail[j - |lead| - |t|];
  }

  /** TrimSpaces recovers the text from between any runs of spaces: its defining property. */
  lemma TrimSpacesOf(lead: string, t: string, trail: string)
    requires AllSpaces(lead) && AllSpaces(trail) && Unpadded(t)
    ensures TrimSpaces(lead + t + trail) == t
  {
    var s := lead + t + trail;
    if t == "" {
      assert forall j :: 0 <= j < |s| ==> s[j] == if j < |lead| then lead[j] else trail[j - |lead|];
    } else {
      EndsOfPadded(lead, t, trail);
      assert s[|lead|..|lead| + |t|] == t;
    }
  }

  /** Trimming is idempotent. */
  lemma TrimSpacesIdempotent(s: string)
    ensures TrimSpaces(TrimSpaces(s)) == TrimSpaces(s)
  {
    var t := TrimSpaces(s);
    assert "" + t + "" == t;
    TrimSpacesOf("", t, "");
  }

  /**
   * With leading spaces the as-written helper keeps the whole text, and whatever more it
   * keeps is trailing spaces: it never cuts into the text itself.
   */
  lemma RemoveLeadingWhitespaceAfterSpaces(lead: string, t: string, trail: string)
    requires |lead| > 0 && AllSpaces(lead) && AllSpaces(trail) && t != "" && Unpadded(t)
    ensures var r := RemoveLeadingWhitespace(lead + t + trail);
      |t| <= |r| && r[..|t|] == t && AllSpaces(r[|t|..])
  {
    var s := lead + t + trail;
    EndsOfPadded(lead, t, trail);
    var r := RemoveLeadingWhitespace(s);
    assert r == Substr(s, |lead|, |lead| + |t| - 1);
    assert r[..|t|] == s[|lead|..|lead| + |t|] == t;
    forall j | 0 <= j < |r| - |t| ensures r[|t|..][j] == ' ' {
      assert r[|t| + j] == s[|lead| + |t| + j] == trail[j];
    }
  }

  /** Without a leading space the as-written helper loses the last character of the text. */
  lemma RemoveLeadingWhitespaceWithoutSpaces(t: string, trail: string)
    requires AllSpaces(trail) && t != "" && Unpadded(t)
    ensures RemoveLeadingWhitespace(t + trail) == t[..|t| - 1]
  {
    assert "" + t + trail == t + trail;
    EndsOfPadded("", t, trail);
  }

  /** With leading spaces: "  ab  " gives "ab " where "ab" is meant. */
  lemma RemoveLeadingWhitespaceExampleSpaces()
    ensures RemoveLeadingWhitespace("  ab  ") == "ab " && TrimSpaces("  ab  ") == "ab"
  {
    assert "  " + "ab" + "  " == "  ab  ";
    EndsOfPadded("  ", "ab", "  ");
    TrimSpacesOf("  ", "ab", "  ");
  }

  /** Without them: "abc" gives "ab" where "abc" is meant. */
  lemma RemoveLeadingWhitespaceExampleNoSpaces()
    ensures RemoveLeadingWhitespace("abc") == "ab" && TrimSpaces("abc") == "abc"
  {
    assert "abc" + "" == "abc" && "" + "abc" + "" == "abc";
    RemoveLeadingWhitespaceWithoutSpaces("abc", "");
    TrimSpacesOf("", "abc", "");
  }

  // ---------------------------------------------------------------------------
  // Paths

  /**
   * getFileExtension: the text after the last '.', or "" when there is no '.', when the last
   * '/' comes after it, or when there is no '/' at all (rfind's npos is larger than any index).
   */
  function GetFileExtension(url: string): (r: string)
    ensures '.' !in r && '/' !in r
    ensures r != "" ==> |r| < |url| && url[|url| - |r| - 1] == '.' && url[|url| - |r|..] == r && '/' in url
    ensures '.' !in url || '/' !in url ==> r == ""
  {
    match RFind(url, '.')
    case None => ""
    case Some(dot) =>
      match RFind(url, '/')
      case None => ""
      case Some(slash) =>
        if slash > dot then ""
        else
          var r := url[dot + 1..];
          assert '.' !in r by {
            forall k | 0 <= k < |r| ensures r[k] != '.' { assert r[k] == url[dot + 1 + k]; }
          }
          assert '/' !in r by {
            forall k | 0 <= k < |r| ensures r[k] != '/' { assert r[k] == url[dot + 1 + k]; }
          }
          r
  }

  /** A path with a '/' whose last segment ends in "." + e has extension e. */
  lemma GetFileExtensionOf(p: string, e: string)
    requires '/' in p && '.' !in e && '/' !in e
    ensures GetFileExtension(p + "." + e) == e
  {
    var url := p + "." + e;
    assert url[|p|] == '.';
    assert forall k :: |p| < k < |url| ==> url[k] == e[k - |p| - 1];
    assert RFind(url, '.') == Some(|p|);
    var i :| 0 <= i < |p| && p[i] == '/';
    assert url[i] == '/';
    assert url[|p| + 1..] == e;
  }

  /** getFileName: the text after the last '/', or "" when there is none. */
  function GetFileName(url: string): (r: string)
    ensures '/' !in r
    ensures r != "" ==> |r| < |url| && url[|url| - |r| - 1] == '/' && url[|url| - |r|..] == r
    ensures '/' !in url ==> r == ""
  {
    match RFind(url, '/')
    case None => ""
    case Some(slash) =>
      var r := url[slash + 1..];
      assert '/' !in r by {
        forall k | 0 <= k < |r| ensures r[k] != '/' { assert r[k] == url[slash + 1 + k]; }
      }
      r
  }

  /** The name after the last '/' comes back whole, extension included. */
  lemma GetFileNameOf(p: string, n: string)
    requires '/' !in n
    ensures GetFileName(p + "/" + n) == n
  {
    var url := p + "/" + n;
    assert url[|p|] == '/';
    assert forall k :: |p| < k < |url| ==> url[k] == n[k - |p| - 1];
    assert RFind(url, '/') == Some(|p|);
    assert url[|p| + 1..] == n;
  }

  /** A bare file name has neither a name nor an extension by these rules. */
  lemma BareFileName()
    ensures GetFileExtension("file.txt") == "" && GetFileName("file.txt") == ""
  {
    assert '/' !in "file.txt";
  }
}
