/**
 * Worked examples of the listing parser: tags match in any case, and the URL date token must
 * be exactly 6 or 8 digits between delimiters (or the ends of the text), its date read in
 * the file-name form.
 */
module XmlExamples {
  import opened Wrappers
  import opened Text
  import opened Calendar
  import opened Constants
  import opened DateUtils
  import opened XmlUtils

  /** Tags are compared without regard to case: "<B>x</b>" is a "b" element holding "x". */
  lemma ElementIgnoresCase()
    ensures ExtractValueFromXmlTag("b", "<B>x</b>") == "x"
  {
    var s := "<B>x</b>";
    assert OccursAtIgnoreCase(s, OpenTag("b"), 0) by {
      assert s[0..3] == "<B>" && OpenTag("b") == "<b>";
      assert LowerChar('B') == 'b';
    }
    assert !OccursAtIgnoreCase(s, CloseTag("b"), 3) by {
      assert s[3..7][0] == 'x';
    }
    assert OccursAtIgnoreCase(s, CloseTag("b"), 4) by {
      assert s[4..8] == "</b>" == CloseTag("b");
    }
    assert LazyEnd(s, CloseTag("b"), 4) == Some(4);
    assert LazyEnd(s, CloseTag("b"), 3) == Some(4);
    assert s[3..4] == "x";
  }

  /** Every element, in document order: two Blob elements around other text give ["A", "B"]. */
  lemma ValuesExample()
    ensures Values(AllMatches(Element("Blob"),
      OpenTag("Blob") + "A" + CloseTag("Blob") + "text" + OpenTag("Blob") + "B" + CloseTag("Blob"), 0)) == ["A", "B"]
  {
    TwoElementValues("Blob", "A", "text", "B");
  }

  /** An 8-digit run after '_' at the end of the name is the token. */
  lemma UrlTokenExample()
    ensures ExtractStrDateFromUrl("Foo_20231231") == Some("20231231")
  {
    var s := "Foo_20231231";
    assert !IsDigit(s[0]);
    assert DateTokenLength(s, 0) == 0 by {
      assert !AllDigits(s[0..8]) by { assert s[0..8][0] == 'F'; }
      assert !AllDigits(s[0..6]) by { assert s[0..6][0] == 'F'; }
    }
    assert !TokenStartsAt(s, 1) && !TokenStartsAt(s, 2) && !TokenStartsAt(s, 3);
    assert DigitRunAt(s, 4, 8) by {
      assert s[4..12] == "20231231";
    }
    assert FindDateToken(s, 4) == Some(4);
    assert FindDateToken(s, 0) == Some(4);
    assert s[4..12] == "20231231";
  }

  /** The token's date, read as a file name. */
  lemma UrlDateExample()
    ensures GetDateFromUrl("Foo_20231231") == Date(2023, 12, 31)
  {
    UrlTokenExample();
    FileNameOfDigits('2', '0', '2', '3', '1', '2', '3', '1', 2023, 12, 31);
  }

  /** Seven digits are no token: the date stays the default one. */
  lemma UrlSevenDigitsExample()
    ensures GetDateFromUrl("a_2023123") == DefaultDate
  {
    var s := "a_2023123";
    assert DateTokenLength(s, 0) == 0 by {
      assert !AllDigits(s[0..8]) by { assert s[0..8][0] == 'a'; }
      assert !AllDigits(s[0..6]) by { assert s[0..6][0] == 'a'; }
    }
    assert !TokenStartsAt(s, 1);
    assert DateTokenLength(s, 2) == 0 by {
      assert !DigitRunAt(s, 2, 8);
      assert !DigitRunAt(s, 2, 6) by { assert !IsUrlDelimiter(s[8]); }
    }
    forall q | 3 <= q <= |s| ensures !TokenStartsAt(s, q) {
      assert IsDigit(s[q - 1]);
    }
    NoDateTokenFrom(s, 3);
    assert FindDateToken(s, 0).None?;
  }

  lemma {:induction false} NoDateTokenFrom(s: string, from: nat)
    requires forall q :: from <= q <= |s| ==> !TokenStartsAt(s, q)
    ensures FindDateToken(s, from).None?
    decreases |s| + 1 - from
  {
    if from <= |s| {
      NoDateTokenFrom(s, from + 1);
    }
  }
}
