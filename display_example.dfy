/** The author list of the project's browser test (test/test.js:33), worked through
    `displayAuthor`. */
module DisplayExample {
  import opened Outcomes
  import opened Display

  /** `s` is "Sammet, J.E. and Hemmendinger, D.", character by character. */
  predicate IsTestAuthors(s: string)
  {
    |s| == 33
    && s[0] == 'S' && s[1] == 'a' && s[2] == 'm' && s[3] == 'm' && s[4] == 'e' && s[5] == 't'
    && s[6] == ',' && s[7] == ' ' && s[8] == 'J' && s[9] == '.' && s[10] == 'E' && s[11] == '.'
    && s[12] == ' ' && s[13] == 'a' && s[14] == 'n' && s[15] == 'd' && s[16] == ' '
    && s[17] == 'H' && s[18] == 'e' && s[19] == 'm' && s[20] == 'm' && s[21] == 'e' && s[22] == 'n'
    && s[23] == 'd' && s[24] == 'i' && s[25] == 'n' && s[26] == 'g' && s[27] == 'e' && s[28] == 'r'
    && s[29] == ',' && s[30] == ' ' && s[31] == 'D' && s[32] == '.'
  }

  /** The two-author example the project's browser test expects (test/test.js:33): the text
      described by `IsTestAuthors` is that test's input, and it is displayed with ", and ". */
  lemma TwoAuthors(s: string)
    requires IsTestAuthors(s)
    ensures s == "Sammet, J.E. and Hemmendinger, D."
    ensures Displayed(s) == "Sammet, J.E., and Hemmendinger, D."
  {
    ExampleDisplayed(s);
    ExampleNames(s);
  }

  /** The example is displayed as its two names around ", and ". */
  lemma ExampleDisplayed(s: string)
    requires IsTestAuthors(s)
    ensures Displayed(s) == s[..12] + ", and " + s[17..]
  {
    ExamplePlain(s);
    ExampleHead(s);
    ExampleSeparator(s);
    ExampleTail(s);
    DisplayedTwo(s, 12, 5);
  }

  /** The example's two names. */
  lemma ExampleNames(s: string)
    requires IsTestAuthors(s)
    ensures s[..12] + ", and " + s[17..] == "Sammet, J.E., and Hemmendinger, D."
  {
    ExampleFirstName(s);
    ExampleSecondName(s);
    assert "Sammet, J.E." + ", and " + "Hemmendinger, D." == "Sammet, J.E., and Hemmendinger, D.";
  }

  lemma ExampleFirstName(s: string)
    requires IsTestAuthors(s)
    ensures s[..12] == "Sammet, J.E."
  {
  }

  lemma ExampleSecondName(s: string)
    requires IsTestAuthors(s)
    ensures s[17..] == "Hemmendinger, D."
  {
  }

  /** The example has no tab, newline or double space. */
  lemma ExamplePlain(s: string)
    requires IsTestAuthors(s)
    ensures forall i :: 0 <= i < |s| ==> s[i] != '\n' && s[i] != '\t'
    ensures !HasDoubleSpace(s)
  {
  }

  /** No separator starts within "Sammet, J.E.". */
  lemma ExampleHead(s: string)
    requires IsTestAuthors(s)
    ensures forall k :: 0 <= k < 12 ==> SepMatch(s[k..]).None?
  {
    assert NoAndAt(s, 11, 12);
    assert NoAndAt(s, 10, 12);
    assert NoAndAt(s, 9, 12);
    assert NoAndAt(s, 8, 12);
    assert NoAndAt(s, 7, 12);
    assert NoAndAt(s, 6, 12);
    assert NoAndAt(s, 5, 12);
    assert NoAndAt(s, 4, 12);
    assert NoAndAt(s, 3, 12);
    assert NoAndAt(s, 2, 12);
    assert NoAndAt(s, 1, 12);
    assert NoAndAt(s, 0, 12);
    NoAndAtNoSep(s, 0, 12);
    NoSepBetweenEach(s, 0, 12);
  }

  /** " and " follows "Sammet, J.E.". */
  lemma ExampleSeparator(s: string)
    requires IsTestAuthors(s)
    ensures SepMatch(s[12..]) == Some(5)
  {
    var t := s[12..];
    assert t[0] == s[12] && t[1] == s[13] && t[2] == s[14] && t[3] == s[15] && t[4] == s[16] && t[5] == s[17];
    SingleSpacedAnd(t);
  }

  /** "Hemmendinger, D." holds no separator. */
  lemma ExampleTail(s: string)
    requires IsTestAuthors(s)
    ensures NoSep(s[17..])
  {
    assert NoAndAt(s, 32, 33);
    assert NoAndAt(s, 31, 33);
    assert NoAndAt(s, 30, 33);
    assert NoAndAt(s, 29, 33);
    assert NoAndAt(s, 28, 33);
    assert NoAndAt(s, 27, 33);
    assert NoAndAt(s, 26, 33);
    assert NoAndAt(s, 25, 33);
    assert NoAndAt(s, 24, 33);
    assert NoAndAt(s, 23, 33);
    assert NoAndAt(s, 22, 33);
    assert NoAndAt(s, 21, 33);
    assert NoAndAt(s, 20, 33);
    assert NoAndAt(s, 19, 33);
    assert NoAndAt(s, 18, 33);
    assert NoAndAt(s, 17, 33);
    NoAndAtNoSep(s, 17, 33);
    NoSepSuffix(s, 17);
  }
}
