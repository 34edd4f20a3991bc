/**
 * Worked inputs for `getHeadings` (src/utils/content.ts:6-29), each proved
 * against the model: the usual document, and the edges of the pattern
 * `^(#{1,6})\s+(.+)$` where it differs from a markdown renderer.
 *
 * Each example is split into small helper lemmas: the character facts of
 * its literal, each match, each text and slug. They state nothing beyond
 * the example they serve; they exist so that no single proof obligation
 * has to unroll a whole string literal, which keeps verification cheap.
 */
module HeadingExamples {
  import opened Text
  import opened Slugs
  import opened SlugProperties
  import opened Headings

  lemma ExampleDocument(s: seq<char>)
    requires s == "# Title\n\nSome text\n## Sub Heading\n"
    ensures Headings.Headings(s) ==
            [Heading(1, "title", "Title"), Heading(2, "sub-heading", "Sub Heading")]
  {
    var m1 := RegexMatch(0, 1, 2, 7);
    var m2 := RegexMatch(19, 2, 22, 33);
    DocumentMatches(s);
    DocumentTexts(s);
    TitleSlug(s[2..7]);
    SubHeadingSlug(s[22..33]);
    assert MatchesFrom(s, 0)[0] == m1 && MatchesFrom(s, 0)[1] == m2;
    TwoHeadings(s, m1, m2);
  }

  lemma TwoHeadings(s: seq<char>, m1: RegexMatch, m2: RegexMatch)
    requires WellFormed(s, m1) && WellFormed(s, m2)
    requires MatchesFrom(s, 0) == [m1, m2]
    ensures Headings.Headings(s) == [ToHeading(s, m1), ToHeading(s, m2)]
  {
    var ms := [m1, m2];
    var hs := Headings.Headings(s);
    assert hs == HeadingsOf(s, ms);
    HeadingsOfAt(s, ms, 0);
    HeadingsOfAt(s, ms, 1);
    assert hs[0] == ToHeading(s, m1) && hs[1] == ToHeading(s, m2);
  }

  lemma DocumentMatches(s: seq<char>)
    requires s == "# Title\n\nSome text\n## Sub Heading\n"
    ensures MatchesFrom(s, 0) == [RegexMatch(0, 1, 2, 7), RegexMatch(19, 2, 22, 33)]
  {
    DocumentChars(s);
    DocumentFirstMatch(s);
    DocumentSecondMatch(s);
    DocumentNoThirdMatch(s);
    assert MatchesFrom(s, 33) == [];
    MatchesFromUnfold(s, 7);
    MatchesFromUnfold(s, 0);
  }

  lemma DocumentTexts(s: seq<char>)
    requires s == "# Title\n\nSome text\n## Sub Heading\n"
    ensures s[2..7] == "Title" && s[22..33] == "Sub Heading"
  {
    SliceIs(s, 2, "Title");
    SliceIs(s, 22, "Sub Heading");
  }

  /** The characters of the document that decide where the pattern matches. */
  predicate DocumentShape(s: seq<char>) {
    |s| == 34 &&
    s[0] == '#' && s[1] == ' ' && !IsSpace(s[2]) &&
    (forall k :: 2 <= k < 7 ==> !IsLineTerminator(s[k])) &&
    (forall k :: 7 <= k < 19 ==> s[k] != '#') &&
    s[7] == '\n' && s[18] == '\n' && s[19] == '#' && s[20] == '#' && s[21] == ' ' && !IsSpace(s[22]) &&
    (forall k :: 22 <= k < 33 ==> !IsLineTerminator(s[k])) &&
    s[33] == '\n'
  }

  lemma DocumentChars(s: seq<char>)
    requires s == "# Title\n\nSome text\n## Sub Heading\n"
    ensures DocumentShape(s)
  {
    var title, middle, sub := "# Title", "\n\nSome text\n", "## Sub Heading\n";
    DocumentSplit(s, title, middle, sub);
    TitleChars(title);
    MiddleChars(middle);
    SubChars(sub);
    assert forall k :: 0 <= k < 7 ==> s[k] == title[k];
    assert forall k :: 7 <= k < 19 ==> s[k] == middle[k - 7];
    assert forall k :: 19 <= k < 34 ==> s[k] == sub[k - 19];
  }

  lemma DocumentSplit(s: seq<char>, title: seq<char>, middle: seq<char>, sub: seq<char>)
    requires s == "# Title\n\nSome text\n## Sub Heading\n"
    requires title == "# Title" && middle == "\n\nSome text\n" && sub == "## Sub Heading\n"
    ensures s == title + middle + sub && |title| == 7 && |middle| == 12
  {
  }

  lemma TitleChars(s: seq<char>)
    requires s == "# Title"
    ensures s[0] == '#' && s[1] == ' ' && !IsSpace(s[2])
    ensures forall k :: 2 <= k < 7 ==> !IsLineTerminator(s[k])
  {
  }

  lemma MiddleChars(s: seq<char>)
    requires s == "\n\nSome text\n"
    ensures s[0] == '\n' && s[11] == '\n'
    ensures forall k :: 0 <= k < 12 ==> s[k] != '#'
  {
  }

  lemma SubChars(s: seq<char>)
    requires s == "## Sub Heading\n"
    ensures s[0] == '#' && s[1] == '#' && s[2] == ' ' && !IsSpace(s[3]) && s[14] == '\n'
    ensures forall k :: 3 <= k < 14 ==> !IsLineTerminator(s[k])
  {
  }

  lemma DocumentFirstMatch(s: seq<char>)
    requires DocumentShape(s)
    ensures NextMatch(s, 0) == Some(RegexMatch(0, 1, 2, 7))
  {
    MatchAtHeadingLine(s, 0, 1, 2, 7);
  }

  lemma DocumentSecondMatch(s: seq<char>)
    requires DocumentShape(s)
    ensures NextMatch(s, 7) == Some(RegexMatch(19, 2, 22, 33))
  {
    MatchAtHeadingLine(s, 19, 21, 22, 33);
    DocumentNoMatchBetween(s);
    NextMatchSkips(s, 7, 19);
  }

  lemma DocumentNoMatchBetween(s: seq<char>)
    requires DocumentShape(s)
    ensures forall p: nat :: 7 <= p < 19 ==> MatchAt(s, p).None?
  {
    forall p: nat | 7 <= p < 19 ensures MatchAt(s, p).None? {
      if AtLineStart(s, p) {
        RunEndIs(s, p, IsHash, p);
      }
    }
  }

  lemma DocumentNoThirdMatch(s: seq<char>)
    requires DocumentShape(s)
    ensures NextMatch(s, 33) == None
  {
    assert MatchAt(s, 33) == None by {
      assert !IsLineTerminator(s[32]);
    }
    assert MatchAt(s, 34) == None by {
      RunEndIs(s, 34, IsHash, 34);
    }
  }

  lemma SliceIs(s: seq<char>, i: nat, w: seq<char>)
    requires i + |w| <= |s|
    requires forall k :: 0 <= k < |w| ==> s[i + k] == w[k]
    ensures s[i..i + |w|] == w
  {
  }

  predicate AllLower(w: seq<char>) {
    w == [] || (IsAsciiLower(w[0]) && AllLower(w[1..]))
  }

  lemma {:induction false} AllLowerIsSlug(w: seq<char>)
    requires AllLower(w)
    ensures IsSlug(w)
  {
    if w != [] {
      AllLowerIsSlug(w[1..]);
      assert w == [w[0]] + w[1..];
    }
  }

  lemma TitleSlug(t: seq<char>)
    requires t == "Title"
    ensures Trim(t) == t && Slug(t) == "title"
  {
    StripUnchanged(t, IsSpace);
    TitleLower(t);
    SlugIgnoresCase(t);
    LowerWords();
    SlugUnchanged("title");
  }

  lemma TitleLower(t: seq<char>)
    requires t == "Title"
    ensures ToLowerCase(t) == "title"
  {
  }

  lemma LowerWords()
    ensures IsSlug("title") && IsSlug("sub") && IsSlug("heading")
  {
    assert AllLower("title") && AllLower("sub") && AllLower("heading");
    AllLowerIsSlug("title");
    AllLowerIsSlug("sub");
    AllLowerIsSlug("heading");
  }

  lemma SubHeadingSlug(t: seq<char>)
    requires t == "Sub Heading"
    ensures Trim(t) == t && Slug(t) == "sub-heading"
  {
    SubHeadingTrim(t);
    SubHeadingJoined(t, "sub", " ", "heading");
  }

  lemma SubHeadingJoined(t: seq<char>, a: seq<char>, sp: seq<char>, b: seq<char>)
    requires t == "Sub Heading" && a == "sub" && sp == " " && b == "heading"
    ensures Slug(t) == "sub-heading"
  {
    SubHeadingLower(t);
    SubHeadingParts(a, sp, b);
    SlugIgnoresCase(t);
    LowerWords();
    SlugJoin(a, sp, b);
  }

  lemma SubHeadingParts(a: seq<char>, sp: seq<char>, b: seq<char>)
    requires a == "sub" && sp == " " && b == "heading"
    ensures a + sp + b == "sub heading" && a + "-" + b == "sub-heading"
    ensures forall i :: 0 <= i < |sp| ==> IsSeparator(sp[i])
  {
  }

  lemma SubHeadingTrim(t: seq<char>)
    requires t == "Sub Heading"
    ensures Trim(t) == t
  {
    StripUnchanged(t, IsSpace);
  }

  lemma SubHeadingLower(t: seq<char>)
    requires t == "Sub Heading"
    ensures ToLowerCase(t) == "sub heading"
  {
  }

  /** `#` not followed by whitespace is no heading. */
  lemma ExampleHashtag(s: seq<char>)
    requires s == "#hashtag"
    ensures Headings.Headings(s) == []
  {
    HashtagChars(s);
    RunEndIs(s, 0, IsHash, 1);
    NoMatchOffLineStart(s);
    NoMatchWithoutShortHashRun(s, 0);
    NoHeadingsIff(s);
  }

  lemma HashtagChars(s: seq<char>)
    requires s == "#hashtag"
    ensures s[0] == '#' && s[1] == 'h'
    ensures forall k :: 0 <= k < |s| ==> !IsLineTerminator(s[k])
  {
  }

  /** In a single line, no match starts after its first character. */
  lemma NoMatchOffLineStart(s: seq<char>)
    requires forall k :: 0 <= k < |s| ==> !IsLineTerminator(s[k])
    ensures forall p: nat, h: nat, a: nat, e: nat :: 0 < p ==> !MatchesAt(s, p, h, a, e)
  {
  }

  /** Seven `#` are one too many. */
  lemma ExampleSevenHashes(s: seq<char>)
    requires s == "####### x"
    ensures Headings.Headings(s) == []
  {
    SevenHashesChars(s);
    RunEndIs(s, 0, IsHash, 7);
    NoMatchOffLineStart(s);
    NoMatchWithoutShortHashRun(s, 0);
    NoHeadingsIff(s);
  }

  lemma SevenHashesChars(s: seq<char>)
    requires s == "####### x"
    ensures forall k :: 0 <= k < 7 ==> s[k] == '#'
    ensures s[7] == ' '
    ensures forall k :: 0 <= k < |s| ==> !IsLineTerminator(s[k])
  {
  }

  /** A whole-document heading: its text sits on its own line. */
  lemma OneHeading(s: seq<char>, m: RegexMatch)
    requires WellFormed(s, m) && MatchesFrom(s, 0) == [m]
    ensures Headings.Headings(s) == [ToHeading(s, m)]
  {
    assert [m][1..] == [];
  }

  /** `\s+` crosses the line end, so the next line becomes the text. */
  lemma ExampleNextLine(s: seq<char>)
    requires s == "#\nfoo"
    ensures Headings.Headings(s) == [Heading(1, "foo", "foo")]
  {
    var m := RegexMatch(0, 1, 2, 5);
    NextLineMatch(s);
    assert MatchesFrom(s, 5) == [] by {
      assert !AtLineStart(s, 5);
    }
    MatchesFromUnfold(s, 0);
    OneHeading(s, m);
    NextLineText(s, s[2..5]);
  }

  lemma NextLineMatch(s: seq<char>)
    requires s == "#\nfoo"
    ensures NextMatch(s, 0) == Some(RegexMatch(0, 1, 2, 5))
  {
    assert s[0] == '#' && s[1] == '\n' && s[2] == 'f' && s[3] == 'o' && s[4] == 'o';
    RunEndIs(s, 0, IsHash, 1);
    RunEndIs(s, 1, IsSpace, 2);
    RunEndIs(s, 2, NotLineTerminator, 5);
  }

  lemma NextLineText(s: seq<char>, t: seq<char>)
    requires s == "#\nfoo" && t == s[2..5]
    ensures Trim(t) == t && t == "foo" && Slug(t) == "foo"
  {
    assert t == "foo";
    StripUnchanged(t, IsSpace);
    assert IsSlug(t);
    SlugUnchanged(t);
  }

  /** `\s+` may not swallow the whole rest of the input: it gives one space back to `.+`. */
  lemma ExampleBlank(s: seq<char>)
    requires s == "#  "
    ensures Headings.Headings(s) == [Heading(1, "", "")]
  {
    var m := RegexMatch(0, 1, 2, 3);
    BlankMatch(s);
    assert MatchesFrom(s, 3) == [] by {
      assert !AtLineStart(s, 3);
    }
    MatchesFromUnfold(s, 0);
    OneHeading(s, m);
    BlankText(s, s[2..3]);
  }

  lemma BlankMatch(s: seq<char>)
    requires s == "#  "
    ensures NextMatch(s, 0) == Some(RegexMatch(0, 1, 2, 3))
  {
    assert s[0] == '#' && s[1] == ' ' && s[2] == ' ';
    RunEndIs(s, 0, IsHash, 1);
    RunEndIs(s, 1, IsSpace, 3);
    assert LastNonTerminator(s, 2, 3) == Some(2);
    RunEndIs(s, 2, NotLineTerminator, 3);
  }

  lemma BlankText(s: seq<char>, t: seq<char>)
    requires s == "#  " && t == s[2..3]
    ensures Trim(t) == [] && Slug([]) == []
  {
    assert t == [' '];
    var r := Trim(t);
    var a :| StrippedAt(t, r, a, IsSpace);
    SlugUnchanged([]);
  }
}
