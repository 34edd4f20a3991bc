/**
 * Worked inputs for `calculateReadingTime` (src/utils/content.ts:37-53),
 * each proved against the model. As in the heading examples, the facts
 * about each literal are split into helper lemmas of their own so that each
 * proof obligation stays small.
 */
module ReadingTimeExamples {
  import opened Text
  import opened ReadingTime

  /** `n` copies of `w`. */
  function Repeat(w: seq<char>, n: nat): seq<char> {
    if n == 0 then [] else w + Repeat(w, n - 1)
  }

  lemma {:induction false} RepeatedIsPlain(w: seq<char>, n: nat)
    requires forall k :: 0 <= k < |w| ==> IsPlain(w[k])
    ensures forall k :: 0 <= k < |Repeat(w, n)| ==> IsPlain(Repeat(w, n)[k])
  {
    if n > 0 {
      RepeatedIsPlain(w, n - 1);
      var rest := Repeat(w, n - 1);
      forall k | 0 <= k < |w + rest| ensures IsPlain((w + rest)[k]) {
        if k >= |w| {
          assert (w + rest)[k] == rest[k - |w|];
        }
      }
    }
  }

  lemma WordIsPlain(w: seq<char>)
    requires w == "word "
    ensures forall k :: 0 <= k < |w| ==> IsPlain(w[k])
  {
  }

  lemma {:induction false} RepeatedWordCount(n: nat)
    ensures CountWords(Repeat("word ", n)) == n
  {
    if n > 0 {
      var rest := Repeat("word ", n - 1);
      var s := "word " + rest;
      RunEndIs(s, 0, NotSpace, 4);
      assert s[4..] == " " + rest;
      SkipSpaces(s, 4, 5);
      assert s[5..] == rest;
      RepeatedWordCount(n - 1);
    }
  }

  /** `n` words of plain prose count as `n` words (and at least one). */
  lemma RepeatedWordReadingTime(n: nat, wordsPerMinute: nat)
    requires wordsPerMinute > 0
    ensures CalculateReadingTime(Repeat("word ", n), wordsPerMinute) ==
            NatToString(CeilDiv(if n == 0 then 1 else n, wordsPerMinute)) + " min read"
  {
    var s := Repeat("word ", n);
    WordIsPlain("word ");
    RepeatedIsPlain("word ", n);
    PlainTextUnchanged(s);
    RepeatedWordCount(n);
    WordCountIsWords(s);
  }

  /** 200 words at the default 200 words per minute take one minute. */
  lemma ExampleTwoHundredWords(n: nat)
    requires n == 200
    ensures CalculateReadingTime(Repeat("word ", n), DefaultWordsPerMinute) == "1 min read"
  {
    RepeatedWordReadingTime(n, DefaultWordsPerMinute);
    assert (if n == 0 then 1 else n) == 200;
    OneMinute();
  }

  lemma OneMinute()
    ensures NatToString(CeilDiv(200, 200)) + " min read" == "1 min read"
    ensures NatToString(CeilDiv(1, 200)) + " min read" == "1 min read"
  {
    assert CeilDiv(200, 200) == 1 && CeilDiv(1, 200) == 1;
    assert NatToString(1) == "1";
  }

  lemma TwoMinutes()
    ensures NatToString(CeilDiv(201, 200)) + " min read" == "2 min read"
  {
    assert CeilDiv(201, 200) == 2;
    assert NatToString(2) == "2";
  }

  /** One word more takes two. */
  lemma ExampleTwoHundredAndOneWords(n: nat)
    requires n == 201
    ensures CalculateReadingTime(Repeat("word ", n), DefaultWordsPerMinute) == "2 min read"
  {
    RepeatedWordReadingTime(n, DefaultWordsPerMinute);
    assert (if n == 0 then 1 else n) == 201;
    TwoMinutes();
  }

  /** Empty content still reads as one minute. */
  lemma ExampleEmpty()
    ensures CalculateReadingTime("", DefaultWordsPerMinute) == "1 min read"
  {
    RepeatedWordReadingTime(0, DefaultWordsPerMinute);
    assert Repeat("word ", 0) == "";
    assert CeilDiv(1, 200) == 1;
    OneMinute();
  }

  /** Two words separated by whitespace. */
  lemma TwoWords(a: seq<char>, sp: seq<char>, b: seq<char>)
    requires a != [] && b != [] && sp != []
    requires forall k :: 0 <= k < |a| ==> !IsSpace(a[k])
    requires forall k :: 0 <= k < |sp| ==> IsSpace(sp[k])
    requires forall k :: 0 <= k < |b| ==> !IsSpace(b[k])
    ensures CountWords(a + sp + b) == 2
  {
    var s := a + sp + b;
    RunEndIs(s, 0, NotSpace, |a|);
    SkipSpaces(s, |a|, |a| + |sp|);
    assert s[|a| + |sp|..] == b;
    RunEndIs(b, 0, NotSpace, |b|);
    assert b[|b|..] == [];
  }

  lemma FencedDocumentParts(s: seq<char>, pre: seq<char>, code: seq<char>, post: seq<char>)
    requires s == "one ```two three``` four"
    requires pre == "one " && code == "two three" && post == " four"
    ensures s == pre + Fence + code + Fence + post
    ensures '`' !in pre && '`' !in code && '`' !in post
    ensures pre + post == "one  four"
  {
  }

  lemma OneFourIsPlain(s: seq<char>)
    requires s == "one  four"
    ensures forall k :: 0 <= k < |s| ==> IsPlain(s[k])
  {
  }

  lemma OneFourCount(s: seq<char>)
    requires s == "one  four"
    ensures CountWords(s) == 2
  {
    OneFourParts("one", "  ", "four");
    TwoWords("one", "  ", "four");
  }

  lemma OneFourParts(a: seq<char>, sp: seq<char>, b: seq<char>)
    requires a == "one" && sp == "  " && b == "four"
    ensures a + sp + b == "one  four"
    ensures forall k :: 0 <= k < |a| ==> !IsSpace(a[k])
    ensures forall k :: 0 <= k < |sp| ==> IsSpace(sp[k])
    ensures forall k :: 0 <= k < |b| ==> !IsSpace(b[k])
  {
  }

  /** The words of a fenced block do not count: two words remain. */
  lemma ExampleFencedBlock(s: seq<char>)
    requires s == "one ```two three``` four"
    ensures WordCount(CleanText(s)) == 2
  {
    FencedExample(s, "one ", "two three", " four");
  }

  lemma FencedExample(s: seq<char>, pre: seq<char>, code: seq<char>, post: seq<char>)
    requires s == "one ```two three``` four"
    requires pre == "one " && code == "two three" && post == " four"
    ensures WordCount(CleanText(s)) == 2
  {
    FencedDocumentParts(s, pre, code, post);
    FencedCodeDoesNotCount(pre, code, post);
    var u := pre + post;
    OneFourIsPlain(u);
    OneFourCount(u);
    PlainTextUnchanged(u);
    WordCountIsWords(u);
  }

  lemma LinkDocumentParts(s: seq<char>)
    requires s == "[Click here](http://x.com)"
    ensures s == "" + "[" + "Click here" + "](" + "http://x.com" + ")" + ""
  {
  }

  lemma LinkPartsFree(text: seq<char>, target: seq<char>)
    requires text == "Click here" && target == "http://x.com"
    ensures '`' !in text && '[' !in text && ']' !in text
    ensures '`' !in target && ')' !in target
  {
  }

  lemma ClickHereIsPlain(s: seq<char>)
    requires s == "Click here"
    ensures forall k :: 0 <= k < |s| ==> IsPlain(s[k])
  {
  }

  lemma ClickHereCount(s: seq<char>)
    requires s == "Click here"
    ensures CountWords(s) == 2
  {
    ClickHereParts("Click", " ", "here");
    TwoWords("Click", " ", "here");
  }

  lemma ClickHereParts(a: seq<char>, sp: seq<char>, b: seq<char>)
    requires a == "Click" && sp == " " && b == "here"
    ensures a + sp + b == "Click here"
    ensures forall k :: 0 <= k < |a| ==> !IsSpace(a[k])
    ensures forall k :: 0 <= k < |sp| ==> IsSpace(sp[k])
    ensures forall k :: 0 <= k < |b| ==> !IsSpace(b[k])
  {
  }

  /** A link counts as the words of its label. */
  lemma ExampleLink(s: seq<char>)
    requires s == "[Click here](http://x.com)"
    ensures WordCount(CleanText(s)) == 2
  {
    var text, target := "Click here", "http://x.com";
    LinkDocumentParts(s);
    LinkPartsFree(text, target);
    LinkCountsAsText("", text, target, "");
    var u := "" + text + "";
    assert u == text;
    ClickHereIsPlain(u);
    ClickHereCount(u);
    PlainTextUnchanged(u);
    WordCountIsWords(u);
  }

  /** An image leaves `!` and its alternative text behind. */
  lemma ExampleImage(s: seq<char>)
    requires s == "![alt](url)"
    ensures CleanText(s) == "!alt"
  {
    ImageExample(s, "alt", "url");
  }

  lemma ImageExample(s: seq<char>, alt: seq<char>, src: seq<char>)
    requires s == "![alt](url)" && alt == "alt" && src == "url"
    ensures CleanText(s) == "!alt"
  {
    ImageDocumentParts(s, alt, src);
    ImageKeepsBangAndAlt(alt, src);
  }

  lemma ImageDocumentParts(s: seq<char>, alt: seq<char>, src: seq<char>)
    requires s == "![alt](url)" && alt == "alt" && src == "url"
    ensures s == "![" + alt + "](" + src + ")" && "!" + alt == "!alt"
    ensures forall k :: 0 <= k < |alt| ==> IsPlain(alt[k])
    ensures ']' !in alt && '`' !in src && ')' !in src
  {
  }
}
