/**
 * The reading-time estimator `calculateReadingTime` of
 * src/utils/content.ts:37-53.
 *
 * Seven global `replace` passes clean the markdown (lines 40-46), the
 * cleaned text is trimmed and split on runs of whitespace (line 49), and
 * the number of pieces divided by the reading speed, rounded up, is the
 * number of minutes (lines 50-52). Each pass is a left-to-right scan that,
 * like the regular-expression engine, tries a match at each position,
 * replaces it and resumes after it, or keeps the character and moves on.
 */
module ReadingTime {
  import opened Text

  const Fence: seq<char> := "```"

  /** No character of `s[i..]` is `c`. */
  predicate Lacks(s: seq<char>, i: nat, c: char)
    requires i <= |s|
  {
    forall k :: i <= k < |s| ==> s[k] != c
  }

  // ---------------------------------------------------------------------
  // Pass 1 (line 40): replace(/```[\s\S]*?```/g, '')
  // ---------------------------------------------------------------------

  /** A fence, three backticks, starts at `k`. */
  predicate FenceAt(s: seq<char>, k: int) {
    0 <= k && k + 3 <= |s| && s[k] == '`' && s[k + 1] == '`' && s[k + 2] == '`'
  }

  /** The first fence that starts at or after `from`. */
  function FindFence(s: seq<char>, from: nat): (r: Option<nat>)
    requires from <= |s|
    ensures r.Some? ==> from <= r.value && FenceAt(s, r.value)
    ensures r.Some? ==> forall k :: from <= k < r.value ==> !FenceAt(s, k)
    ensures r.None? ==> forall k :: from <= k ==> !FenceAt(s, k)
    decreases |s| - from
  {
    if from + 3 > |s| then None
    else if FenceAt(s, from) then Some(from)
    else FindFence(s, from + 1)
  }

  /**
   * The end of the fenced block that opens at `i`: the lazy `[\s\S]*?`
   * stops at the first closing fence, which may not overlap the opening one.
   */
  function FenceEnd(s: seq<char>, i: nat): (r: Option<nat>)
    requires i <= |s|
    ensures r.Some? ==> i + 6 <= r.value <= |s| && FenceAt(s, i) && FenceAt(s, r.value - 3)
    ensures r.Some? ==> forall k :: i + 3 <= k < r.value - 3 ==> !FenceAt(s, k)
    ensures r.None? && FenceAt(s, i) ==> forall k :: i + 3 <= k ==> !FenceAt(s, k)
  {
    if FenceAt(s, i) then
      match FindFence(s, i + 3)
      case None => None
      case Some(j) => Some(j + 3)
    else None
  }

  /** Pass 1 from position `i` on. */
  function StripFencedCodeFrom(s: seq<char>, i: nat): (r: seq<char>)
    requires i <= |s|
    ensures |r| <= |s| - i
    decreases |s| - i
  {
    if i == |s| then []
    else
      match FenceEnd(s, i)
      case Some(e) => StripFencedCodeFrom(s, e)
      case None => [s[i]] + StripFencedCodeFrom(s, i + 1)
  }

  /** Pass 1: text without backticks is kept; `FencedBlockRemoved` states what happens to a block. */
  function StripFencedCode(s: seq<char>): (r: seq<char>)
    ensures |r| <= |s|
    ensures '`' !in s ==> r == s
  {
    if '`' !in s then
      FencedCodeKeepsPlain(s, 0, |s|);
      assert s[0..|s|] == s;
      StripFencedCodeFrom(s, 0)
    else
      StripFencedCodeFrom(s, 0)
  }

  /** A character other than a backtick is copied. */
  lemma FencedStepPlain(s: seq<char>, i: nat)
    requires i < |s| && s[i] != '`'
    ensures StripFencedCodeFrom(s, i) == [s[i]] + StripFencedCodeFrom(s, i + 1)
  {
    assert FenceEnd(s, i).None?;
  }

  lemma {:induction false} FencedCodeKeepsPlain(s: seq<char>, i: nat, j: nat)
    requires i <= j <= |s| && forall k :: i <= k < j ==> s[k] != '`'
    ensures StripFencedCodeFrom(s, i) == s[i..j] + StripFencedCodeFrom(s, j)
    decreases j - i
  {
    if i < j {
      var rest := StripFencedCodeFrom(s, j);
      FencedCodeKeepsPlain(s, i + 1, j);
      FencedStepPlain(s, i);
      ConsSlice(s, i, j, rest);
    } else {
      assert s[i..j] == [];
    }
  }

  /** The first fence at or after `from` is the one `FindFence` finds. */
  lemma FindFenceIs(s: seq<char>, from: nat, k: nat)
    requires from <= k && FenceAt(s, k)
    requires forall j :: from <= j < k ==> !FenceAt(s, j)
    ensures FindFence(s, from) == Some(k)
  {
  }

  /** The block `s[i..close + 3]` is deleted and the text around it, free of backticks, kept. */
  lemma FenceInContext(s: seq<char>, i: nat, close: nat)
    requires i + 3 <= close && FenceAt(s, i) && FenceAt(s, close)
    requires forall k :: 0 <= k < i ==> s[k] != '`'
    requires forall k :: i + 3 <= k < close ==> !FenceAt(s, k)
    requires forall k :: close + 3 <= k < |s| ==> s[k] != '`'
    ensures StripFencedCode(s) == s[..i] + s[close + 3..]
  {
    FencedStepBlock(s, i, close);
    FencedCodeKeepsPlain(s, close + 3, |s|);
    FencedCodeKeepsPlain(s, 0, i);
    assert s[close + 3..|s|] == s[close + 3..] && s[0..i] == s[..i];
  }

  /** A fenced block from `i` to `close + 3` is deleted. */
  lemma FencedStepBlock(s: seq<char>, i: nat, close: nat)
    requires i + 3 <= close && FenceAt(s, i) && FenceAt(s, close)
    requires forall k :: i + 3 <= k < close ==> !FenceAt(s, k)
    ensures StripFencedCodeFrom(s, i) == StripFencedCodeFrom(s, close + 3)
  {
    FindFenceIs(s, i + 3, close);
  }

  /**
   * `code` can be the body of a fenced block: no fence starts inside it, so
   * the lazy `[\s\S]*?` runs to the fence after it. Backticks are allowed
   * as long as no three in a row reach the closing fence.
   */
  predicate BlockBody(code: seq<char>) {
    forall k :: 0 <= k < |code| ==> !FenceAt(code + Fence, k)
  }

  /**
   * A fenced block is deleted with both fences, and text without backticks
   * around it is kept.
   */
  lemma FencedBlockRemoved(pre: seq<char>, code: seq<char>, post: seq<char>)
    requires forall k :: 0 <= k < |pre| ==> pre[k] != '`'
    requires BlockBody(code)
    requires forall k :: 0 <= k < |post| ==> post[k] != '`'
    ensures StripFencedCode(pre + Fence + code + Fence + post) == pre + post
  {
    var s := pre + Fence + code + Fence + post;
    var i := |pre|;
    var close := i + 3 + |code|;
    assert s[..i] == pre && s[close + 3..] == post;
    assert FenceAt(s, i) && FenceAt(s, close);
    forall k | 0 <= k < i ensures s[k] != '`' {
      assert s[k] == pre[k];
    }
    forall k | i + 3 <= k < close ensures !FenceAt(s, k) {
      var body := code + Fence;
      assert s[i + 3..close + 3] == body;
      assert !FenceAt(body, k - i - 3);
      assert s[k] == body[k - i - 3] && s[k + 1] == body[k - i - 2] && s[k + 2] == body[k - i - 1];
    }
    forall k | close + 3 <= k < |s| ensures s[k] != '`' {
      assert s[k] == post[k - close - 3];
    }
    FenceInContext(s, i, close);
  }

  // ---------------------------------------------------------------------
  // Pass 2 (line 41): replace(/`[^`]*`/g, '')
  // ---------------------------------------------------------------------

  /** The end of the inline code span that opens at `i`: just after the next backtick. */
  function InlineCodeEnd(s: seq<char>, i: nat): (r: Option<nat>)
    requires i < |s|
    ensures r.Some? ==> s[i] == '`' && i + 2 <= r.value <= |s| && s[r.value - 1] == '`'
    ensures r.Some? ==> forall k :: i < k < r.value - 1 ==> s[k] != '`'
    ensures r.None? && s[i] == '`' ==> Lacks(s, i + 1, '`')
  {
    if s[i] == '`' then
      match FindChar(s, '`', i + 1)
      case None => None
      case Some(j) => Some(j + 1)
    else None
  }

  /** Pass 2 from position `i` on. */
  function StripInlineCodeFrom(s: seq<char>, i: nat): (r: seq<char>)
    requires i <= |s|
    ensures |r| <= |s| - i
    ensures Lacks(s, i, '`') ==> r == s[i..]
    decreases |s| - i
  {
    if i == |s| then []
    else
      match InlineCodeEnd(s, i)
      case Some(e) => StripInlineCodeFrom(s, e)
      case None =>
        assert s[i..] == [s[i]] + s[i + 1..];
        [s[i]] + StripInlineCodeFrom(s, i + 1)
  }

  /** Pass 2: at most one backtick survives, and text without backticks is kept. */
  function StripInlineCode(s: seq<char>): (r: seq<char>)
    ensures AtMostOnce(r, '`')
    ensures '`' !in s ==> r == s
  {
    InlineCodeLeavesOneBacktick(s, 0);
    assert s[0..] == s;
    StripInlineCodeFrom(s, 0)
  }

  /** A character other than a backtick is copied. */
  lemma InlineStepPlain(s: seq<char>, i: nat)
    requires i < |s| && s[i] != '`'
    ensures StripInlineCodeFrom(s, i) == [s[i]] + StripInlineCodeFrom(s, i + 1)
  {
    assert InlineCodeEnd(s, i).None?;
  }

  lemma {:induction false} InlineCodeKeepsPlain(s: seq<char>, i: nat, j: nat)
    requires i <= j <= |s| && forall k :: i <= k < j ==> s[k] != '`'
    ensures StripInlineCodeFrom(s, i) == s[i..j] + StripInlineCodeFrom(s, j)
    decreases j - i
  {
    if i < j {
      var rest := StripInlineCodeFrom(s, j);
      InlineCodeKeepsPlain(s, i + 1, j);
      InlineStepPlain(s, i);
      ConsSlice(s, i, j, rest);
    } else {
      assert s[i..j] == [];
    }
  }

  /** The span `s[i..close + 1]` is deleted, backticks and all, and the text around it, free of backticks, kept. */
  lemma InlineCodeInContext(s: seq<char>, i: nat, close: nat)
    requires i < close < |s| && s[i] == '`' && s[close] == '`'
    requires forall k :: 0 <= k < i ==> s[k] != '`'
    requires forall k :: i < k < close ==> s[k] != '`'
    requires forall k :: close < k < |s| ==> s[k] != '`'
    ensures StripInlineCode(s) == s[..i] + s[close + 1..]
  {
    assert StripInlineCodeFrom(s, i) == StripInlineCodeFrom(s, close + 1) by {
      FindCharIs(s, '`', i + 1, close);
    }
    assert StripInlineCodeFrom(s, close + 1) == s[close + 1..] by {
      assert Lacks(s, close + 1, '`');
    }
    assert StripInlineCodeFrom(s, 0) == s[..i] + StripInlineCodeFrom(s, i) by {
      InlineCodeKeepsPlain(s, 0, i);
      assert s[0..i] == s[..i];
    }
  }

  /** A code span between backtick-free text is deleted with its backticks; the text around it is kept. */
  lemma InlineCodeRemoved(pre: seq<char>, code: seq<char>, post: seq<char>)
    requires '`' !in pre && '`' !in code && '`' !in post
    ensures StripInlineCode(pre + "`" + code + "`" + post) == pre + post
  {
    var s := pre + "`" + code + "`" + post;
    var i := |pre|;
    var close := i + 1 + |code|;
    assert s[..i] == pre && s[close + 1..] == post;
    assert s[i] == '`' && s[close] == '`';
    forall k | 0 <= k < i ensures s[k] != '`' {
      assert s[k] == pre[k];
    }
    forall k | i < k < close ensures s[k] != '`' {
      assert s[k] == code[k - i - 1];
    }
    forall k | close < k < |s| ensures s[k] != '`' {
      assert s[k] == post[k - close - 1];
    }
    InlineCodeInContext(s, i, close);
  }

  // ---------------------------------------------------------------------
  // Pass 3 (line 42): replace(/\[([^\]]*)\]\([^)]*\)/g, '$1')
  // ---------------------------------------------------------------------

  /** A link `[label](target)` at `i`: the label is `s[i + 1..labelEnd]`, the match ends at `end`. */
  datatype LinkMatch = LinkMatch(labelEnd: nat, end: nat)

  /**
   * `s[i..end]` is a match of `\[([^\]]*)\]\([^)]*\)` whose label ends at
   * `labelEnd`: the label holds no `]` and the target no `)`.
   */
  predicate IsLink(s: seq<char>, i: nat, labelEnd: nat, end: nat) {
    i < labelEnd && labelEnd + 3 <= end <= |s| &&
    s[i] == '[' && s[labelEnd] == ']' && s[labelEnd + 1] == '(' && s[end - 1] == ')' &&
    (forall k :: i < k < labelEnd ==> s[k] != ']') &&
    (forall k :: labelEnd + 2 <= k < end - 1 ==> s[k] != ')')
  }

  /**
   * The link that starts at `i`, if any. `[^\]]*` cannot pass the first
   * `]`, which must be followed by `(`; `[^)]*` cannot pass the first `)`.
   */
  function LinkAt(s: seq<char>, i: nat): (r: Option<LinkMatch>)
    requires i <= |s|
    ensures r.Some? ==> IsLink(s, i, r.value.labelEnd, r.value.end)
    ensures r.None? ==> forall labelEnd: nat, end: nat :: !IsLink(s, i, labelEnd, end)
  {
    if i < |s| && s[i] == '[' then
      match FindChar(s, ']', i + 1)
      case None => None
      case Some(j) =>
        if j + 1 < |s| && s[j + 1] == '(' then
          match FindChar(s, ')', j + 2)
          case None => None
          case Some(k) => Some(LinkMatch(j, k + 1))
        else None
    else None
  }

  /** A link has only one reading: `LinkAt` finds exactly it. */
  lemma LinkAtIs(s: seq<char>, i: nat, labelEnd: nat, end: nat)
    requires IsLink(s, i, labelEnd, end)
    ensures LinkAt(s, i) == Some(LinkMatch(labelEnd, end))
  {
    FindCharIs(s, ']', i + 1, labelEnd);
    FindCharIs(s, ')', labelEnd + 2, end - 1);
  }

  /** Pass 3 from position `i` on. */
  function ReplaceLinksFrom(s: seq<char>, i: nat): (r: seq<char>)
    requires i <= |s|
    ensures |r| <= |s| - i
    decreases |s| - i
  {
    if i == |s| then []
    else
      match LinkAt(s, i)
      case Some(m) => s[i + 1..m.labelEnd] + ReplaceLinksFrom(s, m.end)
      case None => [s[i]] + ReplaceLinksFrom(s, i + 1)
  }

  /** Pass 3: text without `[` is kept; `LinkBecomesText` states what happens to a link. */
  function ReplaceLinks(s: seq<char>): (r: seq<char>)
    ensures |r| <= |s|
    ensures '[' !in s ==> r == s
  {
    if '[' !in s then
      LinksKeepPlain(s, 0, |s|);
      assert s[0..|s|] == s;
      ReplaceLinksFrom(s, 0)
    else
      ReplaceLinksFrom(s, 0)
  }

  /** A character other than `[` is copied. */
  lemma LinksStepPlain(s: seq<char>, i: nat)
    requires i < |s| && s[i] != '['
    ensures ReplaceLinksFrom(s, i) == [s[i]] + ReplaceLinksFrom(s, i + 1)
  {
    assert LinkAt(s, i).None?;
  }

  lemma {:induction false} LinksKeepPlain(s: seq<char>, i: nat, j: nat)
    requires i <= j <= |s| && forall k :: i <= k < j ==> s[k] != '['
    ensures ReplaceLinksFrom(s, i) == s[i..j] + ReplaceLinksFrom(s, j)
    decreases j - i
  {
    if i < j {
      var rest := ReplaceLinksFrom(s, j);
      LinksKeepPlain(s, i + 1, j);
      LinksStepPlain(s, i);
      ConsSlice(s, i, j, rest);
    } else {
      assert s[i..j] == [];
    }
  }

  /** The link `s[i..end]`, whose label ends at `close`, is replaced by its label. */
  lemma LinkInContext(s: seq<char>, i: nat, close: nat, end: nat)
    requires i < close && close + 3 <= end <= |s|
    requires s[i] == '[' && s[close] == ']' && s[close + 1] == '(' && s[end - 1] == ')'
    requires forall k :: 0 <= k < i ==> s[k] != '['
    requires forall k :: i < k < close ==> s[k] != ']'
    requires forall k :: close + 2 <= k < end - 1 ==> s[k] != ')'
    requires forall k :: end <= k < |s| ==> s[k] != '['
    ensures ReplaceLinks(s) == s[..i] + s[i + 1..close] + s[end..]
  {
    LinkAtIs(s, i, close, end);
    assert ReplaceLinksFrom(s, end) == s[end..] by {
      LinksKeepPlain(s, end, |s|);
      assert s[end..|s|] == s[end..];
    }
    assert ReplaceLinksFrom(s, 0) == s[..i] + ReplaceLinksFrom(s, i) by {
      LinksKeepPlain(s, 0, i);
      assert s[0..i] == s[..i];
    }
  }

  /**
   * A link `[text](target)` becomes its text, and the text around it,
   * free of `[`, is kept.
   */
  lemma LinkBecomesText(pre: seq<char>, text: seq<char>, target: seq<char>, post: seq<char>)
    requires forall k :: 0 <= k < |pre| ==> pre[k] != '['
    requires forall k :: 0 <= k < |text| ==> text[k] != ']'
    requires forall k :: 0 <= k < |target| ==> target[k] != ')'
    requires forall k :: 0 <= k < |post| ==> post[k] != '['
    ensures ReplaceLinks(pre + "[" + text + "](" + target + ")" + post) == pre + text + post
  {
    var s := pre + "[" + text + "](" + target + ")" + post;
    var i := |pre|;
    var close := i + 1 + |text|;
    var end := close + 2 + |target| + 1;
    assert s[..i] == pre && s[i + 1..close] == text && s[end..] == post;
    forall k | 0 <= k < i ensures s[k] != '[' {
      assert s[k] == pre[k];
    }
    forall k | i < k < close ensures s[k] != ']' {
      assert s[k] == text[k - i - 1];
    }
    forall k | close + 2 <= k < end - 1 ensures s[k] != ')' {
      assert s[k] == target[k - close - 2];
    }
    forall k | end <= k < |s| ensures s[k] != '[' {
      assert s[k] == post[k - end];
    }
    LinkInContext(s, i, close, end);
  }

  // ---------------------------------------------------------------------
  // Pass 4 (line 43): replace(/!\[[^\]]*\]\([^)]*\)/g, '')
  // ---------------------------------------------------------------------

  /** `s[i..end]` is a match of `!\[[^\]]*\]\([^)]*\)`: a `!` followed by a link. */
  predicate IsImage(s: seq<char>, i: nat, labelEnd: nat, end: nat) {
    i < |s| && s[i] == '!' && IsLink(s, i + 1, labelEnd, end)
  }

  /** The end of the image `![alt](src)` that starts at `i`: a `!` followed by a link. */
  function ImageEnd(s: seq<char>, i: nat): (r: Option<nat>)
    requires i < |s|
    ensures r.Some? ==> s[i] == '!' && i + 5 <= r.value <= |s|
    ensures r.Some? ==> exists labelEnd: nat :: IsImage(s, i, labelEnd, r.value)
    ensures r.None? ==> forall labelEnd: nat, end: nat :: !IsImage(s, i, labelEnd, end)
  {
    if s[i] == '!' then
      match LinkAt(s, i + 1)
      case None => None
      case Some(m) =>
        assert IsImage(s, i, m.labelEnd, m.end);
        Some(m.end)
    else None
  }

  /** Pass 4 from position `i` on. */
  function RemoveImagesFrom(s: seq<char>, i: nat): (r: seq<char>)
    requires i <= |s|
    ensures |r| <= |s| - i
    ensures Lacks(s, i, '!') ==> r == s[i..]
    decreases |s| - i
  {
    if i == |s| then []
    else
      match ImageEnd(s, i)
      case Some(e) => RemoveImagesFrom(s, e)
      case None =>
        assert s[i..] == [s[i]] + s[i + 1..];
        [s[i]] + RemoveImagesFrom(s, i + 1)
  }

  /** Pass 4: text without `!` is kept; `ImageRemoved` states what happens to an image. */
  function RemoveImages(s: seq<char>): (r: seq<char>)
    ensures |r| <= |s|
    ensures '!' !in s ==> r == s
  {
    assert s[0..] == s;
    RemoveImagesFrom(s, 0)
  }

  /** A character other than `!` is copied. */
  lemma ImagesStepPlain(s: seq<char>, i: nat)
    requires i < |s| && s[i] != '!'
    ensures RemoveImagesFrom(s, i) == [s[i]] + RemoveImagesFrom(s, i + 1)
  {
    assert ImageEnd(s, i).None?;
  }

  lemma {:induction false} ImagesKeepPlain(s: seq<char>, i: nat, j: nat)
    requires i <= j <= |s| && forall k :: i <= k < j ==> s[k] != '!'
    ensures RemoveImagesFrom(s, i) == s[i..j] + RemoveImagesFrom(s, j)
    decreases j - i
  {
    if i < j {
      var rest := RemoveImagesFrom(s, j);
      ImagesKeepPlain(s, i + 1, j);
      ImagesStepPlain(s, i);
      ConsSlice(s, i, j, rest);
    } else {
      assert s[i..j] == [];
    }
  }

  /** The image `s[i..end]`, a `!` followed by a link, is deleted. */
  lemma ImageInContext(s: seq<char>, i: nat, close: nat, end: nat)
    requires i + 1 < |s| && s[i] == '!' && IsLink(s, i + 1, close, end)
    requires forall k :: 0 <= k < i ==> s[k] != '!'
    requires forall k :: end <= k < |s| ==> s[k] != '!'
    ensures RemoveImages(s) == s[..i] + s[end..]
  {
    LinkAtIs(s, i + 1, close, end);
    assert ImageEnd(s, i) == Some(end);
    assert RemoveImagesFrom(s, i) == RemoveImagesFrom(s, end);
    assert RemoveImagesFrom(s, end) == s[end..];
    ImagesKeepPlain(s, 0, i);
    assert s[0..i] == s[..i];
  }

  /**
   * An image `![alt](src)` that reaches pass 4 is deleted with its
   * alternative text, and the text around it, free of `!`, is kept.
   */
  lemma ImageRemoved(pre: seq<char>, alt: seq<char>, src: seq<char>, post: seq<char>)
    requires forall k :: 0 <= k < |pre| ==> pre[k] != '!'
    requires forall k :: 0 <= k < |alt| ==> alt[k] != ']'
    requires forall k :: 0 <= k < |src| ==> src[k] != ')'
    requires forall k :: 0 <= k < |post| ==> post[k] != '!'
    ensures RemoveImages(pre + "![" + alt + "](" + src + ")" + post) == pre + post
  {
    var s := pre + "![" + alt + "](" + src + ")" + post;
    var i := |pre|;
    var close := i + 2 + |alt|;
    var end := close + 2 + |src| + 1;
    assert s[..i] == pre && s[end..] == post;
    assert s[i] == '!' && s[i + 1] == '[' && s[close] == ']' && s[close + 1] == '(' && s[end - 1] == ')';
    forall k | 0 <= k < i ensures s[k] != '!' {
      assert s[k] == pre[k];
    }
    forall k | i + 1 < k < close ensures s[k] != ']' {
      assert s[k] == alt[k - i - 2];
    }
    forall k | close + 2 <= k < end - 1 ensures s[k] != ')' {
      assert s[k] == src[k - close - 2];
    }
    forall k | end <= k < |s| ensures s[k] != '!' {
      assert s[k] == post[k - end];
    }
    ImageInContext(s, i, close, end);
  }

  // ---------------------------------------------------------------------
  // Pass 5 (line 44): replace(/#/g, '')
  // ---------------------------------------------------------------------

  predicate NotHash(c: char) { c != '#' }

  function RemoveHashes(s: seq<char>): (r: seq<char>)
    ensures '#' !in r
  {
    Filter(s, NotHash)
  }

  // ---------------------------------------------------------------------
  // Pass 6 (line 45): replace(/\*\*|\*|__|_/g, '')
  // ---------------------------------------------------------------------

  predicate NotEmphasis(c: char) { c != '*' && c != '_' }

  /** The alternation is tried left to right, so a doubled marker goes in one step. */
  function StripEmphasisFrom(s: seq<char>, i: nat): (r: seq<char>)
    requires i <= |s|
    decreases |s| - i
  {
    if i == |s| then []
    else if s[i] == '*' then
      if i + 1 < |s| && s[i + 1] == '*' then StripEmphasisFrom(s, i + 2) else StripEmphasisFrom(s, i + 1)
    else if s[i] == '_' then
      if i + 1 < |s| && s[i + 1] == '_' then StripEmphasisFrom(s, i + 2) else StripEmphasisFrom(s, i + 1)
    else [s[i]] + StripEmphasisFrom(s, i + 1)
  }

  /** Pass 6: the `*` and `_` characters are deleted, whatever their grouping. */
  function StripEmphasis(s: seq<char>): (r: seq<char>)
    ensures r == Filter(s, NotEmphasis)
  {
    StripEmphasisIsFilter(s, 0);
    assert s[0..] == s;
    StripEmphasisFrom(s, 0)
  }

  /** The pass deletes exactly the `*` and `_` characters, whatever their grouping. */
  lemma {:induction false} StripEmphasisIsFilter(s: seq<char>, i: nat)
    requires i <= |s|
    ensures StripEmphasisFrom(s, i) == Filter(s[i..], NotEmphasis)
    decreases |s| - i
  {
    if i < |s| {
      assert s[i..] == [s[i]] + s[i + 1..];
      FilterAppend([s[i]], s[i + 1..], NotEmphasis);
      if !NotEmphasis(s[i]) && i + 1 < |s| && s[i + 1] == s[i] {
        StripEmphasisIsFilter(s, i + 2);
        assert s[i + 1..] == [s[i + 1]] + s[i + 2..];
        FilterAppend([s[i + 1]], s[i + 2..], NotEmphasis);
      } else {
        StripEmphasisIsFilter(s, i + 1);
      }
    }
  }

  // ---------------------------------------------------------------------
  // Pass 7 (line 46): replace(/>\s?/g, '')
  // ---------------------------------------------------------------------

  /** Kept by pass 7 no matter what precedes it: neither `>` nor whitespace. */
  predicate NotQuoteOrSpace(c: char) { c != '>' && !IsSpace(c) }

  function StripQuoteMarkersFrom(s: seq<char>, i: nat): (r: seq<char>)
    requires i <= |s|
    ensures '>' !in r
    decreases |s| - i
  {
    if i == |s| then []
    else if s[i] == '>' then
      if i + 1 < |s| && IsSpace(s[i + 1]) then StripQuoteMarkersFrom(s, i + 2)
      else StripQuoteMarkersFrom(s, i + 1)
    else [s[i]] + StripQuoteMarkersFrom(s, i + 1)
  }

  /** Pass 7: every `>` goes, and every character that is neither `>` nor whitespace stays, in order. */
  function StripQuoteMarkers(s: seq<char>): (r: seq<char>)
    ensures '>' !in r
    ensures Filter(r, NotQuoteOrSpace) == Filter(s, NotQuoteOrSpace)
  {
    StripQuoteMarkersKeeps(s, 0);
    assert s[0..] == s;
    StripQuoteMarkersFrom(s, 0)
  }

  /** Pass 7 deletes `>` and at most the one whitespace character after each; every other character stays. */
  lemma {:induction false} StripQuoteMarkersKeeps(s: seq<char>, i: nat)
    requires i <= |s|
    ensures Filter(StripQuoteMarkersFrom(s, i), NotQuoteOrSpace) == Filter(s[i..], NotQuoteOrSpace)
    decreases |s| - i
  {
    if i < |s| {
      assert Filter(s[i..], NotQuoteOrSpace) == Filter([s[i]], NotQuoteOrSpace) + Filter(s[i + 1..], NotQuoteOrSpace) by {
        assert s[i..] == [s[i]] + s[i + 1..];
        FilterAppend([s[i]], s[i + 1..], NotQuoteOrSpace);
      }
      if s[i] == '>' && i + 1 < |s| && IsSpace(s[i + 1]) {
        StripQuoteMarkersKeeps(s, i + 2);
        assert Filter(s[i + 1..], NotQuoteOrSpace) == Filter(s[i + 2..], NotQuoteOrSpace) by {
          assert s[i + 1..] == [s[i + 1]] + s[i + 2..];
          FilterAppend([s[i + 1]], s[i + 2..], NotQuoteOrSpace);
        }
      } else if s[i] == '>' {
        StripQuoteMarkersKeeps(s, i + 1);
      } else {
        StripQuoteMarkersKeeps(s, i + 1);
        FilterAppend([s[i]], StripQuoteMarkersFrom(s, i + 1), NotQuoteOrSpace);
      }
    }
  }

  lemma {:induction false} QuoteKeepsPlain(s: seq<char>, i: nat, j: nat)
    requires i <= j <= |s| && forall k :: i <= k < j ==> s[k] != '>'
    ensures StripQuoteMarkersFrom(s, i) == s[i..j] + StripQuoteMarkersFrom(s, j)
    decreases j - i
  {
    if i < j {
      var rest := StripQuoteMarkersFrom(s, j);
      QuoteKeepsPlain(s, i + 1, j);
      ConsSlice(s, i, j, rest);
    } else {
      assert s[i..j] == [];
    }
  }

  /**
   * The only `>` of `s`, at `i`, is deleted with the one whitespace character
   * after it, if there is one; every other character is kept.
   */
  lemma QuoteMarkerInContext(s: seq<char>, i: nat)
    requires i < |s| && s[i] == '>'
    requires forall k :: 0 <= k < |s| && k != i ==> s[k] != '>'
    ensures StripQuoteMarkers(s) ==
            s[..i] + (if i + 1 < |s| && IsSpace(s[i + 1]) then s[i + 2..] else s[i + 1..])
  {
    QuoteKeepsPlain(s, 0, i);
    assert s[0..] == s && s[0..i] == s[..i];
    if i + 1 < |s| && IsSpace(s[i + 1]) {
      QuoteFreeUnchanged(s, i + 2);
    } else {
      QuoteFreeUnchanged(s, i + 1);
    }
  }

  /** `>` and at most the one whitespace character after it are deleted; the text around them is kept. */
  lemma QuoteMarkerRemoved(pre: seq<char>, post: seq<char>)
    requires '>' !in pre && '>' !in post
    ensures StripQuoteMarkers(pre + ">" + post) ==
            pre + (if post != [] && IsSpace(post[0]) then post[1..] else post)
  {
    var s := pre + ">" + post;
    var i := |pre|;
    assert s[..i] == pre && s[i + 1..] == post && s[i] == '>';
    forall k | 0 <= k < |s| && k != i ensures s[k] != '>' {
      if k < i {
        assert s[k] == pre[k];
      } else {
        assert s[k] == post[k - i - 1];
      }
    }
    if post != [] {
      assert s[i + 1] == post[0] && s[i + 2..] == post[1..];
    }
    QuoteMarkerInContext(s, i);
  }

  /** Text without `>` passes pass 7 unchanged. */
  lemma {:induction false} QuoteFreeUnchanged(s: seq<char>, i: nat)
    requires i <= |s| && Lacks(s, i, '>')
    ensures StripQuoteMarkersFrom(s, i) == s[i..]
    decreases |s| - i
  {
    if i < |s| {
      QuoteFreeUnchanged(s, i + 1);
      assert s[i..] == [s[i]] + s[i + 1..];
    }
  }

  /**
   * After pass 2 at most one backtick is left: a backtick stays only when no
   * other follows it, and then nothing after it is touched.
   */
  predicate AtMostOnce(r: seq<char>, c: char) {
    forall j, k :: 0 <= j < k < |r| && r[j] == c ==> r[k] != c
  }

  lemma {:induction false} InlineCodeLeavesOneBacktick(s: seq<char>, i: nat)
    requires i <= |s|
    ensures AtMostOnce(StripInlineCodeFrom(s, i), '`')
    decreases |s| - i
  {
    if i < |s| {
      match InlineCodeEnd(s, i)
      case Some(e) =>
        InlineCodeLeavesOneBacktick(s, e);
      case None =>
        var rest := StripInlineCodeFrom(s, i + 1);
        InlineCodeLeavesOneBacktick(s, i + 1);
        if s[i] == '`' {
          assert rest == s[i + 1..];
        }
        var r := [s[i]] + rest;
        forall j, k | 0 <= j < k < |r| && r[j] == '`'
          ensures r[k] != '`'
        {
          assert r[k] == rest[k - 1];
          if j > 0 {
            assert r[j] == rest[j - 1];
          }
        }
    }
  }

  // ---------------------------------------------------------------------
  // Lines 39-46: the passes in order
  // ---------------------------------------------------------------------

  /** `cleanText`: the seven passes, applied in the order of lines 40-46. */
  function CleanText(content: seq<char>): (r: seq<char>)
    ensures '#' !in r && '*' !in r && '_' !in r && '>' !in r
  {
    var s1 := StripFencedCode(content);
    var s2 := StripInlineCode(s1);
    var s3 := ReplaceLinks(s2);
    var s4 := RemoveImages(s3);
    var s5 := RemoveHashes(s4);
    var s6 := StripEmphasis(s5);
    var s7 := StripQuoteMarkers(s6);
    NoMarkersSurvive(s5);
    s7
  }

  /** Neither of the last two passes can bring back a `#`, `*` or `_`. */
  lemma NoMarkersSurvive(s5: seq<char>)
    requires '#' !in s5
    ensures var r := StripQuoteMarkers(StripEmphasis(s5));
            '#' !in r && '*' !in r && '_' !in r && '>' !in r
  {
    var s6 := StripEmphasis(s5);
    assert '#' !in s6 && '*' !in s6 && '_' !in s6 by {
      FilterMembership(s5, NotEmphasis);
    }
    QuotePassAddsNothing(s6, 0, '#');
    QuotePassAddsNothing(s6, 0, '*');
    QuotePassAddsNothing(s6, 0, '_');
  }

  /** Pass 7 only deletes: a character absent before it is absent after it. */
  lemma {:induction false} QuotePassAddsNothing(s: seq<char>, i: nat, c: char)
    requires i <= |s| && Lacks(s, i, c)
    ensures c !in StripQuoteMarkersFrom(s, i)
    decreases |s| - i
  {
    if i < |s| {
      if s[i] == '>' && i + 1 < |s| && IsSpace(s[i + 1]) {
        QuotePassAddsNothing(s, i + 2, c);
      } else {
        QuotePassAddsNothing(s, i + 1, c);
      }
    }
  }

  /** None of the passes looks at `c`. */
  predicate IsPlain(c: char) {
    c != '`' && c != '[' && c != '!' && c != '#' && c != '*' && c != '_' && c != '>'
  }

  /** Passes 5 to 7 leave text without `#`, `*`, `_` and `>` as it is. */
  lemma MarkerPassesKeep(s: seq<char>)
    requires '#' !in s && '*' !in s && '_' !in s && '>' !in s
    ensures StripQuoteMarkers(StripEmphasis(RemoveHashes(s))) == s
  {
    assert RemoveHashes(s) == s;
    assert StripEmphasis(s) == s;
    QuoteFreeUnchanged(s, 0);
  }

  /** Plain prose, free of every character the passes look for, is left as it is. */
  lemma PlainTextUnchanged(s: seq<char>)
    requires forall k :: 0 <= k < |s| ==> IsPlain(s[k])
    ensures CleanText(s) == s
  {
    assert '`' !in s && '[' !in s && '!' !in s;
    MarkerPassesKeep(s);
  }

  /** Words inside a fenced block do not count: cleaning drops the block and keeps the prose around it. */
  lemma FencedCodeDoesNotCount(pre: seq<char>, code: seq<char>, post: seq<char>)
    requires '`' !in pre && BlockBody(code) && '`' !in post
    ensures CleanText(pre + Fence + code + Fence + post) == CleanText(pre + post)
  {
    var s := pre + post;
    assert StripFencedCode(pre + Fence + code + Fence + post) == StripFencedCode(s) by {
      FencedBlockRemoved(pre, code, post);
      assert '`' !in s;
    }
    SameAfterFirstPass(pre + Fence + code + Fence + post, s);
  }

  /** Everything after pass 1 depends on its result alone. */
  lemma SameAfterFirstPass(a: seq<char>, b: seq<char>)
    requires StripFencedCode(a) == StripFencedCode(b)
    ensures CleanText(a) == CleanText(b)
  {
  }

  /** Everything after pass 3 depends on its result alone. */
  lemma SameAfterLinkPass(a: seq<char>, b: seq<char>)
    requires ReplaceLinks(StripInlineCode(StripFencedCode(a))) == ReplaceLinks(StripInlineCode(StripFencedCode(b)))
    ensures CleanText(a) == CleanText(b)
  {
  }

  /** A link counts as the words of its label (the text around it free of code and `[`). */
  lemma LinkCountsAsText(pre: seq<char>, text: seq<char>, target: seq<char>, post: seq<char>)
    requires '`' !in pre && '`' !in text && '`' !in target && '`' !in post
    requires '[' !in pre && '[' !in text && ']' !in text && ')' !in target && '[' !in post
    ensures CleanText(pre + "[" + text + "](" + target + ")" + post) == CleanText(pre + text + post)
  {
    var s := pre + "[" + text + "](" + target + ")" + post;
    var u := pre + text + post;
    assert ReplaceLinks(StripInlineCode(StripFencedCode(s))) == u by {
      assert '`' !in s;
        LinkBecomesText(pre, text, target, post);
    }
    assert '`' !in u && '[' !in u;
    SameAfterLinkPass(s, u);
  }

  /**
   * An image `![alt](src)` is not removed: the link pass (line 42) runs
   * first and leaves `!` followed by the alternative text, which the image
   * pass (line 43) no longer matches.
   */
  lemma ImageKeepsBangAndAlt(alt: seq<char>, src: seq<char>)
    requires forall k :: 0 <= k < |alt| ==> IsPlain(alt[k])
    requires ']' !in alt && '`' !in src && ')' !in src
    ensures CleanText("![" + alt + "](" + src + ")") == "!" + alt
  {
    var s := "![" + alt + "](" + src + ")";
    assert s == "!" + "[" + alt + "](" + src + ")" + "";
    assert '`' !in s;
    LinkBecomesText("!", alt, src, "");
    var b := "!" + alt;
    assert b == "!" + alt + "";
    assert RemoveImages(b) == b by {
      assert LinkAt(b, 1).None?;
      assert Lacks(b, 1, '!');
      assert b[0..] == [b[0]] + b[1..];
    }
    MarkerPassesKeep(b);
  }

  /**
   * A linked image `[![alt](src)](url)` disappears: the link pass (line 42)
   * stops at the first `]` and `)`, leaving `![alt](url)`, which the image
   * pass (line 43) then deletes.
   */
  lemma LinkedImageDisappears(alt: seq<char>, src: seq<char>, url: seq<char>)
    requires '`' !in alt && '`' !in src && '`' !in url
    requires ']' !in alt && ')' !in src && '[' !in url && ')' !in url
    ensures CleanText("[![" + alt + "](" + src + ")](" + url + ")") == ""
  {
    var s := "[![" + alt + "](" + src + ")](" + url + ")";
    var image := "![" + alt + "](" + url + ")";
    LinkPassUnwrapsImage(s, alt, src, url);
    assert RemoveImages(image) == "" by {
      assert image == "" + "![" + alt + "](" + url + ")" + "";
      ImageRemoved("", alt, url, "");
    }
  }

  /** Passes 1 to 3 turn `[![alt](src)](url)` into `![alt](url)`. */
  lemma LinkPassUnwrapsImage(s: seq<char>, alt: seq<char>, src: seq<char>, url: seq<char>)
    requires s == "[![" + alt + "](" + src + ")](" + url + ")"
    requires '`' !in alt && '`' !in src && '`' !in url
    requires ']' !in alt && ')' !in src && '[' !in url
    ensures ReplaceLinks(StripInlineCode(StripFencedCode(s))) == "![" + alt + "](" + url + ")"
  {
    var caption, rest := "![" + alt, "](" + url + ")";
    assert s == "" + "[" + caption + "](" + src + ")" + rest;
    assert '`' !in s;
    LinkBecomesText("", caption, src, rest);
    assert "" + caption + rest == "![" + alt + "](" + url + ")";
  }

  // ---------------------------------------------------------------------
  // Line 49: cleanText.trim().split(/\s+/).length
  // ---------------------------------------------------------------------

  predicate NoSpace(w: seq<char>) {
    forall k :: 0 <= k < |w| ==> !IsSpace(w[k])
  }

  /**
   * `split(/\s+/)`: the pieces between maximal runs of whitespace. There is
   * always at least one piece, even for the empty string.
   */
  function Split(t: seq<char>): (pieces: seq<seq<char>>)
    ensures |pieces| >= 1
    ensures forall k :: 0 <= k < |pieces| ==> NoSpace(pieces[k])
    decreases |t|
  {
    var j := RunEnd(t, 0, NotSpace);
    if j == |t| then [t]
    else [t[..j]] + Split(t[RunEnd(t, j, IsSpace)..])
  }

  /** `words` of line 49. */
  function WordCount(clean: seq<char>): (n: nat)
    ensures n >= 1
  {
    |Split(Trim(clean))|
  }

  /** The number of words of `t`, counted as maximal runs of non-whitespace characters. */
  function CountWords(t: seq<char>): nat
    decreases |t|
  {
    if t == [] then 0
    else if IsSpace(t[0]) then CountWords(t[1..])
    else 1 + CountWords(t[RunEnd(t, 0, NotSpace)..])
  }

  /** Whitespace between `j` and `k` adds no word. */
  lemma {:induction false} SkipSpaces(t: seq<char>, j: nat, k: nat)
    requires j <= k <= |t| && forall i :: j <= i < k ==> IsSpace(t[i])
    ensures CountWords(t[j..]) == CountWords(t[k..])
    decreases k - j
  {
    if j < k {
      assert t[j..][1..] == t[j + 1..];
      SkipSpaces(t, j + 1, k);
    }
  }

  lemma {:induction false} TrailingSpaces(x: seq<char>, sp: seq<char>)
    requires forall k :: 0 <= k < |sp| ==> IsSpace(sp[k])
    ensures CountWords(x + sp) == CountWords(x)
    decreases |x|
  {
    if x == [] {
      assert x + sp == sp && sp[0..] == sp;
      SkipSpaces(sp, 0, |sp|);
    } else if IsSpace(x[0]) {
      assert (x + sp)[1..] == x[1..] + sp;
      TrailingSpaces(x[1..], sp);
    } else {
      var j := RunEnd(x, 0, NotSpace);
      RunEndIs(x + sp, 0, NotSpace, j);
      assert (x + sp)[j..] == x[j..] + sp;
      TrailingSpaces(x[j..], sp);
    }
  }

  /** Trimming removes whitespace only, so no word is lost. */
  lemma CountWordsOfTrim(t: seq<char>)
    ensures CountWords(Trim(t)) == CountWords(t)
  {
    var r := Trim(t);
    var a :| StrippedAt(t, r, a, IsSpace);
    CountWordsOfStripped(t, r, a);
  }

  lemma CountWordsOfStripped(t: seq<char>, r: seq<char>, a: nat)
    requires StrippedAt(t, r, a, IsSpace)
    ensures CountWords(r) == CountWords(t)
  {
    var back := t[a + |r|..];
    assert CountWords(t) == CountWords(t[a..]) by {
      assert t[0..] == t;
      SkipSpaces(t, 0, a);
    }
    assert CountWords(t[a..]) == CountWords(r) by {
      assert t[a..] == r + back;
      forall k | 0 <= k < |back| ensures IsSpace(back[k]) {
        assert back[k] == t[a + |r| + k];
      }
      TrailingSpaces(r, back);
    }
  }

  /** A word at the front counts one, and counting goes on after it. */
  lemma CountWordsAtWord(t: seq<char>, j: nat)
    requires t != [] && !IsSpace(t[0]) && j == RunEnd(t, 0, NotSpace)
    ensures CountWords(t) == 1 + CountWords(t[j..])
  {
  }

  /** The first piece of a split ends at the first whitespace; the next starts after the run. */
  lemma SplitAt(t: seq<char>, j: nat, k: nat)
    requires j == RunEnd(t, 0, NotSpace) && j < |t| && k == RunEnd(t, j, IsSpace)
    ensures Split(t) == [t[..j]] + Split(t[k..])
  {
  }

  /** On trimmed non-empty text, splitting yields one piece per word. */
  lemma {:induction false} SplitCountsWords(u: seq<char>)
    requires u != [] && !IsSpace(u[0]) && !IsSpace(u[|u| - 1])
    ensures |Split(u)| == CountWords(u)
    decreases |u|
  {
    var j := RunEnd(u, 0, NotSpace);
    CountWordsAtWord(u, j);
    if j < |u| {
      var k := RunEnd(u, j, IsSpace);
      assert k < |u|;
      SplitAt(u, j, k);
      SplitCountsWords(u[k..]);
      assert CountWords(u[j..]) == CountWords(u[k..]) by {
        SkipSpaces(u, j, k);
      }
    } else {
      assert u[j..] == [];
    }
  }

  /**
   * Line 49 counts the words, except that text without a word still counts
   * as one: `"".split(/\s+/)` is `[""]`.
   */
  lemma WordCountIsWords(clean: seq<char>)
    ensures WordCount(clean) == if CountWords(clean) == 0 then 1 else CountWords(clean)
  {
    var u := Trim(clean);
    CountWordsOfTrim(clean);
    if u != [] {
      SplitCountsWords(u);
    }
  }

  // ---------------------------------------------------------------------
  // Lines 50-52: minutes and the result string
  // ---------------------------------------------------------------------

  /** `Math.ceil(words / wordsPerMinute)`: the least `r` with `words <= r * wordsPerMinute`. */
  function CeilDiv(a: nat, b: nat): (r: nat)
    requires b > 0
    ensures a <= r * b
    ensures r == 0 || (r - 1) * b < a
    ensures a > 0 ==> r > 0
  {
    var q := a / b;
    if a % b == 0 then q else q + 1
  }

  function DigitChar(d: nat): (c: char)
    requires d < 10
    ensures IsDigit(c)
  {
    ('0' as int + d) as char
  }

  function DigitValue(c: char): (d: nat)
    requires IsDigit(c)
    ensures d < 10
  {
    c as int - '0' as int
  }

  /** Template-literal formatting of a number: its decimal digits, with no leading zero. */
  function NatToString(n: nat): (s: seq<char>)
    ensures |s| >= 1 && forall k :: 0 <= k < |s| ==> IsDigit(s[k])
    ensures |s| > 1 ==> s[0] != '0'
  {
    if n < 10 then [DigitChar(n)] else NatToString(n / 10) + [DigitChar(n % 10)]
  }

  /** The value of a string of decimal digits. */
  function ParseDecimal(s: seq<char>): nat
    requires forall k :: 0 <= k < |s| ==> IsDigit(s[k])
  {
    if s == [] then 0 else ParseDecimal(s[..|s| - 1]) * 10 + DigitValue(s[|s| - 1])
  }

  lemma {:induction false} NatToStringRoundTrip(n: nat)
    ensures ParseDecimal(NatToString(n)) == n
  {
    if n >= 10 {
      NatToStringRoundTrip(n / 10);
      var s := NatToString(n);
      assert s[..|s| - 1] == NatToString(n / 10);
    }
  }

  /** `calculateReadingTime(content, wordsPerMinute)`. */
  function CalculateReadingTime(content: seq<char>, wordsPerMinute: nat): (r: seq<char>)
    requires wordsPerMinute > 0
    ensures var minutes := CeilDiv(WordCount(CleanText(content)), wordsPerMinute);
            minutes >= 1 && r == NatToString(minutes) + " min read"
  {
    var words := WordCount(CleanText(content));
    var minutes := CeilDiv(words, wordsPerMinute);
    NatToString(minutes) + " min read"
  }

  /** The default reading speed of line 37. */
  const DefaultWordsPerMinute: nat := 200

  /** The estimate is never `"0 min read"`. */
  lemma NeverZeroMinutes(content: seq<char>, wordsPerMinute: nat)
    requires wordsPerMinute > 0
    ensures CalculateReadingTime(content, wordsPerMinute) != "0 min read"
  {
    var minutes := CeilDiv(WordCount(CleanText(content)), wordsPerMinute);
    var digits := NatToString(minutes);
    assert CalculateReadingTime(content, wordsPerMinute) == digits + " min read";
    NatToStringOfPositive(minutes);
    SuffixDecides(digits, "0", " min read");
    ZeroMinRead();
  }

  /** The literal `"0 min read"` in the two parts the result is built from; split out to keep the proof above cheap. */
  lemma ZeroMinRead()
    ensures "0" + " min read" == "0 min read"
  {
  }

  /** Only zero is written `"0"`. */
  lemma NatToStringOfPositive(n: nat)
    requires n > 0
    ensures NatToString(n) != "0"
  {
    NatToStringRoundTrip(n);
    assert ParseDecimal("0") == 0 by {
      assert "0"[..0] == [];
    }
  }

  lemma SuffixDecides(x: seq<char>, y: seq<char>, z: seq<char>)
    requires x != y
    ensures x + z != y + z
  {
    assert x == (x + z)[..|x|];
    assert y == (y + z)[..|y|];
  }
}
