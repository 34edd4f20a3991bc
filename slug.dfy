/**
 * The anchor slug of a heading, src/utils/content.ts:15-19: the trimmed
 * heading text is lower-cased, every character outside `[\\w\\s-]` is
 * deleted, each run of `[\\s_-]` becomes one `-`, and the `-` characters left
 * at either end are removed.
 */
module Slugs {
  import opened Text

  /** `toLowerCase` on one character, for ASCII letters. */
  function LowerChar(c: char): (d: char)
    ensures IsAsciiUpper(c) ==> IsAsciiLower(d) && d as int == c as int + 32
    ensures !IsAsciiUpper(c) ==> d == c
  {
    if IsAsciiUpper(c) then (c as int + 32) as char else c
  }

  /** Pass 1 (line 16): `text.toLowerCase()`. */
  function ToLowerCase(s: seq<char>): (r: seq<char>)
    ensures |r| == |s|
    ensures forall i :: 0 <= i < |r| ==> !IsAsciiUpper(r[i])
    ensures forall i :: 0 <= i < |s| && !IsAsciiUpper(s[i]) ==> r[i] == s[i]
    ensures forall i :: 0 <= i < |s| && IsAsciiUpper(s[i]) ==> r[i] as int == s[i] as int + 32
  {
    seq(|s|, i requires 0 <= i < |s| => LowerChar(s[i]))
  }

  /** The characters `[\w\s-]` that pass 2 keeps. */
  predicate IsSlugSource(c: char) { IsWordChar(c) || IsSpace(c) || c == '-' }

  /** Pass 2 (line 17): `replace(/[^\w\s-]/g, '')`. */
  function DropNonSlugChars(s: seq<char>): (r: seq<char>)
    ensures forall i :: 0 <= i < |r| ==> IsSlugSource(r[i])
    ensures forall c :: c in r <==> c in s && IsSlugSource(c)
  {
    FilterMembership(s, IsSlugSource);
    Filter(s, IsSlugSource)
  }

  /** The characters `[\s_-]` that pass 3 collapses. */
  predicate IsSeparator(c: char) { IsSpace(c) || c == '_' || c == '-' }

  predicate NotSeparator(c: char) { !IsSeparator(c) }

  predicate NoDoubleHyphen(s: seq<char>) {
    forall i :: 0 <= i < |s| - 1 ==> !(s[i] == '-' && s[i + 1] == '-')
  }

  /** Pass 3 (line 18): `replace(/[\s_-]+/g, '-')`, each maximal run of separators becomes one `-`. */
  function CollapseSeparators(s: seq<char>): (r: seq<char>)
    ensures forall i :: 0 <= i < |r| ==> r[i] == '-' || !IsSeparator(r[i])
    ensures forall i :: 0 <= i < |r| && r[i] != '-' ==> r[i] in s
    ensures NoDoubleHyphen(r)
    ensures |s| > 0 ==> |r| > 0 && (r[0] == '-' <==> IsSeparator(s[0]))
    decreases |s|
  {
    if s == [] then []
    else if IsSeparator(s[0]) then
      "-" + CollapseSeparators(s[RunEnd(s, 0, IsSeparator)..])
    else
      [s[0]] + CollapseSeparators(s[1..])
  }

  /** Collapsing keeps every non-separator character, in order. */
  lemma {:induction false} CollapseKeepsNonSeparators(s: seq<char>)
    ensures Filter(CollapseSeparators(s), NotSeparator) == Filter(s, NotSeparator)
    decreases |s|
  {
    if s == [] {
    } else if IsSeparator(s[0]) {
      var e := RunEnd(s, 0, IsSeparator);
      CollapseKeepsNonSeparators(s[e..]);
      SeparatorRunFiltersAway(s, e);
      HyphenFiltersAway(CollapseSeparators(s[e..]));
    } else {
      var rest := CollapseSeparators(s[1..]);
      CollapseKeepsNonSeparators(s[1..]);
      assert ([s[0]] + rest)[1..] == rest;
    }
  }

  lemma SeparatorRunFiltersAway(s: seq<char>, e: nat)
    requires e <= |s|
    requires forall k :: 0 <= k < e ==> IsSeparator(s[k])
    ensures Filter(s, NotSeparator) == Filter(s[e..], NotSeparator)
  {
    assert s == s[..e] + s[e..];
    FilterAppend(s[..e], s[e..], NotSeparator);
    assert forall i :: 0 <= i < |s[..e]| ==> !NotSeparator(s[..e][i]);
  }

  lemma HyphenFiltersAway(rest: seq<char>)
    ensures Filter("-" + rest, NotSeparator) == Filter(rest, NotSeparator)
  {
    assert ("-" + rest)[1..] == rest;
  }

  predicate IsHyphen(c: char) { c == '-' }

  /** Pass 4 (line 19): `replace(/^-+|-+$/g, '')`. */
  function TrimHyphens(s: seq<char>): (r: seq<char>)
    ensures |r| > 0 ==> r[0] != '-' && r[|r| - 1] != '-'
    ensures exists a :: StrippedAt(s, r, a, IsHyphen)
  {
    Strip(s, IsHyphen)
  }

  predicate IsSlugChar(c: char) { IsAsciiLower(c) || IsDigit(c) || c == '-' }

  /** The shape every slug has: `[a-z0-9-]*`, no `-` at either end, no `--`. */
  predicate IsSlug(s: seq<char>) {
    (forall i :: 0 <= i < |s| ==> IsSlugChar(s[i])) &&
    (|s| > 0 ==> s[0] != '-' && s[|s| - 1] != '-') &&
    NoDoubleHyphen(s)
  }

  /** The slug of a heading text (src/utils/content.ts:15-19). */
  function Slug(text: seq<char>): (r: seq<char>)
    ensures IsSlug(r)
  {
    var collapsed := CollapseSeparators(DropNonSlugChars(ToLowerCase(text)));
    CollapsedCharsAreSlugChars(text);
    TrimmedIsSlug(collapsed);
    TrimHyphens(collapsed)
  }

  /** After the first three passes only `[a-z0-9-]` is left. */
  lemma CollapsedCharsAreSlugChars(text: seq<char>)
    ensures var c := CollapseSeparators(DropNonSlugChars(ToLowerCase(text)));
            forall i :: 0 <= i < |c| ==> IsSlugChar(c[i])
  {
    var lower := ToLowerCase(text);
    var kept := DropNonSlugChars(lower);
    var collapsed := CollapseSeparators(kept);
    forall i | 0 <= i < |collapsed| ensures IsSlugChar(collapsed[i]) {
      if collapsed[i] != '-' {
        assert collapsed[i] in kept;
        assert collapsed[i] in lower;
      }
    }
  }

  /** Trimming `-` off a text of slug characters without `--` gives a slug. */
  lemma TrimmedIsSlug(c: seq<char>)
    requires forall i :: 0 <= i < |c| ==> IsSlugChar(c[i])
    requires NoDoubleHyphen(c)
    ensures IsSlug(TrimHyphens(c))
  {
    var r := TrimHyphens(c);
    var a :| StrippedAt(c, r, a, IsHyphen);
    assert forall i :: 0 <= i < |r| ==> r[i] == c[a + i];
  }
}

module SlugProperties {
  import opened Text
  import opened Slugs

  predicate IsSlugAlnum(c: char) { IsAsciiLower(c) || IsDigit(c) }

  /** Every lower-case letter and digit of the lower-cased text reaches the slug, in order, and nothing else but `-` does. */
  lemma SlugKeepsLettersAndDigits(text: seq<char>)
    ensures Filter(Slug(text), IsSlugAlnum) == Filter(ToLowerCase(text), IsSlugAlnum)
  {
    var lower := ToLowerCase(text);
    var kept := DropNonSlugChars(lower);
    var collapsed := CollapseSeparators(kept);
    var r := TrimHyphens(collapsed);
    AlnumClasses();
    FilterFilter(lower, IsSlugSource, IsSlugAlnum);
    CollapseKeepsNonSeparators(kept);
    FilterFilter(collapsed, NotSeparator, IsSlugAlnum);
    FilterFilter(kept, NotSeparator, IsSlugAlnum);
    assert Filter(collapsed, IsSlugAlnum) == Filter(lower, IsSlugAlnum);
    FilterOfStrip(collapsed, IsHyphen, IsSlugAlnum);
  }

  lemma AlnumClasses()
    ensures forall c :: IsSlugAlnum(c) ==> IsSlugSource(c)
    ensures forall c :: IsSlugAlnum(c) ==> NotSeparator(c)
  {
  }

  /** Collapsing a text that has only single `-` as separators changes nothing. */
  lemma {:induction false} CollapseUnchanged(s: seq<char>)
    requires forall i :: 0 <= i < |s| ==> s[i] == '-' || !IsSeparator(s[i])
    requires NoDoubleHyphen(s)
    ensures CollapseSeparators(s) == s
    decreases |s|
  {
    if s != [] {
      CollapseUnchanged(s[1..]);
      if IsSeparator(s[0]) {
        assert RunEnd(s, 0, IsSeparator) == 1 by {
          assert |s| > 1 ==> !IsSeparator(s[1]);
        }
      }
    }
  }

  /** Deriving the slug of a slug gives it back. */
  lemma SlugUnchanged(s: seq<char>)
    requires IsSlug(s)
    ensures Slug(s) == s
  {
    SlugHasOnlyHyphenSeparators(s);
    LowerSlugSourceUnchanged(s);
    CollapseUnchanged(s);
    StripUnchanged(s, IsHyphen);
  }

  lemma SlugHasOnlyHyphenSeparators(s: seq<char>)
    requires forall i :: 0 <= i < |s| ==> IsSlugChar(s[i])
    ensures forall i :: 0 <= i < |s| ==> s[i] == '-' || !IsSeparator(s[i])
  {
    forall i | 0 <= i < |s| ensures s[i] == '-' || !IsSeparator(s[i]) {
      SlugCharIsNoSeparator(s[i]);
    }
  }

  lemma SlugCharIsNoSeparator(c: char)
    requires IsSlugChar(c)
    ensures c == '-' || !IsSeparator(c)
  {
  }

  /** The first two passes leave text made only of slug characters and separators alone. */
  lemma LowerSlugSourceUnchanged(s: seq<char>)
    requires forall i :: 0 <= i < |s| ==> IsSlugChar(s[i]) || IsSeparator(s[i])
    ensures DropNonSlugChars(ToLowerCase(s)) == s
  {
    var l := ToLowerCase(s);
    assert l == s by {
      forall i | 0 <= i < |s| ensures l[i] == s[i] {
        assert !IsAsciiUpper(s[i]);
      }
    }
    assert Filter(s, IsSlugSource) == s by {
      assert forall i :: 0 <= i < |s| ==> IsSlugSource(s[i]);
    }
  }

  /** Slug derivation is idempotent (src/utils/content.ts:15-19). */
  lemma SlugIdempotent(text: seq<char>)
    ensures Slug(Slug(text)) == Slug(text)
  {
    SlugUnchanged(Slug(text));
  }

  /** A leading run of separators, ending at `e`, becomes one `-`. */
  lemma CollapseAtRun(s: seq<char>, e: nat)
    requires 0 < e <= |s| && forall k :: 0 <= k < e ==> IsSeparator(s[k])
    requires e == |s| || !IsSeparator(s[e])
    ensures CollapseSeparators(s) == "-" + CollapseSeparators(s[e..])
  {
    RunEndIs(s, 0, IsSeparator, e);
  }

  /** A leading character that is no separator is kept. */
  lemma CollapseAtChar(s: seq<char>)
    requires s != [] && !IsSeparator(s[0])
    ensures CollapseSeparators(s) == [s[0]] + CollapseSeparators(s[1..])
  {
  }

  /** Concatenation regroups; a lemma of its own so that the callers' proof contexts stay small. */
  lemma AppendAssoc(p: seq<char>, a: seq<char>, b: seq<char>)
    ensures p + (a + b) == (p + a) + b
  {
  }

  /** Collapsing `x + y` works on `x` and `y` apart when `x` does not end inside a separator run. */
  lemma {:induction false} CollapseAppend(x: seq<char>, y: seq<char>)
    requires x == [] || !IsSeparator(x[|x| - 1])
    ensures CollapseSeparators(x + y) == CollapseSeparators(x) + CollapseSeparators(y)
    decreases |x|
  {
    var xy := x + y;
    if x == [] {
      assert xy == y;
    } else if IsSeparator(x[0]) {
      var e := RunEnd(x, 0, IsSeparator);
      assert e < |x|;
      assert xy[e..] == x[e..] + y;
      CollapseAppend(x[e..], y);
      CollapseAtRun(x, e);
      assert forall k :: 0 <= k <= e ==> xy[k] == x[k];
      CollapseAtRun(xy, e);
      var a, b := CollapseSeparators(x[e..]), CollapseSeparators(y);
      AppendAssoc("-", a, b);
    } else {
      assert xy[1..] == x[1..] + y;
      CollapseAppend(x[1..], y);
      CollapseAtChar(x);
      CollapseAtChar(xy);
      var a, b := CollapseSeparators(x[1..]), CollapseSeparators(y);
      AppendAssoc([x[0]], a, b);
    }
  }

  lemma NoDoubleHyphenAppend(x: seq<char>, y: seq<char>)
    requires NoDoubleHyphen(x) && NoDoubleHyphen(y)
    requires x != [] && y != [] ==> !(x[|x| - 1] == '-' && y[0] == '-')
    ensures NoDoubleHyphen(x + y)
  {
    var j := x + y;
    forall i | 0 <= i < |j| - 1 ensures !(j[i] == '-' && j[i + 1] == '-') {
      if i + 1 < |x| {
        assert j[i] == x[i] && j[i + 1] == x[i + 1];
      } else if i >= |x| {
        assert j[i] == y[i - |x|] && j[i + 1] == y[i + 1 - |x|];
      }
    }
  }

  /** Lower-casing is the first pass, so the slug does not depend on letter case. */
  lemma SlugIgnoresCase(text: seq<char>)
    ensures Slug(ToLowerCase(text)) == Slug(text)
  {
    var l := ToLowerCase(text);
    assert ToLowerCase(l) == l;
  }

  /** Any run of spaces, `_` or `-` between two slugs becomes exactly one `-`. */
  lemma SlugJoin(a: seq<char>, sep: seq<char>, b: seq<char>)
    requires IsSlug(a) && IsSlug(b) && a != [] && b != [] && sep != []
    requires forall i :: 0 <= i < |sep| ==> IsSeparator(sep[i])
    ensures Slug(a + sep + b) == a + "-" + b
  {
    var s := a + sep + b;
    assert DropNonSlugChars(ToLowerCase(s)) == s by {
      forall i | 0 <= i < |s| ensures IsSlugChar(s[i]) || IsSeparator(s[i]) {
        if i < |a| {
          assert s[i] == a[i];
        } else if i < |a| + |sep| {
          assert s[i] == sep[i - |a|];
        } else {
          assert s[i] == b[i - |a| - |sep|];
        }
      }
      LowerSlugSourceUnchanged(s);
    }
    CollapseJoin(a, sep, b);
    var j := a + "-" + b;
    assert TrimHyphens(j) == j by {
      NoDoubleHyphenAppend(a, "-");
      NoDoubleHyphenAppend(a + "-", b);
      StripUnchanged(j, IsHyphen);
    }
  }

  lemma CollapseJoin(a: seq<char>, sep: seq<char>, b: seq<char>)
    requires IsSlug(a) && IsSlug(b) && a != [] && b != [] && sep != []
    requires forall i :: 0 <= i < |sep| ==> IsSeparator(sep[i])
    ensures CollapseSeparators(a + sep + b) == a + "-" + b
  {
    assert CollapseSeparators(a) == a by {
      SlugHasOnlyHyphenSeparators(a);
      CollapseUnchanged(a);
    }
    assert CollapseSeparators(sep + b) == "-" + b by {
      SlugHasOnlyHyphenSeparators(b);
      CollapseUnchanged(b);
      SlugCharIsNoSeparator(b[0]);
      var sb := sep + b;
      assert forall k :: 0 <= k < |sep| ==> sb[k] == sep[k];
      CollapseAtRun(sb, |sep|);
      assert sb[|sep|..] == b;
    }
    assert CollapseSeparators(a + (sep + b)) == a + ("-" + b) by {
      SlugCharIsNoSeparator(a[|a| - 1]);
      CollapseAppend(a, sep + b);
    }
    AppendAssoc(a, sep, b);
    AppendAssoc(a, "-", b);
  }
}
