/**
 * The heading extractor `getHeadings` of src/utils/content.ts:6-29.
 *
 * The source runs the global multiline regular expression
 * `^(#{1,6})\s+(.+)$` with `exec` until it returns null, and pushes one
 * `{depth, slug, text}` per match. Here the regular expression is a
 * hand-written matcher: `MatchesAt` is the language of the pattern at one
 * position, `MatchAt` is the attempt the backtracking engine makes there,
 * `NextMatch` is one `exec` from `lastIndex`, and `GetHeadings` is the loop.
 */
module Headings {
  import opened Text
  import opened Slugs

  datatype Heading = Heading(depth: nat, slug: seq<char>, text: seq<char>)

  /** The fields every returned heading has: depth 1 to 6, trimmed text, and that text's slug, of slug shape. */
  predicate ValidHeading(h: Heading) {
    1 <= h.depth <= 6 && IsSlug(h.slug) && h.slug == Slug(h.text) &&
    (|h.text| > 0 ==> !IsSpace(h.text[0]) && !IsSpace(h.text[|h.text| - 1]))
  }

  /** One match: it starts at `start`, group 1 is `depth` `#` characters, group 2 is `[textStart, end)`. */
  datatype RegexMatch = RegexMatch(start: nat, depth: nat, textStart: nat, end: nat)

  predicate IsHash(c: char) { c == '#' }

  /** Multiline `^`: the start of the input or just after a line terminator. */
  predicate AtLineStart(s: seq<char>, p: nat)
    requires p <= |s|
  {
    p == 0 || IsLineTerminator(s[p - 1])
  }

  /**
   * `^(#{1,6})\s+(.+)$` matches `s[p..e]` with `h` characters in group 1
   * and `s[a..e]` as group 2 (`.` is any character but a line terminator).
   */
  predicate MatchesAt(s: seq<char>, p: nat, h: nat, a: nat, e: nat) {
    p <= |s| && AtLineStart(s, p) && 1 <= h <= 6 && p + h < a < e <= |s| &&
    (forall k :: p <= k < p + h ==> s[k] == '#') &&
    (forall k :: p + h <= k < a ==> IsSpace(s[k])) &&
    (forall k :: a <= k < e ==> !IsLineTerminator(s[k])) &&
    (e == |s| || IsLineTerminator(s[e]))
  }

  /** The bounds every match keeps: 1 to 6 `#`, then at least one whitespace character, then non-empty group 2. */
  predicate WellFormed(s: seq<char>, m: RegexMatch) {
    1 <= m.depth <= 6 && m.start + m.depth < m.textStart < m.end <= |s|
  }

  /** The last position in `[lo, hi)` that holds no line terminator. */
  function LastNonTerminator(s: seq<char>, lo: nat, hi: nat): (r: Option<nat>)
    requires lo <= hi <= |s|
    ensures r.Some? ==> lo <= r.value < hi && !IsLineTerminator(s[r.value])
    ensures r.Some? ==> forall j :: r.value < j < hi ==> IsLineTerminator(s[j])
    ensures r.None? ==> forall j :: lo <= j < hi ==> IsLineTerminator(s[j])
    decreases hi - lo
  {
    if hi == lo then None
    else if !IsLineTerminator(s[hi - 1]) then Some(hi - 1)
    else LastNonTerminator(s, lo, hi - 1)
  }

  /**
   * The attempt of the backtracking engine at position `p`. `#{1,6}` can
   * only succeed with the whole `#` run. Greedy `\s+` takes the whole run of
   * whitespace; when that run reaches the end of the input, `.+` has nothing
   * left, and `\s+` gives back characters until `.` can match one that is
   * not a line terminator (so `"#  "` matches with group 2 `" "`).
   */
  function MatchAt(s: seq<char>, p: nat): (r: Option<RegexMatch>)
    requires p <= |s|
    ensures r.Some? ==> r.value.start == p && WellFormed(s, r.value)
  {
    if !AtLineStart(s, p) then None
    else
      var q := RunEnd(s, p, IsHash);
      if q - p < 1 || q - p > 6 || q == |s| || !IsSpace(s[q]) then None
      else
        var t := RunEnd(s, q, IsSpace);
        if t < |s| then Some(RegexMatch(p, q - p, t, RunEnd(s, t, NotLineTerminator)))
        else
          match LastNonTerminator(s, q + 1, t)
          case None => None
          case Some(k) => Some(RegexMatch(p, q - p, k, RunEnd(s, k, NotLineTerminator)))
  }

  /** What `MatchAt` returns is a match of the pattern. */
  lemma MatchAtSound(s: seq<char>, p: nat)
    requires p <= |s| && MatchAt(s, p).Some?
    ensures var m := MatchAt(s, p).value; MatchesAt(s, p, m.depth, m.textStart, m.end)
  {
  }

  /** A match at `p` has group 1 equal to the whole `#` run at `p`. */
  lemma HashRunIsGroupOne(s: seq<char>, p: nat, h: nat, a: nat, e: nat)
    requires MatchesAt(s, p, h, a, e)
    ensures RunEnd(s, p, IsHash) == p + h
  {
    var q := RunEnd(s, p, IsHash);
    assert !IsHash(s[p + h]);
    assert forall k :: p <= k < p + h ==> IsHash(s[k]);
  }

  /**
   * No match starts where the `#` run is longer than six characters or is
   * not followed by whitespace (`####### x`, `#hashtag`).
   */
  lemma NoMatchWithoutShortHashRun(s: seq<char>, p: nat)
    requires p <= |s|
    requires var q := RunEnd(s, p, IsHash); q - p > 6 || q == |s| || !IsSpace(s[q])
    ensures forall h: nat, a: nat, e: nat :: !MatchesAt(s, p, h, a, e)
  {
    forall h: nat, a: nat, e: nat | MatchesAt(s, p, h, a, e)
      ensures false
    {
      HashRunIsGroupOne(s, p, h, a, e);
    }
  }

  /**
   * `MatchAt` finds a match exactly when the pattern matches at `p`, and
   * then the one with the longest `\s+`, which is the one the engine tries first.
   */
  lemma MatchAtIsGreedy(s: seq<char>, p: nat)
    requires p <= |s|
    ensures MatchAt(s, p).None? <==> forall h: nat, a: nat, e: nat :: !MatchesAt(s, p, h, a, e)
    ensures MatchAt(s, p).Some? ==>
              forall h: nat, a: nat, e: nat :: MatchesAt(s, p, h, a, e) ==> a <= MatchAt(s, p).value.textStart
  {
    if MatchAt(s, p).Some? {
      MatchAtSound(s, p);
    }
    forall h: nat, a: nat, e: nat | MatchesAt(s, p, h, a, e)
      ensures MatchAt(s, p).Some? && a <= MatchAt(s, p).value.textStart
    {
      HashRunIsGroupOne(s, p, h, a, e);
      var q := p + h;
      var t := RunEnd(s, q, IsSpace);
      assert a <= t;
      if t == |s| {
        assert !IsLineTerminator(s[a]);
        assert a >= q + 1;
      }
    }
  }

  /**
   * A line that starts with 1 to 6 `#`, then whitespace, then text up to the
   * line end is matched with exactly those groups.
   */
  lemma MatchAtHeadingLine(s: seq<char>, p: nat, q: nat, t: nat, e: nat)
    requires p < q < t < e <= |s| && q - p <= 6 && AtLineStart(s, p)
    requires forall k :: p <= k < q ==> s[k] == '#'
    requires forall k :: q <= k < t ==> IsSpace(s[k])
    requires !IsSpace(s[t])
    requires forall k :: t <= k < e ==> !IsLineTerminator(s[k])
    requires e == |s| || IsLineTerminator(s[e])
    ensures MatchAt(s, p) == Some(RegexMatch(p, q - p, t, e))
  {
    RunEndIs(s, p, IsHash, q);
    RunEndIs(s, q, IsSpace, t);
    RunEndIs(s, t, NotLineTerminator, e);
  }

  /** One `exec` from `lastIndex == from`: the first position at or after `from` where `MatchAt` succeeds. */
  function NextMatch(s: seq<char>, from: nat): (r: Option<RegexMatch>)
    requires from <= |s|
    ensures r.Some? ==> from <= r.value.start <= |s| && MatchAt(s, r.value.start) == r
    ensures r.Some? ==> forall p :: from <= p < r.value.start ==> MatchAt(s, p).None?
    ensures r.None? ==> forall p :: from <= p <= |s| ==> MatchAt(s, p).None?
    decreases |s| - from
  {
    var m := MatchAt(s, from);
    if m.Some? || from == |s| then m else NextMatch(s, from + 1)
  }

  /** The first position from `from` on where the pattern matches is the one `exec` finds. */
  lemma NextMatchSkips(s: seq<char>, from: nat, q: nat)
    requires from <= q <= |s| && MatchAt(s, q).Some?
    requires forall p :: from <= p < q ==> MatchAt(s, p).None?
    ensures NextMatch(s, from) == MatchAt(s, q)
  {
    var r := NextMatch(s, from);
    assert r.Some?;
    assert !(r.value.start < q);
    assert !(q < r.value.start);
  }

  /** The matches the `exec` loop sees when it starts from `lastIndex == from`. */
  function MatchesFrom(s: seq<char>, from: nat): (ms: seq<RegexMatch>)
    requires from <= |s|
    ensures forall i :: 0 <= i < |ms| ==> WellFormed(s, ms[i]) && from <= ms[i].start
    ensures forall i :: 0 < i < |ms| ==> ms[i - 1].end <= ms[i].start
    decreases |s| - from
  {
    match NextMatch(s, from)
    case None => []
    case Some(m) => [m] + MatchesFrom(s, m.end)
  }

  /** One step of the `exec` loop: the next match, then the rest from its end. */
  lemma MatchesFromUnfold(s: seq<char>, from: nat)
    requires from <= |s| && NextMatch(s, from).Some?
    ensures MatchesFrom(s, from) ==
            [NextMatch(s, from).value] + MatchesFrom(s, NextMatch(s, from).value.end)
  {
  }

  /** Every listed match is the one `MatchAt` finds at its start. */
  lemma {:induction false} MatchesFromSound(s: seq<char>, from: nat, i: nat)
    requires from <= |s| && i < |MatchesFrom(s, from)|
    ensures var m := MatchesFrom(s, from)[i];
            m.start <= |s| && MatchAt(s, m.start) == Some(m)
    decreases |s| - from
  {
    var m := NextMatch(s, from).value;
    MatchesFromUnfold(s, from);
    if i > 0 {
      MatchesFromSound(s, m.end, i - 1);
    }
  }

  predicate Covers(m: RegexMatch, p: nat) { m.start <= p < m.end }

  /** Some match of `ms` starts at or spans position `p`. */
  predicate CoveredBy(ms: seq<RegexMatch>, p: nat) {
    exists i :: 0 <= i < |ms| && Covers(ms[i], p)
  }

  /**
   * Every position at or after `from` where the pattern matches is the
   * start of a listed match or lies inside one: the loop skips nothing but
   * what an earlier match consumed.
   */
  lemma {:induction false} MatchesFromComplete(s: seq<char>, from: nat, p: nat)
    requires from <= p <= |s| && MatchAt(s, p).Some?
    ensures CoveredBy(MatchesFrom(s, from), p)
    decreases |s| - from
  {
    var m := NextMatch(s, from).value;
    var rest := MatchesFrom(s, m.end);
    MatchesFromUnfold(s, from);
    var ms := [m] + rest;
    if p >= m.end {
      MatchesFromComplete(s, m.end, p);
      var i :| 0 <= i < |rest| && Covers(rest[i], p);
      assert ms[i + 1] == rest[i];
    } else {
      assert Covers(ms[0], p);
    }
  }

  /** The heading object built from one match (src/utils/content.ts:13-25). */
  function ToHeading(s: seq<char>, m: RegexMatch): (h: Heading)
    requires WellFormed(s, m)
    ensures 1 <= h.depth <= 6
    ensures |h.text| > 0 ==> !IsSpace(h.text[0]) && !IsSpace(h.text[|h.text| - 1])
    ensures IsSlug(h.slug) && h.slug == Slug(h.text)
  {
    var text := Trim(s[m.textStart..m.end]);
    Heading(m.depth, Slug(text), text)
  }

  function HeadingsOf(s: seq<char>, ms: seq<RegexMatch>): (hs: seq<Heading>)
    requires forall i :: 0 <= i < |ms| ==> WellFormed(s, ms[i])
    ensures |hs| == |ms|
  {
    if ms == [] then [] else [ToHeading(s, ms[0])] + HeadingsOf(s, ms[1..])
  }

  lemma MatchesFromStep(s: seq<char>, from: nat)
    requires from <= |s| && NextMatch(s, from).Some?
    ensures var m := NextMatch(s, from).value;
            HeadingsOf(s, MatchesFrom(s, from)) == [ToHeading(s, m)] + HeadingsOf(s, MatchesFrom(s, m.end))
  {
    var m := NextMatch(s, from).value;
    var rest := MatchesFrom(s, m.end);
    assert MatchesFrom(s, from) == [m] + rest;
    assert ([m] + rest)[1..] == rest;
  }

  /** Concatenation regroups; a lemma of its own so that the loop body's proof context stays small. */
  lemma AppendStep<T>(done: seq<T>, x: T, rest: seq<T>, all: seq<T>)
    requires done + ([x] + rest) == all
    ensures done + [x] + rest == all
  {
  }

  /**
   * What `getHeadings(content)` resolves to: one heading per match, in source
   * order. Every heading has depth 1 to 6, text without whitespace at either
   * end, and the slug of that text, which has the slug shape.
   */
  function Headings(content: seq<char>): (hs: seq<Heading>)
    ensures forall i :: 0 <= i < |hs| ==> ValidHeading(hs[i])
  {
    var ms := MatchesFrom(content, 0);
    HeadingsOfFields(content, ms);
    HeadingsOf(content, ms)
  }

  lemma {:induction false} HeadingsOfFields(s: seq<char>, ms: seq<RegexMatch>)
    requires forall i :: 0 <= i < |ms| ==> WellFormed(s, ms[i])
    ensures forall i :: 0 <= i < |HeadingsOf(s, ms)| ==> ValidHeading(HeadingsOf(s, ms)[i])
  {
    var hs := HeadingsOf(s, ms);
    forall i | 0 <= i < |hs|
      ensures ValidHeading(hs[i])
    {
      HeadingsOfAt(s, ms, i);
      var h := ToHeading(s, ms[i]);
      assert ValidHeading(h);
    }
  }

  lemma {:induction false} HeadingsOfAt(s: seq<char>, ms: seq<RegexMatch>, i: nat)
    requires forall k :: 0 <= k < |ms| ==> WellFormed(s, ms[k])
    requires i < |ms|
    ensures HeadingsOf(s, ms)[i] == ToHeading(s, ms[i])
  {
    if i > 0 {
      HeadingsOfAt(s, ms[1..], i - 1);
    }
  }

  /**
   * Heading `h` was built from match `m`: its depth is the length of the
   * whole `#` run the match starts with, its text is group 2 trimmed.
   */
  predicate BuiltFrom(s: seq<char>, h: Heading, m: RegexMatch) {
    m.start <= |s| && MatchesAt(s, m.start, m.depth, m.textStart, m.end) &&
    h.depth == m.depth && RunEnd(s, m.start, IsHash) == m.start + h.depth &&
    h.text == Trim(s[m.textStart..m.end])
  }

  /**
   * The headings of `content` come one per match, in order, from matches
   * that do not overlap, and every position where the pattern matches lies
   * in one of those matches.
   */
  lemma HeadingsSpec(content: seq<char>)
    ensures var ms := MatchesFrom(content, 0);
            var hs := Headings(content);
            |hs| == |ms| &&
            (forall i :: 0 <= i < |hs| ==> BuiltFrom(content, hs[i], ms[i])) &&
            (forall i :: 0 < i < |ms| ==> ms[i - 1].end <= ms[i].start) &&
            (forall p: nat, h: nat, a: nat, e: nat :: MatchesAt(content, p, h, a, e) ==> CoveredBy(ms, p))
  {
    HeadingsBuiltFromMatches(content);
    MatchesCoverEveryMatch(content);
  }

  lemma HeadingsBuiltFromMatches(content: seq<char>)
    ensures var ms := MatchesFrom(content, 0);
            var hs := Headings(content);
            forall i :: 0 <= i < |hs| ==> BuiltFrom(content, hs[i], ms[i])
  {
    var ms := MatchesFrom(content, 0);
    var hs := Headings(content);
    assert hs == HeadingsOf(content, ms);
    forall i | 0 <= i < |hs|
      ensures BuiltFrom(content, hs[i], ms[i])
    {
      var m := ms[i];
      HeadingsOfAt(content, ms, i);
      MatchesFromSound(content, 0, i);
      MatchAtSound(content, m.start);
      HashRunIsGroupOne(content, m.start, m.depth, m.textStart, m.end);
    }
  }

  lemma MatchesCoverEveryMatch(content: seq<char>)
    ensures forall p: nat, h: nat, a: nat, e: nat ::
              MatchesAt(content, p, h, a, e) ==> CoveredBy(MatchesFrom(content, 0), p)
  {
    forall p: nat, h: nat, a: nat, e: nat | MatchesAt(content, p, h, a, e)
      ensures CoveredBy(MatchesFrom(content, 0), p)
    {
      MatchAtIsGreedy(content, p);
      MatchesFromComplete(content, 0, p);
    }
  }

  /** `getHeadings` returns no heading exactly when the pattern matches nowhere. */
  lemma NoHeadingsIff(content: seq<char>)
    ensures Headings(content) == [] <==>
            forall p: nat, h: nat, a: nat, e: nat :: !MatchesAt(content, p, h, a, e)
  {
    var ms := MatchesFrom(content, 0);
    if Headings(content) == [] {
      assert ms == [];
      forall p: nat, h: nat, a: nat, e: nat | MatchesAt(content, p, h, a, e)
        ensures false
      {
        MatchAtIsGreedy(content, p);
        MatchesFromComplete(content, 0, p);
      }
    } else {
      var m := ms[0];
      MatchesFromSound(content, 0, 0);
      MatchAtSound(content, m.start);
      assert MatchesAt(content, m.start, m.depth, m.textStart, m.end);
    }
  }

  /** Content without a `#` has no heading. */
  lemma NoHashNoHeadings(content: seq<char>)
    requires '#' !in content
    ensures Headings(content) == []
  {
    NoHeadingsIff(content);
    forall p: nat, h: nat, a: nat, e: nat ensures !MatchesAt(content, p, h, a, e) {
      if p < |content| {
        assert content[p] != '#';
      }
    }
  }

  /** src/utils/content.ts:6-29: the `exec` loop that pushes one heading per match. */
  method GetHeadings(content: seq<char>) returns (headings: seq<Heading>)
    ensures headings == Headings(content)
  {
    headings := [];
    var lastIndex := 0;
    var found := NextMatch(content, lastIndex);
    while found.Some?
      invariant lastIndex <= |content|
      invariant found == NextMatch(content, lastIndex)
      invariant found.Some? ==> lastIndex <= found.value.start && WellFormed(content, found.value)
      invariant headings + HeadingsOf(content, MatchesFrom(content, lastIndex)) == Headings(content)
      decreases |content| - lastIndex
    {
      var m := found.value;
      var heading := ToHeading(content, m);
      assert headings + [heading] + HeadingsOf(content, MatchesFrom(content, m.end)) == Headings(content) by {
        MatchesFromStep(content, lastIndex);
        AppendStep(headings, heading, HeadingsOf(content, MatchesFrom(content, m.end)), Headings(content));
      }
      headings := headings + [heading];
      lastIndex := m.end;
      found := NextMatch(content, lastIndex);
    }
  }
}
