/**
 * Character classes and small string utilities shared by the heading
 * extractor and the reading-time estimator of src/utils/content.ts.
 *
 * Strings are `seq<char>`. The character classes are those of JavaScript
 * regular expressions: `IsSpace` is `\s` (also the set `String.trim`
 * removes), `IsLineTerminator` the characters `.` and multiline `^`/`$`
 * treat as line ends, and `IsWordChar` is `\w`.
 */
module Text {

  datatype Option<T> = None | Some(value: T)

  predicate IsLineTerminator(c: char) {
    c == '\n' || c == '\r' || c == '\U{2028}' || c == '\U{2029}'
  }

  /** JavaScript `\s`: the WhiteSpace and LineTerminator characters. */
  predicate IsSpace(c: char) {
    c == ' ' || c == '\t' || c == '\U{B}' || c == '\U{C}' || c == '\U{A0}' ||
    c == '\U{1680}' || ('\U{2000}' <= c <= '\U{200A}') || c == '\U{202F}' ||
    c == '\U{205F}' || c == '\U{3000}' || c == '\U{FEFF}' ||
    IsLineTerminator(c)
  }

  predicate NotSpace(c: char) { !IsSpace(c) }

  predicate NotLineTerminator(c: char) { !IsLineTerminator(c) }

  predicate IsAsciiUpper(c: char) { 'A' <= c <= 'Z' }

  predicate IsAsciiLower(c: char) { 'a' <= c <= 'z' }

  predicate IsDigit(c: char) { '0' <= c <= '9' }

  /** JavaScript `\w` (without the `u` flag): ASCII letters, digits and `_`. */
  predicate IsWordChar(c: char) {
    IsAsciiLower(c) || IsAsciiUpper(c) || IsDigit(c) || c == '_'
  }

  /** The characters of `s` that satisfy `p`, in order. */
  function Filter(s: seq<char>, p: char -> bool): (r: seq<char>)
    ensures |r| <= |s|
    ensures forall i :: 0 <= i < |r| ==> p(r[i])
    ensures (forall i :: 0 <= i < |s| ==> p(s[i])) ==> r == s
    ensures (forall i :: 0 <= i < |s| ==> !p(s[i])) ==> r == []
  {
    if s == [] then []
    else
      (if p(s[0]) then [s[0]] else []) + Filter(s[1..], p)
  }

  /** A character survives filtering exactly when it occurs and satisfies `p`. */
  lemma {:induction false} FilterMembership(s: seq<char>, p: char -> bool)
    ensures forall c :: c in Filter(s, p) <==> c in s && p(c)
  {
    if s != [] {
      FilterMembership(s[1..], p);
      assert s == [s[0]] + s[1..];
    }
  }

  lemma {:induction false} FilterAppend(a: seq<char>, b: seq<char>, p: char -> bool)
    ensures Filter(a + b, p) == Filter(a, p) + Filter(b, p)
  {
    if a == [] {
      assert a + b == b;
    } else {
      assert (a + b)[1..] == a[1..] + b;
      FilterAppend(a[1..], b, p);
    }
  }

  /** Filtering by a weaker predicate first changes nothing. */
  lemma {:induction false} FilterFilter(s: seq<char>, p: char -> bool, q: char -> bool)
    requires forall c :: q(c) ==> p(c)
    ensures Filter(Filter(s, p), q) == Filter(s, q)
  {
    if s != [] {
      FilterFilter(s[1..], p, q);
      FilterAppend(if p(s[0]) then [s[0]] else [], Filter(s[1..], p), q);
    }
  }

  /** A slice is its first character followed by the rest of it. */
  lemma ConsSlice(s: seq<char>, i: nat, j: nat, rest: seq<char>)
    requires i < j <= |s|
    ensures [s[i]] + (s[i + 1..j] + rest) == s[i..j] + rest
  {
    assert s[i..j] == [s[i]] + s[i + 1..j];
  }

  /** The end of the longest run of characters satisfying `p` that starts at `i`. */
  function RunEnd(s: seq<char>, i: nat, p: char -> bool): (e: nat)
    requires i <= |s|
    ensures i <= e <= |s|
    ensures forall k :: i <= k < e ==> p(s[k])
    ensures e == |s| || !p(s[e])
    decreases |s| - i
  {
    if i == |s| || !p(s[i]) then i else RunEnd(s, i + 1, p)
  }

  /** A run that ends where `p` first fails is the one `RunEnd` finds. */
  lemma RunEndIs(s: seq<char>, i: nat, p: char -> bool, e: nat)
    requires i <= e <= |s|
    requires forall k :: i <= k < e ==> p(s[k])
    requires e == |s| || !p(s[e])
    ensures RunEnd(s, i, p) == e
  {
  }

  /** `s` without its leading run of characters satisfying `p`. */
  function StripStart(s: seq<char>, p: char -> bool): (r: seq<char>)
    ensures |r| <= |s| && r == s[|s| - |r|..]
    ensures forall k :: 0 <= k < |s| - |r| ==> p(s[k])
    ensures |r| > 0 ==> !p(r[0])
  {
    s[RunEnd(s, 0, p)..]
  }

  /** `s` without its trailing run of characters satisfying `p`. */
  function StripEnd(s: seq<char>, p: char -> bool): (r: seq<char>)
    ensures |r| <= |s| && r == s[..|r|]
    ensures forall k :: |r| <= k < |s| ==> p(s[k])
    ensures |r| > 0 ==> !p(r[|r| - 1])
  {
    if s != [] && p(s[|s| - 1]) then StripEnd(s[..|s| - 1], p) else s
  }

  /** `r` is `s[a..]` with only characters satisfying `p` cut off both ends. */
  predicate StrippedAt(s: seq<char>, r: seq<char>, a: int, p: char -> bool) {
    0 <= a <= |s| - |r| && r == s[a..a + |r|] &&
    (forall k :: 0 <= k < a ==> p(s[k])) &&
    (forall k :: a + |r| <= k < |s| ==> p(s[k]))
  }

  /** `s` without the leading and trailing runs of characters satisfying `p`. */
  function Strip(s: seq<char>, p: char -> bool): (r: seq<char>)
    ensures |r| > 0 ==> !p(r[0]) && !p(r[|r| - 1])
    ensures exists a :: StrippedAt(s, r, a, p)
  {
    var t := StripStart(s, p);
    var r := StripEnd(t, p);
    var a := |s| - |t|;
    assert t == s[a..] && r == t[..|r|];
    assert forall k :: a + |r| <= k < |s| ==> p(s[k]) by {
      forall k | a + |r| <= k < |s| ensures p(s[k]) {
        assert s[k] == t[k - a];
      }
    }
    assert StrippedAt(s, r, a, p);
    r
  }

  /** Stripping changes nothing when neither end satisfies `p`. */
  lemma StripUnchanged(s: seq<char>, p: char -> bool)
    requires |s| > 0 ==> !p(s[0]) && !p(s[|s| - 1])
    ensures Strip(s, p) == s
  {
    var r := Strip(s, p);
    var a :| StrippedAt(s, r, a, p);
  }

  /** Stripping characters that `q` rejects does not change what `q` keeps. */
  lemma FilterOfStrip(s: seq<char>, p: char -> bool, q: char -> bool)
    requires forall c :: p(c) ==> !q(c)
    ensures Filter(Strip(s, p), q) == Filter(s, q)
  {
    var r := Strip(s, p);
    var a :| StrippedAt(s, r, a, p);
    FilterOfStripped(s, r, a, p, q);
  }

  lemma FilterOfStripped(s: seq<char>, r: seq<char>, a: nat, p: char -> bool, q: char -> bool)
    requires StrippedAt(s, r, a, p) && forall c :: p(c) ==> !q(c)
    ensures Filter(r, q) == Filter(s, q)
  {
    var front, back := s[..a], s[a + |r|..];
    assert Filter(front, q) == [] by {
      forall i | 0 <= i < |front| ensures !q(front[i]) {
        assert p(s[i]);
      }
    }
    assert Filter(back, q) == [] by {
      forall i | 0 <= i < |back| ensures !q(back[i]) {
        assert back[i] == s[a + |r| + i];
      }
    }
    assert Filter(s, q) == Filter(front, q) + Filter(r, q) + Filter(back, q) by {
      assert s == front + r + back;
      FilterAppend(front + r, back, q);
      FilterAppend(front, r, q);
    }
  }

  /** JavaScript `String.prototype.trim`. */
  function Trim(s: seq<char>): (r: seq<char>)
    ensures exists a :: StrippedAt(s, r, a, IsSpace)
    ensures |r| > 0 ==> !IsSpace(r[0]) && !IsSpace(r[|r| - 1])
  {
    Strip(s, IsSpace)
  }

  /** The first position at or after `from` that holds `c`. */
  function FindChar(s: seq<char>, c: char, from: nat): (r: Option<nat>)
    requires from <= |s|
    ensures r.Some? ==> from <= r.value < |s| && s[r.value] == c
    ensures r.Some? ==> forall k :: from <= k < r.value ==> s[k] != c
    ensures r.None? ==> forall k :: from <= k < |s| ==> s[k] != c
    decreases |s| - from
  {
    if from == |s| then None
    else if s[from] == c then Some(from)
    else FindChar(s, c, from + 1)
  }

  /** The first `c` at or after `from` is the one `FindChar` finds. */
  lemma FindCharIs(s: seq<char>, c: char, from: nat, k: nat)
    requires from <= k < |s| && s[k] == c
    requires forall j :: from <= j < k ==> s[j] != c
    ensures FindChar(s, c, from) == Some(k)
  {
  }
}
