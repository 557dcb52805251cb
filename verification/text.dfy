/**
 String primitives with the meaning Python gives them on `str`: the
 whitespace test behind `strip()`, `strip()` itself, `count` of one
 character, `find`, `rfind` of one character and `replace(c, "")`.
 Strings are sequences of characters; Python's `str` is a sequence of
 code points, so no encoding is involved.
 */
module Text {

  /** The characters for which Python's `str.isspace()` holds, i.e. the
      ones `str.strip()` with no argument removes. */
  predicate IsSpace(c: char) {
    || c == ' ' || c == '\t' || c == '\n' || c == '\r'
    || c == '\U{000B}' || c == '\U{000C}'
    || ('\U{001C}' <= c <= '\U{001F}')
    || c == '\U{0085}' || c == '\U{00A0}' || c == '\U{1680}'
    || ('\U{2000}' <= c <= '\U{200A}')
    || c == '\U{2028}' || c == '\U{2029}' || c == '\U{202F}' || c == '\U{205F}'
    || c == '\U{3000}'
  }

  /** Every character of `s[lo..hi]` is whitespace. */
  ghost predicate BlankBetween(s: string, lo: int, hi: int) {
    forall k | lo <= k < hi && 0 <= k < |s| :: IsSpace(s[k])
  }

  /** Every character is whitespace (this includes the empty string). */
  ghost predicate IsBlank(s: string) {
    BlankBetween(s, 0, |s|)
  }

  /** Whitespace-free at both ends. */
  ghost predicate Trimmed(s: string) {
    s == [] || (!IsSpace(s[0]) && !IsSpace(s[|s| - 1]))
  }

  /** The index of the first non-whitespace character at or after `i`,
      or `|s|` when there is none. */
  function SkipSpace(s: string, i: nat): (r: nat)
    requires i <= |s|
    ensures i <= r <= |s|
    ensures BlankBetween(s, i, r)
    ensures r < |s| ==> !IsSpace(s[r])
    decreases |s| - i
  {
    if i < |s| && IsSpace(s[i]) then SkipSpace(s, i + 1) else i
  }

  /** The index just past the last non-whitespace character of
      `s[lo..j]`, or `lo` when there is none. */
  function SkipSpaceBack(s: string, lo: nat, j: nat): (r: nat)
    requires lo <= j <= |s|
    ensures lo <= r <= j
    ensures BlankBetween(s, r, j)
    ensures r > lo ==> !IsSpace(s[r - 1])
  {
    if j > lo && IsSpace(s[j - 1]) then SkipSpaceBack(s, lo, j - 1) else j
  }

  /** `s.strip()`: the contiguous middle of `s` left after removing the
      whitespace at both ends. */
  function Strip(s: string): (r: string)
    ensures Trimmed(r)
    ensures exists i | 0 <= i <= |s| - |r| ::
              r == s[i..i + |r|] && BlankBetween(s, 0, i) && BlankBetween(s, i + |r|, |s|)
    ensures r == [] <==> IsBlank(s)
  {
    var lo := SkipSpace(s, 0);
    var hi := SkipSpaceBack(s, lo, |s|);
    assert hi > lo ==> s[lo..hi][0] == s[lo];
    s[lo..hi]
  }

  /** A text with no whitespace at either end is its own stripped text. */
  lemma StripTrimmed(s: string)
    requires Trimmed(s)
    ensures Strip(s) == s
  {
    if s != [] {
      assert SkipSpace(s, 0) == 0;
      assert SkipSpaceBack(s, 0, |s|) == |s|;
    }
  }

  /** Whitespace around a trimmed text is exactly what stripping removes. */
  lemma StripSurrounded(a: string, m: string, b: string)
    requires IsBlank(a) && IsBlank(b) && Trimmed(m) && m != []
    ensures Strip(a + m + b) == m
  {
    var s := a + m + b;
    assert s[|a|] == m[0];
    assert s[|a| + |m| - 1] == m[|m| - 1];
    var lo := SkipSpace(s, 0);
    assert lo == |a|;
    var hi := SkipSpaceBack(s, lo, |s|);
    assert hi == |a| + |m|;
    assert s[lo..hi] == m;
  }

  /** Stripping twice is stripping once. */
  lemma StripIdempotent(s: string)
    ensures Strip(Strip(s)) == Strip(s)
  {
    StripTrimmed(Strip(s));
  }

  /** `s.count(c)` for a one-character `c`: the number of times `c` occurs. */
  function Count(s: string, c: char): (n: nat)
    ensures n <= |s|
    ensures n == 0 <==> c !in s
  {
    if s == [] then 0
    else (if s[|s| - 1] == c then 1 else 0) + Count(s[..|s| - 1], c)
  }

  /** The count is the multiplicity of `c` in `s`. */
  lemma {:induction false} CountIsMultiplicity(s: string, c: char)
    ensures Count(s, c) == multiset(s)[c]
  {
    if s != [] {
      assert s == s[..|s| - 1] + [s[|s| - 1]];
      CountIsMultiplicity(s[..|s| - 1], c);
    }
  }

  /** Counting distributes over concatenation. */
  lemma {:induction false} CountAppend(a: string, b: string, c: char)
    ensures Count(a + b, c) == Count(a, c) + Count(b, c)
    decreases |b|
  {
    if b == [] {
      assert a + b == a;
    } else {
      assert (a + b)[..|a + b| - 1] == a + b[..|b| - 1];
      CountAppend(a, b[..|b| - 1], c);
    }
  }

  /** A blank text holds no non-whitespace character. */
  lemma BlankCountsNothing(s: string, c: char)
    requires IsBlank(s) && !IsSpace(c)
    ensures Count(s, c) == 0
  {
    assert c !in s by {
      forall k | 0 <= k < |s| ensures s[k] != c { assert IsSpace(s[k]); }
    }
  }

  /** Blank surroundings add nothing to the count of a non-whitespace
      character. */
  lemma CountIgnoresBlankEnds(a: string, m: string, b: string, c: char)
    requires IsBlank(a) && IsBlank(b) && !IsSpace(c)
    ensures Count(a + m + b, c) == Count(m, c)
  {
    CountAppend(a + m, b, c);
    CountAppend(a, m, c);
    BlankCountsNothing(a, c);
    BlankCountsNothing(b, c);
  }

  /** `s` is its stripped text between two blank ends. */
  lemma StripSplits(s: string) returns (a: string, b: string)
    ensures s == a + Strip(s) + b && IsBlank(a) && IsBlank(b)
  {
    var lo := SkipSpace(s, 0);
    var hi := SkipSpaceBack(s, lo, |s|);
    a, b := s[..lo], s[hi..];
    assert s == a + s[lo..hi] + b;
    assert IsBlank(a) by {
      forall k | 0 <= k < |a| ensures IsSpace(a[k]) { assert a[k] == s[k]; }
    }
    assert IsBlank(b) by {
      forall k | 0 <= k < |b| ensures IsSpace(b[k]) { assert b[k] == s[hi + k]; }
    }
  }

  /** Stripping removes only whitespace, so it keeps the count of every
      other character. */
  lemma StripKeepsCount(s: string, c: char)
    requires !IsSpace(c)
    ensures Count(Strip(s), c) == Count(s, c)
  {
    var a, b := StripSplits(s);
    CountIgnoresBlankEnds(a, Strip(s), b, c);
  }

  /** `pat` occurs in `s` starting at index `i`. */
  ghost predicate OccursAt(s: string, pat: string, i: int) {
    0 <= i && i + |pat| <= |s| && s[i..i + |pat|] == pat
  }

  /** `i` is the first index at or after `from` where `pat` occurs. */
  ghost predicate FirstAt(s: string, pat: string, from: int, i: int) {
    from <= i && OccursAt(s, pat, i)
    && forall j | from <= j < i :: !OccursAt(s, pat, j)
  }

  /** `pat` occurs nowhere at or after `from`. */
  ghost predicate AbsentFrom(s: string, pat: string, from: int) {
    forall j | from <= j :: !OccursAt(s, pat, j)
  }

  /** There is only one first occurrence. */
  lemma FirstAtUnique(s: string, pat: string, from: int, i: int, j: int)
    requires FirstAt(s, pat, from, i) && FirstAt(s, pat, from, j)
    ensures i == j
  {
  }

  /** `s.find(pat, from)`: the first occurrence at or after `from`, or -1. */
  function Find(s: string, pat: string, from: nat): (r: int)
    ensures r == -1 || FirstAt(s, pat, from, r)
    ensures r == -1 <==> AbsentFrom(s, pat, from)
    decreases |s| - from
  {
    if from + |pat| > |s| then -1
    else if s[from..from + |pat|] == pat then from
    else Find(s, pat, from + 1)
  }

  /** `s.find(c)` for a one-character `c`: the first index holding `c`, or -1. */
  function FindChar(s: string, c: char): (r: int)
    ensures -1 <= r < |s|
    ensures r == -1 <==> c !in s
    ensures r >= 0 ==> s[r] == c && forall j | 0 <= j < r :: s[j] != c
  {
    if s == [] then -1
    else if s[0] == c then 0
    else var k := FindChar(s[1..], c); if k == -1 then -1 else k + 1
  }

  /** `s.rfind(c)` for a one-character `c`: the last index holding `c`, or -1. */
  function RFind(s: string, c: char): (r: int)
    ensures -1 <= r < |s|
    ensures r == -1 <==> c !in s
    ensures r >= 0 ==> s[r] == c && forall j | r < j < |s| :: s[j] != c
  {
    if s == [] then -1
    else if s[|s| - 1] == c then |s| - 1
    else RFind(s[..|s| - 1], c)
  }

  /** `s.replace(c, "")` for a one-character `c`: every other character, in order. */
  function Remove(s: string, c: char): (r: string)
    ensures c !in r
    ensures forall d | d != c :: Count(r, d) == Count(s, d)
    ensures |r| == |s| - Count(s, c)
    ensures c !in s ==> r == s
  {
    if s == [] then []
    else
      var p := s[..|s| - 1];
      assert s == p + [s[|s| - 1]];
      KeepOthers(p, s[|s| - 1], c, Remove(p, c));
      Remove(p, c) + (if s[|s| - 1] == c then [] else [s[|s| - 1]])
  }

  /** The step of `Remove`: appending the last character unless it is
      `c` keeps the count of every other character in step. */
  lemma KeepOthers(p: string, x: char, c: char, r: string)
    requires forall d | d != c :: Count(r, d) == Count(p, d)
    ensures var t := if x == c then [] else [x];
      forall d | d != c :: Count(r + t, d) == Count(p + [x], d)
  {
    var t := if x == c then [] else [x];
    forall d | d != c ensures Count(r + t, d) == Count(p + [x], d) {
      CountAppend(r, t, d);
      CountAppend(p, [x], d);
    }
  }

  /** Removal works piecewise, so what is left keeps its order. */
  lemma {:induction false} RemoveAppend(a: string, b: string, c: char)
    ensures Remove(a + b, c) == Remove(a, c) + Remove(b, c)
    decreases |b|
  {
    if b == [] {
      assert a + b == a;
    } else {
      var b' := b[..|b| - 1];
      assert (a + b)[..|a + b| - 1] == a + b';
      RemoveAppend(a, b', c);
    }
  }

  /** A single character is dropped exactly when it is `c`. */
  lemma RemoveOne(x: char, c: char)
    ensures Remove([x], c) == if x == c then [] else [x]
  {
    assert [x][..0] == [];
  }

  /** `c * n` for a one-character string `c`. */
  function Repeat(c: char, n: nat): (r: string)
    ensures |r| == n
    ensures forall i | 0 <= i < n :: r[i] == c
  {
    if n == 0 then [] else Repeat(c, n - 1) + [c]
  }

  /** A text made only of `c` counts `c` once per character. */
  lemma {:induction false} CountUniform(t: string, c: char)
    requires forall i | 0 <= i < |t| :: t[i] == c
    ensures Count(t, c) == |t|
  {
    if t != [] {
      var p := t[..|t| - 1];
      assert forall i | 0 <= i < |p| :: p[i] == c;
      CountUniform(p, c);
    }
  }

  /** `c * n` holds `n` copies of `c`. */
  lemma {:induction false} RepeatCount(c: char, n: nat)
    ensures Count(Repeat(c, n), c) == n
  {
    CountUniform(Repeat(c, n), c);
  }

  /** `c * n` holds nothing but `c`. */
  lemma RepeatCountOther(c: char, n: nat, d: char)
    requires d != c
    ensures Count(Repeat(c, n), d) == 0
  {
    assert d !in Repeat(c, n);
  }
}
