/**
 The clean-up of one advice item before display: every `**text**` whose
 text stays on one line becomes `<strong>text</strong>` (the lazy pattern
 `\*\*(.*?)\*\*`, where `.` matches anything but a newline), then every
 remaining '*' is removed and the result is stripped.
 */
module Advice {
  import opened Text

  const StrongOpen: string := "<strong>"
  const StrongClose: string := "</strong>"

  /** "**" starts at index `k`. */
  ghost predicate StarsAt(s: string, k: int) {
    0 <= k && k + 1 < |s| && s[k] == '*' && s[k + 1] == '*'
  }

  /** `s[j..k]` holds a newline. */
  ghost predicate NewlineBetween(s: string, j: int, k: int) {
    exists m | j <= m < k && 0 <= m < |s| :: s[m] == '\n'
  }

  /** Where the lazy `(.*?)\*\*` that starts at `j` ends: the first "**"
      at or after `j` that no newline precedes, or -1. */
  function LazyClose(s: string, j: nat): (r: int)
    ensures r == -1 || (j <= r && StarsAt(s, r))
    ensures r >= 0 ==> forall k | j <= k < r :: s[k] != '\n' && !StarsAt(s, k)
    ensures r == -1 ==> forall k | j <= k && StarsAt(s, k) :: NewlineBetween(s, j, k)
    decreases |s| - j
  {
    if j + 2 > |s| then -1
    else if s[j] == '*' && s[j + 1] == '*' then j
    else if s[j] == '\n' then -1
    else LazyClose(s, j + 1)
  }

  /** `re.sub(r'\*\*(.*?)\*\*', r'<strong>\1</strong>', s)`: scanning from
      the left, each match is replaced and the scan resumes after it;
      where no match starts, the character is kept. */
  function BoldToStrong(s: string): (r: string)
    ensures '*' !in s ==> r == s
    decreases |s|
  {
    if |s| == 0 then []
    else if StartsBold(s) then
      var c := LazyClose(s, 2);
      StrongOpen + s[2..c] + StrongClose + BoldToStrong(s[c + 2..])
    else
      [s[0]] + BoldToStrong(s[1..])
  }

  /** A match of the bold pattern starts at the front of `s`. */
  predicate StartsBold(s: string) {
    |s| >= 2 && s[0] == '*' && s[1] == '*' && LazyClose(s, 2) >= 0
  }

  /** The displayed form of one advice item. */
  function CleanAdvice(item: string): (r: string)
    ensures '*' !in r
    ensures Trimmed(r)
    ensures '*' !in item ==> r == Strip(item)
  {
    var r := Strip(Remove(BoldToStrong(item), '*'));
    StripKeepsAbsent(Remove(BoldToStrong(item), '*'), '*');
    r
  }

  /** Stripping introduces no character. */
  lemma StripKeepsAbsent(s: string, c: char)
    requires c !in s
    ensures c !in Strip(s)
  {
    var a, b := StripSplits(s);
    assert s == a + Strip(s) + b;
  }

  /** A one-line, star-free text between "**" and "**" turns into a strong
      element. */
  lemma BoldPair(w: string)
    requires '*' !in w && '\n' !in w
    ensures BoldToStrong("**" + w + "**") == StrongOpen + w + StrongClose
  {
    var s := "**" + w + "**";
    var c := |w| + 2;
    assert StarsAt(s, c);
    forall k | 2 <= k < c ensures s[k] != '\n' && !StarsAt(s, k) {
      assert s[k] == w[k - 2];
    }
    assert !NewlineBetween(s, 2, c);
    var r := LazyClose(s, 2);
    assert r == c;
    assert s[2..c] == w;
    assert s[c + 2..] == [];
  }

  /** Cleaning such an item yields exactly the strong element. */
  lemma CleanBoldItem(w: string)
    requires '*' !in w && '\n' !in w
    ensures CleanAdvice("**" + w + "**") == StrongOpen + w + StrongClose
  {
    BoldPair(w);
    var t := StrongOpen + w + StrongClose;
    assert '*' !in t;
    assert t[0] == '<' && t[|t| - 1] == '>';
    StripTrimmed(t);
  }
}
