/**
 The brace-count repair applied to the extracted JSON candidate before it
 is parsed. It compares the number of '{' and '}' characters (wherever
 they occur, string literals included) and either appends the missing
 '}' characters or cuts the text back at its last '}' once per surplus
 '}'.
 */
module BraceRepair {
  import opened Text

  /** `t` is a prefix of `s`. */
  ghost predicate IsPrefix(t: string, s: string) {
    |t| <= |s| && t == s[..|t|]
  }

  /** `s.rsplit("}", 1)[0]`: everything before the last '}', or `s`
      itself when it has none. Whatever follows that '}' is lost with it. */
  function CutAtLastClose(s: string): (r: string)
    ensures IsPrefix(r, s)
    ensures '}' !in s ==> r == s
    ensures '}' in s ==> |r| < |s| && s[|r|] == '}' && forall j | |r| < j < |s| :: s[j] != '}'
    ensures '}' in s ==> Count(r, '}') == Count(s, '}') - 1
    ensures Count(r, '{') <= Count(s, '{')
  {
    var i := RFind(s, '}');
    if i < 0 then s
    else
      CutCounts(s, i);
      s[..i]
  }

  /** Cutting at the last '}' (at `i`) drops exactly that '}': the text
      after it holds none. */
  lemma CutCounts(s: string, i: int)
    requires 0 <= i < |s| && s[i] == '}'
    requires forall j | i < j < |s| :: s[j] != '}'
    ensures Count(s[..i], '}') == Count(s, '}') - 1
    ensures Count(s[..i], '{') <= Count(s, '{')
  {
    var a, t := s[..i], s[i + 1..];
    assert s == a + [s[i]] + t;
    assert '}' !in t by {
      forall k | 0 <= k < |t| ensures t[k] != '}' { assert t[k] == s[i + 1 + k]; }
    }
    CountThree(a, s[i], t, '}');
    CountThree(a, s[i], t, '{');
  }

  /** Counting over a text split around one character. */
  lemma CountThree(a: string, x: char, t: string, c: char)
    ensures Count(a + [x] + t, c) == Count(a, c) + (if x == c then 1 else 0) + Count(t, c)
  {
    CountAppend(a + [x], t, c);
    CountAppend(a, [x], c);
  }

  /** `k` successive cuts at the last '}': when there are that many, the
      text is cut just before its k-th '}' from the end. */
  function CutTimes(s: string, k: nat): (r: string)
    ensures IsPrefix(r, s)
    ensures k <= Count(s, '}') ==> Count(r, '}') == Count(s, '}') - k
    ensures 0 < k <= Count(s, '}') ==> |r| < |s| && s[|r|] == '}' && Count(s[|r|..], '}') == k
    ensures Count(r, '{') <= Count(s, '{')
  {
    if k == 0 then s
    else
      var r := CutTimes(CutAtLastClose(s), k - 1);
      SuffixCount(s, r, '}');
      r
  }

  /** What a prefix leaves over holds the rest of the count. */
  lemma SuffixCount(s: string, r: string, c: char)
    requires IsPrefix(r, s)
    ensures Count(s[|r|..], c) == Count(s, c) - Count(r, c)
  {
    assert s == r + s[|r|..];
    CountAppend(r, s[|r|..], c);
  }

  /** `r` is `s` followed by exactly `n` characters '}'. */
  ghost predicate ClosedWith(r: string, s: string, n: nat) {
    && |r| == |s| + n
    && r[..|s|] == s
    && forall i | |s| <= i < |r| :: r[i] == '}'
  }

  /** Appending the missing '}' characters balances the counts. */
  lemma AppendBalances(s: string)
    requires Count(s, '{') > Count(s, '}')
    ensures var n := Count(s, '{') - Count(s, '}');
      var r := s + Repeat('}', n);
      ClosedWith(r, s, n) && Count(r, '{') == Count(r, '}')
  {
    var n := Count(s, '{') - Count(s, '}');
    var tail := Repeat('}', n);
    CountAppend(s, tail, '{');
    CountAppend(s, tail, '}');
    RepeatCountOther('}', n, '{');
    RepeatCount('}', n);
    assert (s + tail)[..|s|] == s;
  }

  /** The repair of an extracted candidate. */
  function Repair(s: string): (r: string)
    // Surplus '{': exactly the missing number of '}' is appended, which
    // balances the counts.
    ensures Count(s, '{') > Count(s, '}') ==>
      ClosedWith(r, s, Count(s, '{') - Count(s, '}')) && Count(r, '{') == Count(r, '}')
    // Surplus '}': the text is cut just before its k-th '}' from the end,
    // k being the surplus; the prefix's '}' count is the original '{'
    // count, and its own '{' count may have dropped below that.
    ensures Count(s, '}') > Count(s, '{') ==>
      && IsPrefix(r, s)
      && |r| < |s| && s[|r|] == '}'
      && Count(s[|r|..], '}') == Count(s, '}') - Count(s, '{')
      && Count(r, '}') == Count(s, '{')
      && Count(r, '{') <= Count(s, '{')
    // Balanced counts: untouched.
    ensures Count(s, '{') == Count(s, '}') ==> r == s
  {
    var opens := Count(s, '{');
    var closes := Count(s, '}');
    if opens > closes then
      AppendBalances(s);
      s + Repeat('}', opens - closes)
    else if closes > opens then
      CutTimes(s, closes - opens)
    else
      s
  }

  /** Repair is idempotent on every candidate that does not hold more '}'
      than '{'. */
  lemma RepairIdempotent(s: string)
    requires Count(s, '{') >= Count(s, '}')
    ensures Repair(Repair(s)) == Repair(s)
  {
  }

  /** Cutting does not restore balance in general: "{}}}{}" loses its
      trailing "{}" as well as a '}', leaving one '{' against two '}'. */
  lemma RepairMayLeaveImbalance()
    ensures Repair("{}}}{}") == "{}}"
    ensures Count("{}}", '{') != Count("{}}", '}')
  {
    var s := "{}}}{}";
    assert s[..5] == "{}}}{" && s[..5][..4] == "{}}}" && s[..4][..3] == "{}}";
    assert "{}}"[..2] == "{}" && "{}"[..1] == "{" && "{"[..0] == [];
    assert Count("{", '{') == 1 && Count("{", '}') == 0;
    assert Count("{}", '{') == 1 && Count("{}", '}') == 1;
    assert Count("{}}", '{') == 1 && Count("{}}", '}') == 2;
    assert Count("{}}}", '{') == 1 && Count("{}}}", '}') == 3;
    assert Count("{}}}{", '{') == 2 && Count("{}}}{", '}') == 3;
    assert Count(s, '{') == 2 && Count(s, '}') == 4;
    assert CutAtLastClose("{}}}{}") == "{}}}{";
    assert CutAtLastClose("{}}}{") == "{}}";
  }
}
