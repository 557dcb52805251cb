/**
 Locating the JSON candidate inside the model's free-form reply. Three
 strategies are tried in a fixed order and the first that applies wins,
 even when it yields nothing: a block opened by "```json", then the span
 from the first '{' to the last '}', then the whole reply stripped.
 */
module Extraction {
  import opened Text

  /** The marker that opens a fenced JSON block. */
  const JsonFence: string := "```json"
  /** The marker that closes any fenced block. */
  const Fence: string := "```"

  datatype Branch = Fenced | BraceSpan | WholeReply

  /** The strategy that applies to `reply`. */
  function BranchOf(reply: string): (b: Branch)
    ensures b == Fenced <==> !AbsentFrom(reply, JsonFence, 0)
    ensures b == BraceSpan <==> AbsentFrom(reply, JsonFence, 0) && '{' in reply && '}' in reply
    ensures b == WholeReply <==> AbsentFrom(reply, JsonFence, 0) && ('{' !in reply || '}' !in reply)
  {
    if Find(reply, JsonFence, 0) >= 0 then Fenced
    else if FindChar(reply, '{') >= 0 && FindChar(reply, '}') >= 0 then BraceSpan
    else WholeReply
  }

  /** The first index of `c` in `s` is `i`. */
  ghost predicate FirstIndexOf(s: string, c: char, i: int) {
    0 <= i < |s| && s[i] == c && forall j | 0 <= j < i :: s[j] != c
  }

  /** The last index of `c` in `s` is `i`. */
  ghost predicate LastIndexOf(s: string, c: char, i: int) {
    0 <= i < |s| && s[i] == c && forall j | i < j < |s| :: s[j] != c
  }

  /** The JSON candidate of `reply`; empty when the chosen strategy finds
      nothing. What each strategy takes is stated by the lemmas below. */
  function Extract(reply: string): (r: string)
    ensures |r| <= |reply|
    ensures BranchOf(reply) != BraceSpan ==> Trimmed(r)
    ensures BranchOf(reply) == BraceSpan && r != [] ==> r[0] == '{' && r[|r| - 1] == '}'
  {
    match BranchOf(reply)
    case Fenced =>
      var start := Find(reply, JsonFence, 0) + |JsonFence|;
      var end := Find(reply, Fence, start);
      if end > start then Strip(reply[start..end]) else []
    case BraceSpan =>
      var start := FindChar(reply, '{');
      var end := RFind(reply, '}') + 1;
      if start <= end then reply[start..end] else []
    case WholeReply =>
      Strip(reply)
  }

  /** Fenced: the extraction is the stripped text strictly between the end
      of the first "```json" (at `o`) and the next "```" after it (at `c`),
      and nothing when that closing marker immediately follows. */
  lemma ExtractFenced(reply: string, o: int, c: int)
    requires FirstAt(reply, JsonFence, 0, o)
    requires FirstAt(reply, Fence, o + |JsonFence|, c)
    ensures Extract(reply) == if c > o + |JsonFence| then Strip(reply[o + |JsonFence|..c]) else []
  {
    FirstAtUnique(reply, JsonFence, 0, o, Find(reply, JsonFence, 0));
    FirstAtUnique(reply, Fence, o + |JsonFence|, c, Find(reply, Fence, o + |JsonFence|));
  }

  /** Fenced without a closing "```": the extraction is empty, whatever
      braces the reply holds; the fenced strategy never falls back. */
  lemma ExtractFenceUnclosed(reply: string, o: int)
    requires FirstAt(reply, JsonFence, 0, o)
    requires AbsentFrom(reply, Fence, o + |JsonFence|)
    ensures Extract(reply) == []
  {
    FirstAtUnique(reply, JsonFence, 0, o, Find(reply, JsonFence, 0));
  }

  /** Brace span: with no "```json" and both braces present, the
      extraction runs from the first '{' through the last '}' inclusive,
      and is empty when that last '}' precedes the first '{'. */
  lemma ExtractBraceSpan(reply: string, f: int, l: int)
    requires AbsentFrom(reply, JsonFence, 0)
    requires FirstIndexOf(reply, '{', f) && LastIndexOf(reply, '}', l)
    ensures Extract(reply) == if f <= l then reply[f..l + 1] else []
  {
    assert FindChar(reply, '{') == f;
    assert RFind(reply, '}') == l;
  }

  /** Whole reply: with no "```json" and a brace missing, the extraction is
      the stripped reply. */
  lemma ExtractWhole(reply: string)
    requires AbsentFrom(reply, JsonFence, 0)
    requires '{' !in reply || '}' !in reply
    ensures Extract(reply) == Strip(reply)
  {
  }

  /** A fenced block whose text and preceding prose hold no backquote:
      the extraction is the stripped block, whatever follows the closing
      marker. */
  lemma ExtractFencedBlock(pre: string, block: string, post: string)
    requires '`' !in pre && '`' !in block
    ensures Extract(pre + JsonFence + block + Fence + post) == Strip(block)
  {
    var reply := pre + JsonFence + block + Fence + post;
    var o := |pre|;
    var c := o + |JsonFence| + |block|;
    assert reply[o..o + |JsonFence|] == JsonFence;
    assert FirstAt(reply, JsonFence, 0, o) by {
      forall j | 0 <= j < o ensures !OccursAt(reply, JsonFence, j) {
        assert reply[j] == pre[j];
      }
    }
    assert reply[c..c + |Fence|] == Fence;
    assert FirstAt(reply, Fence, o + |JsonFence|, c) by {
      forall j | o + |JsonFence| <= j < c ensures !OccursAt(reply, Fence, j) {
        assert reply[j] == block[j - o - |JsonFence|];
      }
    }
    ExtractFenced(reply, o, c);
    assert reply[o + |JsonFence|..c] == block;
  }

  /** A text without a backquote holds no "```json". */
  lemma NoBackquoteNoFence(s: string)
    requires '`' !in s
    ensures AbsentFrom(s, JsonFence, 0)
  {
    forall j | 0 <= j && j + |JsonFence| <= |s| ensures !OccursAt(s, JsonFence, j) {
      assert s[j..j + |JsonFence|][0] == s[j];
    }
  }
}
