/**
 Concrete replies and what normalisation makes of them, for any parser:
 each outcome is stated in terms of what the parser says about the
 candidate that reaches it.
 */
module Scenarios {
  import opened Text
  import opened JsonValue
  import opened Extraction
  import opened BraceRepair
  import opened ReplyPipeline

  /** An empty reply and a reply of spaces are both refused as empty. */
  lemma EmptyAndSpacesAreEmptyReplies(parse: string -> Option<Json>)
    ensures Normalize(parse, "") == EmptyReply
    ensures Normalize(parse, "   ") == EmptyReply
  {
    assert IsBlank("   ") by {
      forall k | 0 <= k < 3 ensures IsSpace("   "[k]) { }
    }
  }

  /** A reply of plain prose reaches the parser verbatim: it ends as a
      parse failure or a success, never as an empty reply or an
      extraction failure. */
  lemma ProseReachesParser(parse: string -> Option<Json>)
    ensures Normalize(parse, "no braces here") == Conclude(parse, "no braces here", "no braces here")
  {
    var s := "no braces here";
    assert '`' !in s && '{' !in s && '}' !in s;
    NoBackquoteNoFence(s);
    assert !IsSpace(s[0]) && !IsSpace(s[|s| - 1]);
    StripTrimmed(s);
    assert Repeat('}', Count(s, '{')) == [];
    assert s + [] == s;
    UnclosedReplyIsClosed(parse, s);
  }

  /** A lone '{' is closed before it reaches the parser. */
  lemma LoneOpenIsClosed(parse: string -> Option<Json>)
    ensures Normalize(parse, "{") == Conclude(parse, "{}", "{")
  {
    var s := "{";
    assert '`' !in s && '}' !in s;
    NoBackquoteNoFence(s);
    assert !IsSpace(s[0]);
    StripTrimmed(s);
    assert Count(s, '{') == 1 by { assert s[..0] == []; }
    assert Repeat('}', 1) == "}" by { assert Repeat('}', 0) == []; }
    assert s + "}" == "{}";
    UnclosedReplyIsClosed(parse, s);
  }

  /** A surplus '}' is cut off before the text reaches the parser. */
  lemma SurplusCloseIsCut(parse: string -> Option<Json>)
    ensures Normalize(parse, "abc}") == Conclude(parse, "abc", "abc}")
  {
    var s := "abc}";
    assert '`' !in s && '{' !in s;
    NoBackquoteNoFence(s);
    assert !IsSpace(s[0]) && !IsSpace(s[|s| - 1]);
    StripTrimmed(s);
    ExtractWhole(s);
    assert s[..3] == "abc";
    assert Count("abc", '}') == 0 && Count("abc", '{') == 0;
    assert Count(s, '}') == 1 && Count(s, '{') == 0;
    assert CutAtLastClose(s) == "abc";
    assert Repair(s) == "abc";
  }
}
