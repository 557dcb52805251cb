/**
 The normalisation of the model's reply in `analyze_resume_job_match`:
 reject a blank reply, extract the JSON candidate, reject an empty
 candidate, repair its brace counts, and hand it to the JSON parser.
 The parser (`json.loads`) is not modelled; it is the parameter `parse`,
 which answers `None` where `json.loads` raises a decoding error.
 */
module ReplyPipeline {
  import opened Text
  import opened JsonValue
  import opened Extraction
  import opened BraceRepair

  /** How one reply ends. A failure keeps the text the caller displays:
      the raw reply, and for a parse failure also the repaired candidate. */
  datatype Outcome =
    | EmptyReply
    | ExtractionFailure(raw: string)
    | ParseFailure(extracted: string, raw: string)
    | Success(value: Json)

  /** The last step: the parser's verdict on the repaired candidate. */
  function Conclude(parse: string -> Option<Json>, repaired: string, reply: string): (o: Outcome)
    ensures o.ParseFailure? <==> parse(repaired).None?
    ensures o.ParseFailure? ==> o.extracted == repaired && o.raw == reply
    ensures o.Success? ==> parse(repaired) == Some(o.value)
  {
    match parse(repaired)
    case None => ParseFailure(repaired, reply)
    case Some(v) => Success(v)
  }

  /** The whole normalisation of a model reply: refuse a blank reply, cut
      out the candidate, refuse an empty one, repair its braces, parse. */
  function Normalize(parse: string -> Option<Json>, reply: string): (o: Outcome)
    ensures o == EmptyReply <==> IsBlank(reply)
    ensures o.ExtractionFailure? <==> !IsBlank(reply) && Extract(reply) == []
    ensures o.ExtractionFailure? ==> o.raw == reply
    ensures o.ParseFailure? ==>
      && o.raw == reply
      && Extract(reply) != []
      && o.extracted == Repair(Extract(reply))
      && parse(o.extracted) == None
    ensures o.Success? ==> parse(Repair(Extract(reply))) == Some(o.value)
  {
    if Strip(reply) == [] then EmptyReply
    else
      var candidate := Extract(reply);
      if candidate == [] then ExtractionFailure(reply)
      else
        Conclude(parse, Repair(candidate), reply)
  }

  /** A blank reply is refused before any parsing: the parser in use makes
      no difference. */
  lemma BlankReplyIgnoresParser(p: string -> Option<Json>, q: string -> Option<Json>, reply: string)
    requires IsBlank(reply)
    ensures Normalize(p, reply) == Normalize(q, reply) == EmptyReply
  {
  }

  /** An extraction failure is decided before any parsing: whether it
      happens, and what it carries, does not depend on the parser. */
  lemma ExtractionFailureIgnoresParser(p: string -> Option<Json>, q: string -> Option<Json>, reply: string)
    ensures Normalize(p, reply).ExtractionFailure? <==> Normalize(q, reply).ExtractionFailure?
    ensures Normalize(p, reply).ExtractionFailure? ==>
              Normalize(q, reply) == Normalize(p, reply) == ExtractionFailure(reply)
  {
  }

  /** A reply holding "```json" but no closing "```" after it fails
      extraction, even when it contains a well-formed brace span. */
  lemma UnclosedFenceFails(parse: string -> Option<Json>, reply: string, o: int)
    requires FirstAt(reply, JsonFence, 0, o)
    requires AbsentFrom(reply, Fence, o + |JsonFence|)
    ensures Normalize(parse, reply) == ExtractionFailure(reply)
  {
    ExtractFenceUnclosed(reply, o);
    assert reply[o..o + |JsonFence|][0] == '`';
  }

  /** A fenced block that is empty or blank fails extraction. */
  lemma BlankFenceFails(parse: string -> Option<Json>, reply: string, o: int, c: int)
    requires FirstAt(reply, JsonFence, 0, o)
    requires FirstAt(reply, Fence, o + |JsonFence|, c)
    requires IsBlank(reply[o + |JsonFence|..c])
    ensures Normalize(parse, reply) == ExtractionFailure(reply)
  {
    ExtractFenced(reply, o, c);
    assert reply[o..o + |JsonFence|][0] == '`';
  }

  /** A balanced object text `t`, possibly surrounded by prose holding no
      '{' before it and no '}' after it, reaches the parser verbatim. In
      particular a reply that is exactly the serialisation of an object
      normalises to whatever the parser makes of that serialisation. */
  lemma {:induction false} WrappedObjectReachesParser(
    parse: string -> Option<Json>, pre: string, t: string, post: string)
    requires |t| >= 2 && t[0] == '{' && t[|t| - 1] == '}'
    requires Count(t, '{') == Count(t, '}')
    requires '{' !in pre && '}' !in post
    requires AbsentFrom(pre + t + post, JsonFence, 0)
    ensures Normalize(parse, pre + t + post) == Conclude(parse, t, pre + t + post)
  {
    var reply := pre + t + post;
    var f := |pre|;
    var l := |pre| + |t| - 1;
    assert reply[f] == '{';
    assert reply[l] == '}';
    assert FirstIndexOf(reply, '{', f) by {
      forall j | 0 <= j < f ensures reply[j] != '{' { assert reply[j] == pre[j]; }
    }
    assert LastIndexOf(reply, '}', l) by {
      forall j | l < j < |reply| ensures reply[j] != '}' { assert reply[j] == post[j - l - 1]; }
    }
    ExtractBraceSpan(reply, f, l);
    assert reply[f..l + 1] == t;
    assert !IsSpace(reply[f]);
  }

  /** A non-blank reply without "```json" and without '}' is a truncated
      object at best: its stripped text reaches the parser with one '}'
      appended per '{'. */
  lemma {:induction false} UnclosedReplyIsClosed(parse: string -> Option<Json>, reply: string)
    requires !IsBlank(reply)
    requires AbsentFrom(reply, JsonFence, 0)
    requires '}' !in reply
    ensures Normalize(parse, reply) == Conclude(parse, Strip(reply) + Repeat('}', Count(reply, '{')), reply)
  {
    ExtractWhole(reply);
    var t := Strip(reply);
    StripKeepsCount(reply, '{');
    StripKeepsCount(reply, '}');
    assert t != [];
    var r := Repair(t);
    if Count(t, '{') > 0 {
      assert r[..|t|] == t;
    }
    assert r == t + Repeat('}', Count(reply, '{'));
  }

  /** A blank reply yields no candidate under any strategy. */
  lemma BlankExtractsNothing(reply: string)
    requires IsBlank(reply)
    ensures Extract(reply) == []
  {
    assert AbsentFrom(reply, JsonFence, 0) by {
      forall j | 0 <= j && j + |JsonFence| <= |reply| ensures !OccursAt(reply, JsonFence, j) {
        assert reply[j..j + |JsonFence|][0] == reply[j];
        assert IsSpace(reply[j]);
      }
    }
    assert '{' !in reply by {
      forall k | 0 <= k < |reply| ensures reply[k] != '{' { assert IsSpace(reply[k]); }
    }
    ExtractWhole(reply);
  }

  /** A non-empty candidate with as many '{' as '}' reaches the parser
      unchanged. */
  lemma BalancedCandidateReachesParser(parse: string -> Option<Json>, reply: string)
    ensures var t := Extract(reply);
      t != [] && Count(t, '{') == Count(t, '}') ==> Normalize(parse, reply) == Conclude(parse, t, reply)
  {
    if IsBlank(reply) {
      BlankExtractsNothing(reply);
    }
  }

  /** A fenced block with no backquote in it or before it: its stripped
      text is what the parser sees when it holds as many '{' as '}'. */
  lemma FencedBlockReachesParser(parse: string -> Option<Json>, pre: string, block: string, post: string)
    requires '`' !in pre && '`' !in block
    requires !IsBlank(block)
    requires Count(Strip(block), '{') == Count(Strip(block), '}')
    ensures var reply := pre + JsonFence + block + Fence + post;
      Normalize(parse, reply) == Conclude(parse, Strip(block), reply)
  {
    ExtractFencedBlock(pre, block, post);
    BalancedCandidateReachesParser(parse, pre + JsonFence + block + Fence + post);
  }
}
