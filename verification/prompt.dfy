/**
 The request side: the guard on the two input texts, the prompt that
 embeds them, and the choice of the interface text table.
 */
module Prompt {
  import opened Text

  /** Both texts must hold something other than whitespace; otherwise the
      analysis is refused before any request is made. */
  function InputsAccepted(resume: string, job: string): (ok: bool)
    ensures ok <==> !IsBlank(resume) && !IsBlank(job)
  {
    Strip(resume) != [] && Strip(job) != []
  }

  /** The labels of the user part of the prompt. */
  const ResumeLabel: string := "\n履歷內容：\n"
  const JobLabel: string := "\n\n職缺描述：\n"
  const Closing: string := "\n\n請分析匹配度並提供建議。\n"

  /** The user part: the résumé, then the job description, each verbatim
      after its label. */
  function UserPrompt(resume: string, job: string): string {
    ResumeLabel + resume + JobLabel + job + Closing
  }

  /** Where the résumé starts in the full prompt. */
  function ResumeStart(head: string, language: string, tail: string): nat {
    |head| + |language| + |tail| + 2 + |ResumeLabel|
  }

  /** The full prompt: the fixed instruction text (`head`, then the
      language name, then `tail`), a blank line, then the user part. */
  function FullPrompt(head: string, tail: string, language: string, resume: string, job: string): (p: string)
    ensures |p| == ResumeStart(head, language, tail) + |resume| + |JobLabel| + |job| + |Closing|
    ensures p[..|head|] == head
    ensures p[|head|..|head| + |language|] == language
    ensures p[|head| + |language|..|head| + |language| + |tail|] == tail
    ensures var k := ResumeStart(head, language, tail);
      && p[k..k + |resume|] == resume
      && p[k + |resume| + |JobLabel|..k + |resume| + |JobLabel| + |job|] == job
  {
    var p := head + language + tail + "\n\n" + UserPrompt(resume, job);
    var k := ResumeStart(head, language, tail);
    assert p[k..k + |resume|] == resume;
    p
  }

  /** Nothing is escaped or dropped: for a fixed instruction text, the
      prompt determines both inputs once the résumé's length is known. */
  lemma PromptDeterminesInputs(head: string, tail: string, language: string,
                               r1: string, j1: string, r2: string, j2: string)
    requires |r1| == |r2|
    requires FullPrompt(head, tail, language, r1, j1) == FullPrompt(head, tail, language, r2, j2)
    ensures r1 == r2 && j1 == j2
  {
    var p := FullPrompt(head, tail, language, r1, j1);
    var k := ResumeStart(head, language, tail);
    assert r1 == p[k..k + |r1|] == r2;
    assert |j1| == |j2|;
  }

  /** The interface text tables. */
  datatype UiLanguage = Chinese | English

  /** The selector value naming each table. */
  function LanguageName(l: UiLanguage): string {
    match l
    case Chinese => "中文"
    case English => "English"
  }

  /** `texts.get(language, texts["中文"])`: an unknown name falls back to
      the Chinese table. */
  function TextsFor(language: string): (l: UiLanguage)
    ensures l == English <==> language == LanguageName(English)
  {
    if language == "English" then English else Chinese
  }

  /** Each selector value picks its own table. */
  lemma SelectorNamesRoundTrip(l: UiLanguage)
    ensures TextsFor(LanguageName(l)) == l
  {
  }
}
