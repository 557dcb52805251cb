# cv-job-analysis: reply normalisation and result shapes, in Dafny

cv-job-analysis is a small Streamlit application. It sends a résumé and a job
description to a generative language model and asks for a JSON report:

- a match score;
- weighted key skills ("priorities");
- matched and missing skills;
- advice grouped by category.

The model's reply is free text. Before parsing it, the application turns it
into something a JSON parser can accept, in this order:

1. reject a blank reply;
2. cut out the JSON candidate, trying three strategies in order:
   - a "```json" fenced block;
   - the span from the first `{` to the last `}`;
   - the whole stripped reply;
3. reject an empty candidate;
4. repair unbalanced braces, either by appending `}` or by cutting at the
   last `}`, once per surplus brace;
5. parse.

When the report is displayed, the code tolerates several shapes for each
section.

This project models that pipeline and those shape rules as pure functions,
and proves what each step guarantees.

Modules:

- `Text` (text.dfy) covers Python's `str` primitives as the code uses them:
  - `isspace`, `strip`, `count`, `find`, `rfind`;
  - `replace(c, "")` and `c * n`.
- `JsonValue` (json.dfy) holds the parsed JSON value and `dict.get`.
- `Extraction` (extraction.dfy) covers the three extraction strategies.
- `BraceRepair` (repair.dfy) covers the brace-count repair.
- `ReplyPipeline` (normalize.dfy) is the whole pipeline. Its `Outcome` is one
  of four values:
  - `EmptyReply`;
  - `ExtractionFailure(raw)`;
  - `ParseFailure(extracted, raw)`;
  - `Success(value)`.
- `Scenarios` (scenarios.dfy) works the pipeline on concrete replies.
- `Display` (display.dfy) covers three shape rules:
  - how matched and missing entries are classified;
  - how priority entries are read;
  - the colour band of a skill weight.
- `Advice` (advice.dfy) covers the cleanup of one advice line: `**bold**` becomes
  `<strong>` and the remaining `*` are dropped.
- `Prompt` (prompt.dfy) covers three things:
  - the blank-input guard;
  - how the prompt is assembled;
  - the language fallback of the UI texts.

The JSON parser is a parameter, `parse: string -> Option<Json>`. `None`
stands for a `JSONDecodeError`. Every property about the pipeline holds for
every parser.

## Model

| member | source | states |
|---|---|---|
| Text.Strip | app.py:354 | The result has no whitespace at either end, under Python's `isspace`. It is a contiguous slice of the input with only whitespace before and after it. It is empty exactly when the input is blank. |
| Text.Find | app.py:361-362 | The result is -1 exactly when the pattern occurs nowhere at or after the start index. Otherwise it is the first such occurrence. |
| Text.FindChar | app.py:366 | The result is -1 exactly when the character is absent. Otherwise it indexes the first occurrence. |
| Text.RFind | app.py:367 | The result is -1 exactly when the character is absent. Otherwise it indexes the last occurrence. |
| Text.Count | app.py:380 | The count is at most the length. It is zero exactly when the character is absent. |
| Text.CountIsMultiplicity | app.py:380 | The count is the number of times the character occurs: its multiplicity in the text. |
| Text.CountAppend | app.py:380-386 | Counting a concatenation adds the counts of the parts. |
| Text.StripKeepsCount | app.py:364 | Stripping keeps the count of every non-whitespace character, braces included. |
| Text.StripIdempotent | app.py:364 | Stripping an already stripped text changes nothing. |
| Text.Remove | app.py:535 | The removed character no longer occurs. Every other character keeps its count. The length drops by exactly the removed character's count. A text without it is unchanged. |
| Text.RemoveAppend | app.py:535 | Removal distributes over concatenation, so the characters that remain keep their order. |
| Text.RemoveOne | app.py:535 | A single character is dropped exactly when it is the removed one. |
| Text.Repeat | app.py:386 | `c * n` has length `n` and holds `c` at every index. |
| Text.RepeatCount | app.py:386 | `c * n` counts `n` copies of `c`. |
| Extraction.BranchOf | app.py:360-370 | The fenced strategy is taken exactly when "```json" occurs. The brace span is taken exactly when it does not, but both braces occur. Otherwise the whole reply is taken. |
| Extraction.Extract | app.py:359-370 | The candidate is never longer than the reply. The fenced and whole-reply candidates are stripped. A non-empty brace-span candidate opens with `{` and closes with `}`. |
| Extraction.ExtractFenced | app.py:360-364 | Given the first "```json" and the first "```" after it, the candidate is the stripped text between them. It is empty when the closing fence does not come strictly after the opening one. |
| Extraction.ExtractFenceUnclosed | app.py:360-364 | A "```json" with no later "```" yields an empty candidate. |
| Extraction.ExtractFencedBlock | app.py:360-364 | A block between "```json" and "```", with no backquote before or inside it, yields that block stripped. |
| Extraction.ExtractBraceSpan | app.py:365-368 | Without a fence, the candidate runs from the first `{` through the last `}`. It is empty when that `}` comes before that `{`. |
| Extraction.ExtractWhole | app.py:369-370 | Without a fence and without one of the two braces, the candidate is the whole reply stripped. |
| BraceRepair.CutAtLastClose | app.py:391 | `rsplit("}", 1)[0]` gives a prefix. When the text holds a `}`, the prefix ends just before the last `}`, so everything after that `}` is lost. The prefix then holds exactly one `}` fewer. It is the whole text when there is no `}`. It never gains a `{`. |
| BraceRepair.CutTimes | app.py:389-391 | When there are at least `k` closing braces, `k` cuts leave the prefix that ends just before the k-th `}` from the end. It holds exactly `k` fewer `}`. It never gains a `{`. |
| BraceRepair.AppendBalances | app.py:383-386 | Appending one `}` per missing close gives equal counts of `{` and `}`. |
| BraceRepair.Repair | app.py:380-391 | There are three cases. With surplus `{`, the text is kept and exactly the missing `}` are appended, so the counts become equal. With surplus `}`, the result is the prefix that ends just before the k-th `}` from the end, k being the surplus. Its `}` count equals the original `{` count. With balanced counts, the text is unchanged. |
| BraceRepair.RepairIdempotent | app.py:380-386 | With no surplus `}`, repairing a repaired text changes nothing. |
| BraceRepair.RepairMayLeaveImbalance | app.py:387-391 | A cut can also remove `{` after the last `}`. Then one pass per surplus brace still leaves the braces unbalanced: "{}}}{}" becomes "{}}". |
| ReplyPipeline.Conclude | app.py:393-402 | The outcome is a parse failure exactly when the parser rejects the repaired text. A parse failure carries the repaired text and the raw reply. A success carries the parser's value. |
| ReplyPipeline.Normalize | app.py:352-402 | The outcome is EmptyReply exactly when the reply is blank. It is an extraction failure exactly when a non-blank reply yields an empty candidate. A parse failure or success concerns the repaired candidate, as in Conclude. |
| ReplyPipeline.BlankReplyIgnoresParser | app.py:354-356 | A blank reply is rejected before any parser runs. Every parser gives EmptyReply. |
| ReplyPipeline.ExtractionFailureIgnoresParser | app.py:373-377 | An extraction failure does not depend on the parser and carries the raw reply. |
| ReplyPipeline.UnclosedFenceFails | app.py:360-377 | A "```json" with no closing fence ends as an extraction failure. The code does not fall back to the brace span. |
| ReplyPipeline.BlankFenceFails | app.py:360-377 | A fenced block holding only whitespace ends as an extraction failure. |
| ReplyPipeline.BlankExtractsNothing | app.py:359-370 | A blank reply yields an empty candidate under every strategy. |
| ReplyPipeline.WrappedObjectReachesParser | app.py:365-393 | There is no fence, no `{` in the prose before, and no `}` in the prose after. Then a balanced `{...}` reaches the parser exactly as written. |
| ReplyPipeline.UnclosedReplyIsClosed | app.py:369-393 | A non-blank reply with no fence and no `}` reaches the parser stripped. It gets one `}` for each `{` it holds. |
| ReplyPipeline.BalancedCandidateReachesParser | app.py:373-393 | A non-empty candidate with balanced braces reaches the parser unchanged. |
| ReplyPipeline.FencedBlockReachesParser | app.py:360-393 | A non-blank, balanced fenced block reaches the parser stripped. The prose around it does not matter. |
| Scenarios.EmptyAndSpacesAreEmptyReplies | app.py:354-356 | "" and "   " are both empty replies, whatever the parser. |
| Scenarios.ProseReachesParser | app.py:369-393 | Prose with no braces and no fence reaches the parser as it is. |
| Scenarios.LoneOpenIsClosed | app.py:369-393 | The reply "{" goes through the whole-reply strategy and is closed: the parser sees "{}". |
| Scenarios.SurplusCloseIsCut | app.py:369-393 | The reply "abc}" goes through the whole-reply strategy and is cut at its `}`: the parser sees "abc". |
| Display.Classify | app.py:467-501 | An entry is shown in detail exactly when it is an object holding both "item" and the detail key. It is shown as a titled entry exactly when it is not, but holds both "title" and "description". Otherwise it is shown bare. Each variant carries the entry's own fields. |
| Display.ClassifyMatched | app.py:467-482 | A matched entry is detailed exactly when it holds "item" and "evidence". Otherwise it is titled exactly when it holds "title" and "description". |
| Display.ClassifyMissing | app.py:491-501 | A missing entry is detailed exactly when it holds "item" and "action". Otherwise it is titled exactly when it holds "title" and "description". |
| Display.EntryObject | app.py:299-300 | An entry written as the object the prompt asks for is classified back as that same entry. So is a bare value that is in neither object shape. |
| Display.DetailedTakesPrecedence | app.py:467-480 | An object holding both the {item, detail} pair and the {title, description} pair is shown in detail. |
| Display.WeightOf | app.py:440-443 | A missing weight reads as 0. An integer weight is its own value; Python compares it with 0.7 exactly. A boolean weight is 1 or 0. A float weight is its own value unless its hundredfold overflows a double, that is, reaches 2^1024 - 2^970 in magnitude. Any other weight has no value, because app.py:442 or app.py:443 raises on it. This covers an overflowing float, NaN, the infinities, null, strings, lists and objects. |
| Display.HundredfoldOverflowBoundary | app.py:442 | A weight of 1e307 has no value, because its hundredfold overflows to infinity and `int` raises. A weight of 1.797e306 keeps its value. |
| Display.ClassifyPriority | app.py:437-457 | An object priority takes its own "name" and "explanation" when present, and the empty string when absent. Its weight is read as in WeightOf. Anything else is kept as a legacy entry. |
| Display.ColourOf | app.py:443 | The colour is "#28a745" exactly from 0.7 up, "#ffc107" exactly on [0.5, 0.7), and "#dc3545" exactly below 0.5. |
| Display.BandOf | app.py:443 | Green exactly from 0.7 up, amber exactly on [0.5, 0.7), red exactly below 0.5. |
| Display.BandMonotonic | app.py:443 | A higher weight never gets a worse band. |
| Display.MissingWeightIsRed | app.py:440-443 | A priority without a weight weighs 0 and is red. |
| Advice.LazyClose | app.py:533 | The non-greedy `(.*?)` closes at the first "**" after the opening, without crossing a newline. It finds none exactly when every later "**" lies beyond a newline. |
| Advice.BoldToStrong | app.py:533 | A line without `*` is unchanged. |
| Advice.CleanAdvice | app.py:533-535 | A cleaned line holds no `*` and is stripped. A line without `*` is only stripped. |
| Advice.BoldPair | app.py:533 | `**w**`, with `w` on one line and free of `*`, becomes `<strong>w</strong>`. |
| Advice.CleanBoldItem | app.py:533-535 | A whole-line `**w**` advice item is cleaned to `<strong>w</strong>`. |
| Prompt.InputsAccepted | app.py:607-609 | The analysis runs exactly when neither the résumé nor the job description is blank. |
| Prompt.FullPrompt | app.py:326-338 | The prompt begins with the instruction text before the language slot. The language follows, then the rest of the instruction text. The résumé comes next at a fixed offset, then the job description after the job label. Its length is the sum of the parts. |
| Prompt.PromptDeterminesInputs | app.py:326-338 | For résumés of equal length, the same prompt determines the same résumé and the same job description. |
| Prompt.TextsFor | app.py:266 | The English texts are chosen exactly for "English". Every other language falls back to Chinese. |
| Prompt.SelectorNamesRoundTrip | app.py:554 | Each name the language selector offers ("中文" and "English") chooses its own language through the lookup of app.py:266. |

## Behaviour worth knowing

- Brace repair follows the code: it makes exactly one cut per surplus `}`.
  - `rsplit("}", 1)[0]` drops everything from the last `}` on, including any
    `{` after it.
  - So repair does not always end balanced. `BraceRepair.RepairMayLeaveImbalance`
    shows this, and `BraceRepair.Repair` states only what does hold.
  - There is no flag recording that a repair happened; the code has none.
- A reply with neither a fence nor both braces is not an extraction failure.
  - The stripped reply goes through brace repair and is then handed to the parser.
  - With only `{`, the missing `}` are appended: `"{"` reaches the parser as `"{}"`.
  - With only `}`, each surplus `}` is cut off with what follows it: `"abc}"` reaches the parser as `"abc"`, and `"}"` as `""`.
  - The parser decides the rest. Text that is not JSON ends as a `ParseFailure`. Valid JSON such as `42` or a repaired `"{}"` ends as a `Success`.
- The parsed value is returned as it is. Shape tolerance happens only when
  the report is displayed, and that is where `Display` models it.

## Left out

- The Streamlit interface, page layout, CSS and every `st.*` call are left out. They are presentation only.
- The Gemini client is left out: its set-up, the API key from the environment, `generate_content`, the generation settings, and the outer failure path of app.py:404-406. These are I/O. The pipeline starts from the reply text.
- `json.loads` is a parameter, not modelled. Its grammar is the standard library's; `parse` returning `None` stands for its `JSONDecodeError`.
- Any other exception `json.loads` might raise is left out. It would reach the outer failure path.
- The system instruction text of app.py:292-324 is left out as text. `Prompt.FullPrompt` takes the parts before and after the `{language}` slot as parameters.
- `int(weight * 100)`, the percentage shown next to a weight, is left out. It is display text and does not affect the band.
- Display.BandOf: weights are exact reals, so double-precision rounding right at 0.7 and 0.5 is not modelled.
- Display.WeightOf: a `JFloat` may hold any real, not only a double. The overflow rule is exact for the doubles `json.loads` produces, which are the only floats that reach it.
- Iterating a `matched`, `missing` or `priorities` value that is not a list is left out. Python would iterate a string's characters or a dict's keys, or raise. Only list entries are classified.
- The "no matched" and "all skills met" placeholders for empty sections are left out.
- `display_results` on a value that is not a JSON object is left out. The code raises there.
- How evidence lists are rendered is left out. `Display.Classify` keeps the evidence value as it is.
- Display.Classify: a detailed `matched` entry whose "evidence" cannot be iterated (a number, boolean, null or non-finite float) makes the loop of app.py:470 raise `TypeError`. The model still classifies it as detailed, because rendering the evidence is not modelled.
- Three parts of advice rendering are left out: the dict/str/list dispatch, the category colours, and the HTML assembly. `Advice` models the cleanup of a single string item.
- An advice item that is not a string is left out. `re.sub` raises `TypeError` there.
- Advice.BoldToStrong: its contract covers lines without `*`. The replacement itself is stated through `Advice.LazyClose` and `Advice.BoldPair`, not as a closed form for every input.
- The error and warning messages shown to the user are left out. `Outcome` carries the texts the code shows: the raw reply, and the extracted text.
