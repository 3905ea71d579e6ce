# Grammar corrector edit applicator

This project models the edit applicator inside `GrammarCorrector.correct`.
It takes the input text and the list of matches that the grammar service
returned. Each match has an offset and a length in original-text
coordinates, a list of replacements and a message. The applicator visits
the matches in order. For each match with at least one replacement it:

- records a `GrammarIssue` that quotes the text it is about to remove;
- splices the first replacement into a working string;
- updates a running `offsetAdjustment`, which maps later original offsets
  into the shifted coordinates of the working string.

Strings are sequences of `char`. JavaScript's `length`, `substring` and the
service's offsets count UTF-16 code units. The model's indices count `char`s,
so they agree for texts whose every character is a single code unit (see
"## Left out").

Modules:

- `GrammarTypes` holds the records: `Replacement`, `Match`, `GrammarIssue`,
  `CorrectionResult` and the `"Grammar Error"` category.
- `JsString` models `String.prototype.substring` exactly as ECMAScript
  defines it. Both indices are clamped into `[0, length]`, and they are
  swapped when the start lies past the end. Because of this the applicator
  never fails, and `Correct` has no precondition.
- `EditSpec` holds reference definitions in original-text coordinates:
  - which matches take part (`AppliedFirst`);
  - their net length change (`DeltaFirst`);
  - the well-placed condition: sorted, non-overlapping and inside the text;
  - the edits applied last to first at their original offsets
    (`ApplyRightToLeftFirst`);
  - the effective offsets;
  - replaying issues at those offsets (`Replay`);
  - the predicates `Reports` and `Quotes` that describe the issue list.
- `GrammarCorrector` holds the model itself:
  - `Step` is one pass of the loop body;
  - `RunFirst`/`Run` fold `Step` over the matches;
  - `ApplyMatches` is the loop, as a `while` loop over local variables;
  - `Correct` is the whole function once the matches are known;
  - lemmas connect the loop to the reference definitions.
- `CorrectorExamples` holds concrete runs on small inputs.

Without any precondition, the model proves:

- the result's `original` is the input;
- no matches leave the text unchanged and produce no issues;
- a match without replacements changes nothing;
- the issues come out one per match with a replacement, in order, with the
  category, the message and the first replacement;
- the adjustment is the sum of `|replacement| - length` over the matches
  applied so far.

For a well-placed list, the model also proves:

- the loop computes the right-to-left application in original coordinates;
- the working string's length is always the original length plus the
  adjustment;
- every issue quotes exactly `text[offset..offset+length]` of the original
  text (the empty string for an insertion);
- replaying each issue's `original -> corrected` at its effective offset,
  in order and starting from the input, rebuilds the corrected text.

One might expect a match whose span lies outside the working string to be
skipped. The code has no such check. `substring` clamps the indices, so the
replacement is inserted at the clamped position. The adjustment still uses
the match's full length. The model follows the code, and
`CorrectorExamples.PastTheEndIsClamped` shows the effect: a match at offset
5 on `"ab"` appends its replacement. For the same reason the well-placed
condition appears only in the requires of lemmas, never as a requirement on
`Correct`.

## Model

| member | source | states |
|---|---|---|
| GrammarCorrector.Correct | src/utils/grammarCorrector.ts:20-61 | The result's original is the input text. Corrected text and issues are those of the fold of the loop body over the matches. No matches give the text unchanged and no issues. The issues report the matches with a replacement, one for one and in order. On a well-placed list: corrected is the right-to-left application; every issue quotes the original text of its match; replaying the issues at their effective offsets rebuilds the corrected text. |
| GrammarCorrector.ApplyMatches | src/utils/grammarCorrector.ts:21-53 | The loop's final corrected string, adjustment and issues equal the fold of `Step` over all matches. The final adjustment is the net length change of the applied matches. On a well-placed list the corrected length is the original length plus the adjustment. |
| GrammarCorrector.Step | src/utils/grammarCorrector.ts:33-52 | A match without replacements leaves string, adjustment and issues unchanged. Otherwise exactly one issue is appended after the earlier ones, with category "Grammar Error", the match's message and its first replacement. The adjustment grows by the replacement's length minus the match length. |
| GrammarCorrector.StepSplices | src/utils/grammarCorrector.ts:33-51 | When the effective span fits the working string, the new string is a splice. The prefix before the effective offset is unchanged, the replacement follows it, and then comes the old suffix after offset+length. The new issue quotes exactly the removed span. Length minus adjustment is preserved. |
| GrammarCorrector.IssuesFollowMatches | src/utils/grammarCorrector.ts:36-44 | After any prefix of the matches, the issues report the matches with a non-empty replacement list: one for one, in order, with category, message and first replacement. |
| GrammarCorrector.AdjustmentIsDelta | src/utils/grammarCorrector.ts:25-51 | After any prefix of the matches, the running adjustment equals the sum of `|replacement| - length` over the applied matches. |
| GrammarCorrector.StepOnOriginal | src/utils/grammarCorrector.ts:33-49 | On a well-placed list, if the working string so far is the right-to-left application of the earlier matches, then three things hold. The next match's effective span fits. It covers there exactly the original text of that match. Applying it keeps the agreement. |
| GrammarCorrector.RunAgreesWithOriginal | src/utils/grammarCorrector.ts:21-53 | On a well-placed list the loop's working string after any prefix equals the right-to-left application of that prefix in original coordinates. Its length is the original length plus the adjustment. |
| GrammarCorrector.NextMatch | src/utils/grammarCorrector.ts:33-42 | On a well-placed list each match lies in the text and its effective span fits the working string. The adjustment is the net change so far. The issue the match emits quotes the original text at its unshifted offset. |
| GrammarCorrector.IssuesQuoteOriginal | src/utils/grammarCorrector.ts:33-44 | On a well-placed list every issue's `original` is `text[offset..offset+length]` of its match in the original text, so an insertion quotes the empty string. |
| GrammarCorrector.ReplayStep | src/utils/grammarCorrector.ts:39-51 | If replaying the issues so far rebuilds the working string, then replaying one more issue at its effective offset rebuilds the working string after a fitting step. |
| GrammarCorrector.ReplayReconstructs | src/utils/grammarCorrector.ts:39-51 | On a well-placed list, replaying each issue's original -> corrected at its effective offset, in order and starting from the input, rebuilds the working string after any prefix of the matches. |
| GrammarCorrector.RunSummary | src/utils/grammarCorrector.ts:20-59 | Collects the properties of the whole run: the issues report the applied matches. On a well-placed list it also gives the right-to-left agreement, the length equation, the quotes and the replay. |
| EditSpec.AppliedFirst | src/utils/grammarCorrector.ts:36 | The matches that take part are at most as many as those visited, and each has a replacement. |
| EditSpec.AppliedFirstMembers | src/utils/grammarCorrector.ts:36 | A match takes part exactly when it is among those visited and its replacement list is non-empty. |
| EditSpec.Splice | src/utils/grammarCorrector.ts:46-49 | The splice keeps the prefix before the offset, places the replacement there, keeps the suffix after offset+length, and has the resulting length. |
| EditSpec.EffectiveOffsetsFirst | src/utils/grammarCorrector.ts:33 | There is exactly one effective offset per applied match. |
| EditSpec.ApplyRightToLeftLength | src/utils/grammarCorrector.ts:46-51 | The right-to-left application changes the length by the net change of the applied matches. |
| EditSpec.ApplyRightToLeftTail | src/utils/grammarCorrector.ts:46-49 | Edits that all end by position b leave the text from b on untouched. |
| EditSpec.WorkingStringAt | src/utils/grammarCorrector.ts:33-51 | Before match n of a well-placed list, the right-to-left application of the earlier matches is an edited head of the predicted length followed by the original text from match n's offset on. When match n has a replacement, applying it puts the replacement at the end of that head. |
| JsString.Clamp | src/utils/grammarCorrector.ts:42-49 | An index is clamped into [0, length]: unchanged inside, 0 below, length above. |
| JsString.Substring | src/utils/grammarCorrector.ts:42-49 | `substring(start, end)` is the slice when 0 <= start <= end <= length. It is the swapped slice when end < start. It is empty when both indices are at or past the end or both are at or before 0. It is never longer than the string. |
| JsString.SubstringFrom | src/utils/grammarCorrector.ts:49 | `substring(start)` is the suffix from start when in range, empty past the end, and the whole string at or before 0. |
| CorrectorExamples.SingleSubstitution | src/utils/grammarCorrector.ts:33-51 | "I has a cat" with a match at 2 of length 3 replaced by "have" gives "I have a cat" and one issue quoting "has". |
| CorrectorExamples.LaterMatchAfterGrowth | src/utils/grammarCorrector.ts:33-51 | A later match is read at its shifted position after an earlier edit grew the text. Both issues quote their original text. |
| CorrectorExamples.InsertionQuotesNothing | src/utils/grammarCorrector.ts:33-51 | A length-0 match inserts its replacement, and its issue quotes the empty string. |
| CorrectorExamples.NoReplacementIsSkipped | src/utils/grammarCorrector.ts:36 | A match with an empty replacement list changes nothing and emits no issue. |
| CorrectorExamples.PastTheEndIsClamped | src/utils/grammarCorrector.ts:42-51 | A match past the end of the text is clamped by `substring`, not skipped: its replacement is appended and its issue quotes the empty string. |

## Left out

- The HTTP request to the LanguageTool endpoint (src/utils/grammarCorrector.ts:6-19) is network I/O through a foreign library. The model takes `matches` as a parameter instead.
- `response.data.matches || []` (src/utils/grammarCorrector.ts:20): a missing match list is the empty sequence in the model.
- The `async`/`Promise` plumbing of `correct` is concurrency, and the result is returned directly.
- A missing `replacements` list and an empty one are a single case, the empty sequence. The code treats both alike (src/utils/grammarCorrector.ts:36).
- Match offsets and lengths are natural numbers, because the external service never sends negative ones. A negative offset or length would not behave like 0: `substring` would swap or clamp the indices while the adjustment still used the raw values. These cases are outside the model.
- The `type` field of `GrammarIssue` is named `kind`, because `type` is a Dafny keyword.
- `CorrectionResult` carries only `original`, `corrected` and `issues`. The optional `explanation`, `betterAlternative` and `suggestions` are never produced by this code (src/types/grammar.ts:1-8).
- Texts with characters outside the Basic Multilingual Plane are not represented faithfully. A Dafny `char` is a Unicode scalar value, so such a character is one element here, but JavaScript stores it as two UTF-16 code units and the service's offsets count both. The model covers texts whose every character is a single code unit.
- The React components, the mode and placeholder tables and the application shell are presentation and are not part of this model.
