# Quiz grading engine, modelled in Dafny

This project models the quiz grading engine of a lesson-planning web application (`src/lib/grading.ts`). It also proves properties of that model.

`gradeQuiz(questions, responses)` works in four steps:

1. It builds a lookup from question id to answer. When two responses carry the same id, the later one wins.
2. It walks the questions in order. Each question's answer is the looked-up one, or `""` when there is none.
3. It asks `compareAnswers` for a verdict and pushes one feedback record per question.
4. It counts the correct verdicts and reports `Math.round(correct / total * 100)`.

`compareAnswers` normalises both answers with `trim()` and then `toLowerCase()`.

- A `multiple-choice` question needs the two normal forms to be equal.
- Every other question type takes a lenient path:
  - An exact match of the normal forms is correct.
  - Otherwise the normalised correct answer is split on whitespace runs into words. The answer is correct when at least 70% of those words, counted with repetition, occur as substrings of the normalised student answer.

The project has four modules, one per file:

- `Text` (`text.dfy`) holds the JavaScript string primitives the engine relies on:
  - `trim()` (`Trim`), which is the only function meeting its framing contract (`TrimUnique`);
  - an ASCII `toLowerCase()` (`LowerCase`);
  - `split(/\s+/)` (`Split`), whose inverse is `Join`, which puts arbitrary non-empty whitespace runs between words;
  - `includes()` (`Contains`), characterised by an explicit occurrence predicate.
- `Matching` (`matching.dfy`) is `compareAnswers`. It has the word filter `MatchedWords`, which is characterised by multisets and by the positions of the found words, the exact 70% threshold, and the verdict lemmas.
- `Grading` (`grading.dfy`) covers the rest:
  - the record types;
  - the specification function `Grade`;
  - the method `GradeQuiz`, whose loop is proved equal to `Grade`;
  - the lemmas about feedback shape, counts, score, lookup and unknown responses.
- `Scenarios` (`scenarios.dfy`) gives concrete gradings derived from the general lemmas:
  - `" paris "` matches `"Paris"`, but `"parís"` does not;
  - for `"mitochondria produces energy"`, 2 of 3 words found is wrong and 3 of 3 is right;
  - with duplicate ids the last response wins;
  - a missing answer is graded as `""`;
  - an empty quiz scores NaN.

Two edge cases of the code are modelled as they behave:

- **Empty quiz.** `gradeQuiz` does not reject an empty question list. It computes `0 / 0` and returns a score of `NaN`. The model returns `Score.NaN` for zero questions and requires nothing.
- **Blank correct answer.** A short-answer question whose correct answer is empty or all whitespace accepts every answer. The blank answer splits into `[""]`, which every string contains (`Matching.ShortAnswerBlankExpected`).

`options` is carried in `Question`, but the code never reads it, and neither does the model.

## Model

| member | source | states |
|---|---|---|
| Text.IsSpace | src/lib/grading.ts:78 | the whitespace of `trim()` and `\s`: it includes space, tab, line feed and carriage return, and never an ASCII letter or digit |
| Text.ToLower | src/lib/grading.ts:78 | a capital becomes its own lower-case letter, every other character is unchanged, and whitespace is neither made nor removed |
| Text.LowerCase | src/lib/grading.ts:78 | `toLowerCase()` keeps the length and lower-cases every character in place |
| Text.Trim | src/lib/grading.ts:78 | `trim()` returns the middle of the string after cutting a whitespace prefix and a whitespace suffix, with no whitespace left at either end |
| Text.TrimUnique | src/lib/grading.ts:78 | any string that frames `s` by whitespace in that way is `Trim(s)`: the result is uniquely determined |
| Text.TrimAllSpace | src/lib/grading.ts:78 | an all-whitespace string trims to `""` |
| Text.TrimOfTrimmed | src/lib/grading.ts:78 | a string with no whitespace at its ends is unchanged by trim |
| Text.TrimIgnoresPadding | src/lib/grading.ts:78 | trim removes any whitespace added at either end |
| Text.TrimLowerCaseCommute | src/lib/grading.ts:78 | trimming then lower-casing equals lower-casing then trimming |
| Text.Normalize | src/lib/grading.ts:78 | the normal form has no whitespace at its ends, no ASCII capitals, and is no longer than the input |
| Text.NormalizeIdempotent | src/lib/grading.ts:78 | normalising twice is normalising once |
| Text.NormalizeIgnoresPadding | src/lib/grading.ts:78 | surrounding whitespace does not change the normal form |
| Text.NormalizeIgnoresCase | src/lib/grading.ts:78 | strings equal up to letter case have the same normal form |
| Text.LeadingSpaces | src/lib/grading.ts:78 | the length of the maximal whitespace prefix |
| Text.TrailingSpaces | src/lib/grading.ts:78 | the length of the maximal whitespace suffix |
| Text.Split | src/lib/grading.ts:92 | `split(/\s+/)` returns at least one field, and no field holds whitespace |
| Text.SplitJoin | src/lib/grading.ts:92 | splitting words separated by non-empty whitespace runs of any length gives exactly those words back; an empty first or last word stands for a leading or trailing run |
| Text.SplitWordsOccur | src/lib/grading.ts:92 | every field of a split occurs in the string that was split |
| Text.Contains | src/lib/grading.ts:94 | `includes(n)` is true exactly when `n` occurs at some index as a contiguous substring |
| Text.ContainsTransitive | src/lib/grading.ts:94 | a substring of a substring is a substring |
| Text.ContainsNeedsEveryChar | src/lib/grading.ts:94 | a string with a character absent from `h` is not contained in `h` |
| Matching.MatchedWords | src/lib/grading.ts:93-95 | the filter keeps no more words than it is given, and each word it keeps occurs in the student answer |
| Matching.MatchedWordsMultiset | src/lib/grading.ts:93-95 | the filter keeps each word exactly as often as it appears when the student answer contains it, and drops it otherwise |
| Matching.MatchedWordsCountsPositions | src/lib/grading.ts:93-95 | the number of kept words is the number of positions of the word list whose word occurs in the student answer |
| Matching.MeetsThreshold | src/lib/grading.ts:98 | all words matched passes, and no word matched out of at least one fails |
| Matching.CompareAnswers | src/lib/grading.ts:73-99 | equal normal forms are always correct; for multiple choice, correct exactly when the normal forms are equal |
| Matching.ShortAnswerSeventyPercent | src/lib/grading.ts:85-98 | a short answer is correct exactly when its normal form equals the expected one, or the found word positions make up at least 70% of the expected words |
| Matching.ThresholdIsSeventyPercent | src/lib/grading.ts:98 | `10 * matched >= 7 * total` is `matched / total >= 0.7` over the reals |
| Matching.MatchedCountIgnoresOrder | src/lib/grading.ts:92-98 | reordering the expected words does not change the match count |
| Matching.AllWordsMatched | src/lib/grading.ts:93-95 | the match count is the word count exactly when every word is contained in the answer |
| Matching.NoWordMatched | src/lib/grading.ts:93-95 | the match count is zero exactly when no word is contained in the answer |
| Matching.ShortAnswerAllWordsFound | src/lib/grading.ts:85-98 | a short answer containing every expected word is correct |
| Matching.ShortAnswerContainingExpected | src/lib/grading.ts:85-98 | a short answer containing the whole expected answer is correct, with no notion of negation |
| Matching.ShortAnswerNoWordFound | src/lib/grading.ts:85-98 | when no expected word occurs, a short answer is correct exactly when it is an exact match |
| Matching.ShortAnswerBlankExpected | src/lib/grading.ts:85-98 | a blank short-answer correct answer accepts every answer |
| Matching.MultipleChoiceStricter | src/lib/grading.ts:80-98 | whatever the multiple-choice rule accepts, the short-answer rule accepts |
| Matching.VerdictIgnoresPadding | src/lib/grading.ts:78-86 | whitespace around either answer does not change the verdict |
| Matching.VerdictIgnoresCase | src/lib/grading.ts:78-86 | letter case in either answer does not change the verdict |
| Matching.VerdictOnNormalForms | src/lib/grading.ts:78-86 | grading the normal forms gives the same verdict as grading the raw answers |
| Grading.ResponseMap | src/lib/grading.ts:37-39 | the lookup has no more entries than there are responses |
| Grading.ResponseMapKeys | src/lib/grading.ts:37-39 | the lookup has an entry exactly for the ids some response carries |
| Grading.LastResponseWins | src/lib/grading.ts:37-39 | the lookup holds, for each id, the answer of the last response carrying it |
| Grading.ResponseMapWithout | src/lib/grading.ts:37-39 | removing a response changes the lookup at that response's id only |
| Grading.AnswerFor | src/lib/grading.ts:42 | the falsy default: the answer is `""` exactly when the id has no entry or its entry is `""`, and a stored answer is never replaced |
| Grading.FeedbackFor | src/lib/grading.ts:53-60 | the pushed record carries the question's id, text, correct answer and explanation and the given answer; its verdict accepts equal normal forms and, for multiple choice, nothing else |
| Grading.FeedbackList | src/lib/grading.ts:41-61 | one feedback record per question |
| Grading.FeedbackListAt | src/lib/grading.ts:41-61 | record `i` is the record built for question `i` and its looked-up answer |
| Grading.FeedbackListSameAnswers | src/lib/grading.ts:41-61 | the feedback depends on the lookup only through the answers it gives the questions |
| Grading.CountCorrect | src/lib/grading.ts:49-51 | the count never exceeds the number of records |
| Grading.CountCorrectIsNumberOfCorrectEntries | src/lib/grading.ts:49-51 | the count is the number of records marked correct |
| Grading.CountCorrectExtremes | src/lib/grading.ts:49-51 | the count is the number of records exactly when all are correct, and zero exactly when none is |
| Grading.RoundedPercent | src/lib/grading.ts:63-68 | NaN exactly when there are no questions; otherwise a whole percentage in 0..100 |
| Grading.RoundedPercentIsNearest | src/lib/grading.ts:63-68 | the percentage `v` satisfies `v - 0.5 <= 100 * correct / total < v + 0.5`: the nearest whole number, halves rounded up as `Math.round` does |
| Grading.RoundedPercentExtremes | src/lib/grading.ts:63-68 | all correct scores 100 and none correct scores 0 |
| Grading.Grade | src/lib/grading.ts:29-71 | `total_questions` and the feedback length both equal the number of questions |
| Grading.GradeQuiz | src/lib/grading.ts:29-71 | the loop's result is `Grade`: the count is `CountCorrect` of the feedback, and the score is the rounded percentage of that count |
| Grading.GradeFeedbackShape | src/lib/grading.ts:41-61 | record `i` carries question `i`'s id, text, correct answer and explanation, the looked-up answer, and `compareAnswers`' verdict on it |
| Grading.GradeCountsCorrectEntries | src/lib/grading.ts:49-51 | `correct_answers` is the number of feedback records marked correct, at most the number of questions |
| Grading.GradeScoreRange | src/lib/grading.ts:63-68 | the score is NaN exactly for an empty quiz, and lies in 0..100 otherwise |
| Grading.GradeScoreExtremes | src/lib/grading.ts:63-68 | the score is 100 when every record is correct and 0 when none is |
| Grading.GradeUsesLastResponse | src/lib/grading.ts:37-42 | a question is graded against the last response carrying its id |
| Grading.GradeMissingResponse | src/lib/grading.ts:42 | a question with no response is graded against `""` |
| Grading.GradeIgnoresUnknownResponse | src/lib/grading.ts:37-42 | a response whose id matches no question has no effect on the result |
| Scenarios.MultipleChoicePaddedLowerCase | src/lib/grading.ts:80-81 | `" paris "` is correct against `"Paris"` |
| Scenarios.MultipleChoiceAccent | src/lib/grading.ts:80-81 | `"parís"` is wrong against `"Paris"`, because there is no accent folding |
| Scenarios.ShortAnswerTwoOfThree | src/lib/grading.ts:85-98 | 2 of the 3 words of `"mitochondria produces energy"` found is wrong |
| Scenarios.ShortAnswerThreeOfThree | src/lib/grading.ts:85-98 | 3 of 3 words found is correct |
| Scenarios.DuplicateResponsesLastWins | src/lib/grading.ts:37-42 | with answers `"A"` then `"B"` for one question, `"B"` is graded |
| Scenarios.MissingAnswerIsWrong | src/lib/grading.ts:42 | an unanswered multiple-choice question is graded against `""`, is wrong, and scores 0 |
| Scenarios.NoQuestionsNaN | src/lib/grading.ts:63-68 | an empty quiz has no feedback and the score NaN |

## Left out

- `sendGradeEmail` (src/lib/grading.ts:101-110) only writes a line to the console. It stands in for an email service and is console I/O, so it is not modelled.
- Grading.RoundedPercent: the source computes `Math.round((correct / total) * 100)` in IEEE doubles. The model rounds `100 * correct / total` exactly, halves up, as `(200 * correct + total) / (2 * total)`. The two differ where the double product falls just below a .5 boundary: 23 of 40 gives 57.49999999999999 in doubles, so the source scores 57 and the model 58.
- Matching.MeetsThreshold: the source compares the double `matched / total` with the double `0.7`. The model compares `10 * matched` with `7 * total` exactly. Floating-point rounding of the quotient is not modelled.
- Text.ToLower: only ASCII letters are lowered. JavaScript's `toLowerCase()` also lowers other Unicode letters, some of them into longer strings, and that is not modelled.
- Text.IsSpace lists the ECMAScript WhiteSpace and LineTerminator code points, which `trim()` and `\s` share. Strings are sequences of Unicode scalar values, not UTF-16 code units: lone surrogates are not modelled.
- `type` is modelled as the two variants `MultipleChoice` and `ShortAnswer`. `ShortAnswer` stands for every value other than `'multiple-choice'`, since the code sends all such values down the lenient path.
- `src/lib/ai.ts`, `src/lib/db.ts`, `src/lib/video.ts`, the API routes, the pages and layouts, and `src/types.ts` are not part of this model. They are network calls, storage, browser media, UI, and type declarations only.
