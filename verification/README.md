# Trivia quiz: session stepping and scoring

A Dafny model of the logic inside a small React trivia app. The app fetches five
multiple-choice questions, shows them one at a time, and records the chosen answers.
It then hands the questions and answers to a results page. That page prints the score
and reviews each question. The richer of the two results pages also shows a rounded
percentage, a four-tier message and colour, and a high score kept in browser storage.

Modules:

- `Wrappers`: `Option`. An absent JavaScript value is `None`: `undefined`, an array hole, or the `null` that storage returns for a missing key.
- `Helpers`: the option shuffler. Its random choices become an explicit list of swaps.
- `Quiz`: the quiz page. It covers formatting fetched questions and the state
  `(questions, currentIndex, answers, loading)`. It also covers the fetch callbacks,
  `handleAnswer`, `nextQuestion`, the enabled-button guard, the button label and the
  rendered screen. A dispatcher `Step` delivers only the events the rendered page can
  produce, and `Run` feeds a whole event sequence to it.
- `Scoring`: the score reduction that both results pages share. It also holds the default
  payload used when navigation carried none.
- `Results`: the plain results page, `quiz-app/src/pages/Results.jsx`.
- `HighScore`: the high-score effect of `src/pages/Results.jsx`, modelled as a step
  function over `(in-memory value, stored value)`. It also holds the reset button, and
  the evidently intended effect next to the one as written.
- `Report`: the rest of `src/pages/Results.jsx`. That is the percentage, the message and
  colour tiers, the review rows, and the empty-results state.

Points of JavaScript semantics the model keeps:

- The answers array is a `seq<Option<string>>`. Writing past its end pads it with holes.
  Reading past its end gives `None`.
- The "Next"/"Finish" guard is JavaScript truthiness, so an empty-string answer leaves
  the button disabled. It is also shown as "Not answered".
- `answers[i] === q.correct` is false for a missing answer.
- `NaN` comparisons are false, so a `NaN` percentage falls into the lowest tier.
- Percentage rounding is exact: the nearest integer to `100 * score / total`, with halves
  rounded up. "100% exactly when every answer is correct" holds for fewer than 200
  questions. From 200 questions on, `total - 1` correct answers also round to 100%.

Behaviour of `quiz-app/src/pages/Quiz.jsx` and `src/pages/Results.jsx` the model keeps:

- A failed fetch ends loading and leaves the question list empty. The page then shows "No questions available".
- `handleAnswer` records any string it is given. Only the option buttons call it, so `Step`
  accepts only the options of the question on screen.
- The high-score effect compares the score with the in-memory value, not with the stored
  one (see Findings).

## Model

| member | source | states |
|---|---|---|
| Helpers.Shuffle | quiz-app/src/utils/helpers.js:9-11 | The shuffled options have the same length and the same multiset of elements as the input. |
| Helpers.ShuffleKeepsElements | quiz-app/src/utils/helpers.js:9-11 | An element is in the shuffled sequence exactly when it was in the input. |
| Helpers.EveryPermutationIsAShuffle | quiz-app/src/utils/helpers.js:9-11 | Every rearrangement of the input is the result of some list of swaps, so the swap model leaves no outcome of the sort out. |
| Quiz.Format | quiz-app/src/pages/Quiz.jsx:18-25 | A formatted question holds its decoded correct answer among its options. It has one option more than it has incorrect answers. Its options are, as a multiset, the decoded incorrect answers plus the decoded correct answer. |
| Quiz.FormatAll | quiz-app/src/pages/Quiz.jsx:18-26 | One formatted question per fetched record, in order, and every one well-formed. |
| Quiz.Record | quiz-app/src/pages/Quiz.jsx:34-35 | After the write, the slot at the index holds the answer and every other slot reads as before. Writing past the end grows the array to index + 1. |
| Quiz.RecordTwice | quiz-app/src/pages/Quiz.jsx:33-37 | Recording twice at one index equals recording only the second answer. |
| Quiz.FetchSucceeded | quiz-app/src/pages/Quiz.jsx:26-27 | A successful fetch installs the questions and ends loading. It leaves the index and the answers alone. |
| Quiz.FetchFailed | quiz-app/src/pages/Quiz.jsx:29 | A failed fetch ends loading and changes nothing else. |
| Quiz.View | quiz-app/src/pages/Quiz.jsx:48-68 | The loading screen shows exactly while loading. "No questions available" shows exactly when loading is over with no questions. Otherwise the screen shows the prompt, options and recorded answer of question currentIndex. The label is "Finish" exactly on the last question, and the button is enabled exactly when the recorded answer is truthy. |
| Quiz.HandleAnswer | quiz-app/src/pages/Quiz.jsx:33-37 | The current index now holds the answer. Every other index, the questions, the index and the loading flag are unchanged. |
| Quiz.NextQuestion | quiz-app/src/pages/Quiz.jsx:40-46 | Below the last index, the index grows by exactly one and nothing else changes. On the last index, the exact current questions and answers are handed off. |
| Quiz.FinishLabelIffHandoff | quiz-app/src/pages/Quiz.jsx:41-67 | The button reads "Finish" exactly when pressing it takes the handoff branch. |
| Quiz.Step | quiz-app/src/pages/Quiz.jsx:53-68 | The loading and empty screens react to nothing. On the question screen, clicking an option of the current question runs `handleAnswer` with it, and any other string changes nothing. Pressing the enabled button runs `nextQuestion`, and pressing the disabled one changes nothing. |
| Quiz.AnswerThenNextProgresses | quiz-app/src/pages/Quiz.jsx:33-46 | During a session, picking a non-empty option and then pressing the button moves to the next question, or hands off on the last one. |
| Quiz.FetchStartsSession | quiz-app/src/pages/Quiz.jsx:7-27 | A successful fetch of at least one question, starting from the initial state, shows question 0 with the session invariant in force. |
| Quiz.FailedFetchNeverShowsQuestions | quiz-app/src/pages/Quiz.jsx:29-49 | After a failed or empty fetch the page shows "No questions available" and no event changes the state. |
| Quiz.StepKeepsInv | quiz-app/src/pages/Quiz.jsx:33-64 | One event keeps the index in range and every answer an option of its question. The index moves forward by at most one. A handoff happens only on the last index, and then every question holds a truthy answer. |
| Quiz.RunKeepsInv | quiz-app/src/pages/Quiz.jsx:33-64 | Any event sequence either keeps a session in progress over the same questions with an index that never decreases, or hands off one complete payload. |
| Quiz.CompleteAnswersEveryIndex | quiz-app/src/pages/Quiz.jsx:44-64 | A handed-off complete payload holds exactly one answer slot per question. |
| Scoring.Received | quiz-app/src/pages/Results.jsx:6 | Missing navigation state reads as empty questions and empty answers. |
| Scoring.Score | quiz-app/src/pages/Results.jsx:8-11 | The score lies between 0 and the number of questions. |
| Scoring.ScoreCountsCorrectIndices | src/pages/Results.jsx:11-14 | The score equals the number of indices below the question count whose answer is the correct one. |
| Scoring.UnansweredNeverScores | quiz-app/src/pages/Results.jsx:9 | Unanswered indices are never correct indices. The score plus the number of unanswered questions is at most the question count. |
| Scoring.PerfectScoreIffAllCorrect | src/pages/Results.jsx:11-14 | The score equals the question count exactly when every answer is correct. |
| Scoring.ScoreReadsOnlyQuestionSlots | quiz-app/src/pages/Results.jsx:8 | Two answer arrays that agree on the first question-count slots give the same score. Entries past the questions are ignored. |
| Scoring.MissingPayloadScoresZero | quiz-app/src/pages/Results.jsx:6-16 | Without navigation state the page scores 0 out of 0. |
| Scoring.FlagsCountScore | quiz-app/src/pages/Results.jsx:19-22 | Per-question flags that are set exactly on the correct indices count up to the score. |
| Scoring.ShownAnswer | quiz-app/src/pages/Results.jsx:23 | A truthy answer is shown as itself. Anything else is shown as "Not answered". |
| Results.Render | quiz-app/src/pages/Results.jsx:6-27 | The printed score is the score of the received payload, over one card per question, and the page is 0/0 with no cards without state. Card i is built from question i and answer slot i: it is green exactly when the answer is correct, shows the correct answer, and reads "Not answered" when there is no answer. |
| Results.GreenCardsCountScore | quiz-app/src/pages/Results.jsx:8-22 | The green cards number exactly the printed score. |
| Results.UnansweredCard | quiz-app/src/pages/Results.jsx:22-25 | On the page, an unanswered question reads "Not answered", its card is not green, and its correct answer is still shown. |
| HighScore.Mounted | src/pages/Results.jsx:9 | At mount the in-memory high score is 0 and the store is as found. |
| HighScore.Effect | src/pages/Results.jsx:18-28 | When the score beats the in-memory value, both the in-memory value and the store become the score. Otherwise the store is untouched and the in-memory value becomes the stored one, if there is one. |
| HighScore.Reset | src/pages/Results.jsx:183-186 | Reset clears the store and sets the in-memory value to 0. |
| HighScore.EffectSettlesWhenAgreeing | src/pages/Results.jsx:18-28 | From a state where the in-memory and stored values agree, one run keeps them agreeing and a second run changes nothing. |
| HighScore.MountSettlesInOneRun | src/pages/Results.jsx:9-28 | From mount, one run reaches a fixed point. Any positive score becomes both values, whatever was stored. A zero score keeps the store. |
| HighScore.ResetThenEffect | src/pages/Results.jsx:183-186 | After a reset, the next run stores the score when it is positive. Otherwise it leaves an empty store and 0. |
| HighScore.LowerScoreOverwritesStoredBest | src/pages/Results.jsx:19-27 | As written, a positive score below the stored best replaces it, and the best is lost. |
| HighScore.IntendedEffect | src/pages/Results.jsx:18-28 | Corrected effect: the stored best never decreases and is at least the score. The in-memory value is the larger of the stored best (0 when nothing is stored) and the score. Afterwards the store, read as 0 when empty, equals the in-memory value. The store changes only to the score. |
| HighScore.IntendedMountSettles | src/pages/Results.jsx:18-28 | The corrected effect settles after one run from mount. The store then holds the larger of the old best (0 when nothing was stored) and the new score. A first positive score is stored. |
| Report.Percentage | src/pages/Results.jsx:16 | NaN exactly when there are no questions. Otherwise it is the nearest integer to 100·score/total with halves rounded up, and it lies in 0..100. |
| Report.FullMarksIffAllCorrect | src/pages/Results.jsx:16 | All answers correct gives 100. Below 200 questions, 100 also implies all correct. |
| Report.NearlyFullRoundsUp | src/pages/Results.jsx:16 | 199 of 200 rounds up to 100. |
| Report.ScoreMessage | src/pages/Results.jsx:30-35 | Exactly one of the four messages: "Excellent" exactly at 80 or more, "Good job" exactly at 60 to 79, "Not bad" exactly at 40 to 59, and "Keep practicing" exactly below 40 or for NaN. |
| Report.ScoreColorClass | src/pages/Results.jsx:37-42 | Green exactly at 80 or more, blue exactly at 60 to 79, yellow exactly at 40 to 59, and red exactly below 40 or for NaN. `getScoreColor` is defined but never called, so the page does not show this class. |
| Report.ScoreInlineColor | src/pages/Results.jsx:104-106 | `#10B981` exactly at 80 or more, `#6366F1` exactly at 60 to 79, `#F59E0B` exactly at 40 to 59, and `#F43F5E` exactly below 40 or for NaN. |
| Report.TiersAgree | src/pages/Results.jsx:30-42 | Two percentages get the same message exactly when they fall in the same tier. The same holds for the colour class and for the inline colour, so message and colours always agree. |
| Report.TierMonotone | src/pages/Results.jsx:30-35 | A higher percentage never falls into a worse tier. |
| Report.FiveQuestionTiers | src/pages/Results.jsx:16-35 | With five questions, 4 or 5 correct is the top tier, 3 the second, 2 the third, and fewer the last. |
| Report.ReviewRowFor | src/pages/Results.jsx:146-163 | A tick appears exactly when the answer matches. A cross appears exactly when a truthy answer does not match, and never together with a tick. The correct answer is shown exactly when the answer does not match. |
| Report.Review | src/pages/Results.jsx:131-166 | One review row per question, each built from that question and its answer slot. |
| Report.ReviewTicksCountScore | src/pages/Results.jsx:146-152 | The ticks in the review number exactly the score. |
| Report.Render | src/pages/Results.jsx:44-124 | "No Results Found" exactly when there are no questions. Otherwise the summary shows the payload's score over the total, and the percentage of that score, which lies in 0..100. The message and the inline colour are those of that percentage. It also shows the in-memory high score and one review row per question. |
| Report.SummaryTiersAgree | src/pages/Results.jsx:101-120 | On the summary, the message is "Excellent" exactly when the inline colour is green (#10B981). It is "Keep practicing" exactly when the inline colour is red. |

## Findings

| source | as written | input that shows it | evidently intended | confidence | as-written member | corrected member |
|---|---|---|---|---|---|---|
| src/pages/Results.jsx:24 | The score is compared with the in-memory high score. That value is 0 at mount, and the stored value read at line 19 does not reach it before the comparison. | Stored high score 5, new score 3: the store ends up holding 3. | Store the score only when it beats the stored best. | high; not executed | HighScore.LowerScoreOverwritesStoredBest | HighScore.IntendedEffect |

## Left out

- The entity decoding (`decodeHTML`) uses the browser's DOM. It is a function parameter `decode`, assumed deterministic.
- Helpers.Shuffle: the random order is an explicit list of swaps, and `Helpers.EveryPermutationIsAShuffle` shows every rearrangement is reachable. No claim is made about how likely each order is.
- Network fetch and JSON parsing are not modelled. The callbacks take their outcome: `FetchSucceeded` with the formatted list, or `FetchFailed` for a network error, a parse error, or a response without `results`.
- Browser storage holds text. The store is modelled as `Option<nat>`, because its only writer stores `score.toString()`. Text put there by other means, and `parseInt` edge cases such as NaN, are not modelled.
- Report.Percentage: uses exact rational rounding instead of the floating-point `Math.round((score / total) * 100)`. The two can differ at exact halves that binary floating point cannot represent.
- React scheduling is reduced to explicit steps. The two state updates inside one effect run are applied last-write-wins. Re-running the effect when `highScore` changes is expressed by the settling lemmas, not by a scheduler.
- Quiz.View: requires the index to be in range while questions are shown. Out of range, the source would throw when it reads `questions[currentIndex]`. `Quiz.Inv` rules this out for every reachable state.
- `getScoreColor` (src/pages/Results.jsx:37-42) has no caller, so the summary page carries no colour class. It is modelled as `Report.ScoreColorClass` on its own.
- Routing (`App.jsx`), navigation, animations, styling and `ProgressBar.jsx` are presentational and are left out.
- The root `src/pages/Quiz.jsx` is not modelled.
