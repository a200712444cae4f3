# Quiz state machine of the QuestionBox component

This project models the logic of the `QuestionBox` React component of a
client-side multiple-choice quiz. The component holds two pieces of state.

- The theme flag, owned by `darkModeReducer`. It is `true` (dark) at first,
  and `TOGGLE_THEME` flips it.
- The quiz state, owned by `quizReducer`. It holds the current question
  index, the `answers` array (one entry per question, `null` at first), the
  `showResult` flag and the `isHighlighted` flag.

A click on an option runs `handleAnswerSelect`. It dispatches `SELECT_ANSWER`
at the current index. On the last question it then dispatches `SHOW_RESULT`;
before that it dispatches `NEXT_QUESTION`. `calculateScore` folds over the
answers and counts the questions whose recorded answer is strictly equal to
the position `findIndex` gives for the question's correct option.

Modules:

- `Actions` (actions.dfy): the action record. It has a `kind` tag with the
  source's own tag strings, plus the `index`/`answer` payload that only
  `SELECT_ANSWER` reads.
- `Theme` (theme.dfy): `darkModeReducer` and the initial theme.
- `Quiz` (quiz.dfy): the state, the initial state, the array write
  `updatedAnswers[index] = answer`, and `quizReducer`. These are pure
  functions, with a lemma per transition.
- `Scoring` (scoring.dfy): `findIndex`, the `calculateScore` fold, and the
  result screen's percentage.
- `Session` (session.dfy): `handleAnswerSelect` as a pure step (`AnswerStep`)
  and over whole runs of picks (`Run`), with the closed form of a run. It
  also holds the class `QuestionBox`. The class keeps the state that the
  component's reducers hold, and its methods update it the way the
  dispatches do.

The question data set is a parameter: a sequence of questions, each with
options that carry an integer `id` and an `isCorrect` flag. The class
constructor requires at least one question, because with an empty set the
component reads `currentQuestion.text` of an undefined question.

Three behaviours of the code are worth knowing; the model follows the code:

- The score compares the stored option id with the correct option's POSITION,
  not its id. The two agree when ids equal positions
  (`Scoring.ScoreAgreesWhenIdsArePositions`). They disagree otherwise
  (`Scoring.PositionScoringMissesCorrectId`). `Scoring.ScoreById` is the
  comparison by id, kept as a reference only.
- A pick after completion is not a no-op. It overwrites the last answer and
  dispatches `SHOW_RESULT` again; the index stays at the last question
  (`Session.RunFromStart`). The component itself never takes this path,
  because once the result flag is set it shows the result screen and no
  options; the model is more general than the screen here.
- A question with no correct option makes `findIndex` return -1. An answer
  with id -1 then scores for it.

## Model

| member | source | states |
|---|---|---|
| Theme.InitialThemeIsDark | src/components/QuestionBox.js:43 | the theme reducer starts from `true` (dark), and the first toggle switches to light |
| Quiz.InitialState | src/components/QuestionBox.js:44-49 | the quiz starts at index 0 with N unanswered (null) entries and both flags false |
| Theme.DarkModeReducer | src/components/QuestionBox.js:14-21 | the flag changes exactly when the action is TOGGLE_THEME; any other action leaves it as it is |
| Theme.ToggleTwiceRestores | src/components/QuestionBox.js:14-17 | toggling the theme twice gives back the original flag |
| Theme.OtherActionsKeepTheme | src/components/QuestionBox.js:18-19 | an action other than TOGGLE_THEME returns the theme unchanged |
| Theme.DarkAfterEvenToggles | src/components/QuestionBox.js:43 | starting from the initial dark theme, the page is dark exactly after an even number of toggles |
| Quiz.WriteAnswer | src/components/QuestionBox.js:26-27 | the copied array holds the option id at the index and keeps every other entry; a write past the end grows the array and leaves unanswered holes; a negative index adds no element |
| Quiz.QuizReducer | src/components/QuestionBox.js:23-40 | for every action, the index never decreases, a raised result flag stays raised, and the answers array never shrinks |
| Quiz.SelectAnswerRecords | src/components/QuestionBox.js:25-28 | SELECT_ANSWER at an index inside the array sets that entry to the option id; the length, every other entry, the index and both flags are unchanged |
| Quiz.NextQuestionAdvances | src/components/QuestionBox.js:29-30 | NEXT_QUESTION adds exactly 1 to the index, from any state, with no upper bound, and changes nothing else |
| Quiz.ShowResultIsIdempotent | src/components/QuestionBox.js:31-32 | SHOW_RESULT raises the result flag and changes nothing else; a second SHOW_RESULT changes nothing |
| Quiz.HighlightTouchesOnlyTheFlag | src/components/QuestionBox.js:33-36 | HIGHLIGHT and REMOVE_HIGHLIGHT set the highlight flag to true and false, touch nothing else, and are idempotent; HIGHLIGHT then REMOVE_HIGHLIGHT keeps index, answers and result flag |
| Quiz.UnknownActionIgnored | src/components/QuestionBox.js:37-38 | an action with an unknown tag returns the state unchanged |
| Quiz.ReduceIsMonotone | src/components/QuestionBox.js:23-40 | over any sequence of dispatched actions, the index never decreases and the result flag never returns to false |
| Scoring.CorrectIndex | src/components/QuestionBox.js:81-83 | the result is -1 exactly when no option is correct; otherwise it is the position of the first correct option |
| Scoring.Score | src/components/QuestionBox.js:79-86 | the score lies between 0 and the number of answers |
| Scoring.ScoreCountsHits | src/components/QuestionBox.js:80-85 | the score is the number of positions whose answer equals the position of that question's correct option |
| Scoring.ScoreZeroIffNoHit | src/components/QuestionBox.js:80-85 | the score is 0 if and only if no answer matches its correct position |
| Scoring.ScoreFullIffAllHit | src/components/QuestionBox.js:80-85 | the score equals the number of answers if and only if every answer matches its correct position |
| Scoring.UnansweredScoresZero | src/components/QuestionBox.js:44-49 | an answers array with nothing recorded, such as the initial all-null one, scores 0 |
| Scoring.CorrectPositionsScoreFull | src/components/QuestionBox.js:79-86 | recording the correct option's position for every question scores one point per question |
| Scoring.ScoreAgreesWhenIdsArePositions | src/components/QuestionBox.js:123-125 | when every option id is its position and each question has a correct option, scoring the stored ids by position equals scoring them by id |
| Scoring.PositionScoringMissesCorrectId | src/components/QuestionBox.js:125 | with 1-based option ids, picking the correct option scores 0 by position but 1 by id |
| Scoring.Percentage | src/components/Result.jsx:11 | a zero total gives no finite percentage; otherwise the result is the whole number nearest to 100 * score / total, rounding a tie up |
| Scoring.PercentageWithinBounds | src/components/Result.jsx:11 | a score between 0 and a positive total gives a percentage between 0 and 100 |
| Scoring.PercentageExtremes | src/components/Result.jsx:11 | a full score is 100 percent and a zero score is 0 percent |
| Scoring.ThreeQuestionExample | src/components/QuestionBox.js:79-86 | three questions with correct positions 0, 1, 2 answered 0, 2, 2 score 2, which is 67 percent |
| Session.AnswerStep | src/components/QuestionBox.js:61-75 | one pick records the option id at the current index; it shows the result exactly on the last question and otherwise advances by one; it keeps the index in range and the answers length at the question count |
| Session.RunFromStart | src/components/QuestionBox.js:61-75 | from the initial state, after m picks the index is min(m, N-1); the result shows exactly when m >= N; every answer is the pick made while its question was current |
| Session.RunIndexMonotone | src/components/QuestionBox.js:61-75 | along a run of picks the index never decreases and stays in [0, N) |
| Session.CompletedRunRecordsEveryPick | src/components/QuestionBox.js:61-75 | after exactly N picks the result shows and the answers array is the picks, in order |
| Session.CorrectPicksScoreFull | src/components/QuestionBox.js:79-86 | picking each question's correct position from the start completes the quiz with score N |
| Session.QuestionBox.constructor | src/components/QuestionBox.js:43-49 | a new component holds the initial quiz state (index 0, all answers null, both flags false) and the dark theme |
| Session.QuestionBox.ToggleTheme | src/components/QuestionBox.js:57-59 | the theme flag becomes the reducer's result for TOGGLE_THEME, i.e. its negation |
| Session.QuestionBox.Dispatch | src/components/QuestionBox.js:44-49 | the held quiz state becomes the reducer's result for the action |
| Session.QuestionBox.HandleAnswerSelect | src/components/QuestionBox.js:61-75 | the state becomes one AnswerStep of the old state; the index bound and answers length invariant is kept; the state stays the run of all picks so far |
| Session.QuestionBox.Highlight | src/components/QuestionBox.js:133-138 | the Highlight button sets only the highlight flag and keeps the invariant |
| Session.QuestionBox.RemoveHighlight | src/components/QuestionBox.js:139-144 | the Remove Highlight button clears only the highlight flag and keeps the invariant |
| Session.QuestionBox.CalculateScore | src/components/QuestionBox.js:79-86 | the score of the held answers lies in [0, N] and is the number of questions answered with the correct position |

## Left out

- Rendering: the JSX markup and the radio inputs' `checked` display. This is presentation only.
- The injected `<style>` blocks of both components. They are static CSS text.
- The `document.body.className` effects. They are DOM side effects.
- React's hook machinery (`useCallback`, `useMemo`, `useRef`, the theme context). The reducers are plain functions and the held state is a class field. The two dispatches of a pick are applied in order, which is how React applies queued reducer actions.
- Restarting the quiz reloads the page. Its logical effect is a new component in the initial state, which is what `Session.QuestionBox.constructor` gives.
- `src/App.jsx` is wiring only. Its `onQuizComplete` and `setTotalQuestions` props are never read by the component.
- The question data file is not part of this model. It is a parameter, and the question and option display texts are not modelled.
- Scoring.Percentage: computed on exact rationals rather than in floating point. Floating-point error near a .5 tie is not modelled. A zero total yields NaN or Infinity, which are not told apart.
- Quiz.WriteAnswer: array indices from 2^32 - 1 upward, which JavaScript stores as plain properties, are not modelled; the component only writes indices below the question count.
- Session.QuestionBox.HandleAnswerSelect: reads the index held at the moment of the call. The component's handler reads the index captured at its last render (the `useCallback` dependency on the index). The two agree because React re-renders between two separate click events; batching of clicks within one render is not modelled.
- JavaScript numbers are modelled as unbounded integers. The loss of precision from 2^53 upward is not modelled. The index never gets there, because it stays below the question count.
- Option ids are modelled as integers. The component compares them with `===` against a number, so an id of any other type never scores.
