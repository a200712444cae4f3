/** The QuestionBox component as a whole: the state its two reducers hold,
    and handleAnswerSelect, the step a click on an option performs. */
module Session {
  import opened Actions
  import opened Quiz
  import opened Scoring
  import Theme

  /** handleAnswerSelect on a state value: record the option id at the
      current index, then show the result if that was the last of `n`
      questions and move to the next question otherwise. Both decisions
      read the index as it was before the step. */
  function AnswerStep(s: QuizState, n: nat, optionId: int): (r: QuizState)
    ensures r.currentQuestionIndex ==
            if s.currentQuestionIndex == n - 1 then s.currentQuestionIndex else s.currentQuestionIndex + 1
    ensures r.showResult <==> s.showResult || s.currentQuestionIndex == n - 1
    ensures r.isHighlighted == s.isHighlighted
    ensures 0 <= s.currentQuestionIndex < |s.answers| ==>
              r.answers == s.answers[s.currentQuestionIndex := Chosen(optionId)]
    ensures 0 <= s.currentQuestionIndex < n && |s.answers| == n ==>
              0 <= r.currentQuestionIndex < n && |r.answers| == n
  {
    var selected := QuizReducer(s, SelectAnswer(s.currentQuestionIndex, optionId));
    if s.currentQuestionIndex == n - 1 then QuizReducer(selected, Plain(SHOW_RESULT))
    else QuizReducer(selected, Plain(NEXT_QUESTION))
  }

  /** The state after the user picks the options `ids`, one per step,
      starting from the initial state of `n` questions. */
  function Run(n: nat, ids: seq<int>): QuizState
    decreases |ids|
  {
    if ids == [] then InitialState(n)
    else AnswerStep(Run(n, ids[..|ids| - 1]), n, ids[|ids| - 1])
  }

  /** What the answers array holds at position k after the picks `ids`:
      every question before the last keeps the pick made while it was
      current; the last question holds the latest pick once it was reached. */
  function ExpectedAnswer(n: nat, ids: seq<int>, k: nat): Answer
    requires k < n
  {
    if k < n - 1 then (if k < |ids| then Chosen(ids[k]) else Unanswered)
    else if |ids| >= n then Chosen(ids[|ids| - 1])
    else Unanswered
  }

  /** The whole progression of a quiz of n >= 1 questions: after m picks the
      index is m while m < n and stays at n - 1 from then on, the result is
      shown exactly from the n-th pick on, and each answer is the one picked
      while its question was current. */
  lemma {:induction false} RunFromStart(n: nat, ids: seq<int>)
    requires n >= 1
    ensures Run(n, ids).currentQuestionIndex == if |ids| < n then |ids| else n - 1
    ensures Run(n, ids).showResult <==> |ids| >= n
    ensures !Run(n, ids).isHighlighted
    ensures |Run(n, ids).answers| == n
    ensures forall k :: 0 <= k < n ==> Run(n, ids).answers[k] == ExpectedAnswer(n, ids, k)
    decreases |ids|
  {
    if ids != [] {
      var m := |ids| - 1;
      var prefix := ids[..m];
      RunFromStart(n, prefix);
      var before := Run(n, prefix);
      var after := Run(n, ids);
      assert after == AnswerStep(before, n, ids[m]);
      forall k | 0 <= k < n
        ensures after.answers[k] == ExpectedAnswer(n, ids, k)
      {
        assert before.answers[k] == ExpectedAnswer(n, prefix, k);
      }
    }
  }

  /** Between any two moments of a run the index never goes back and stays
      within [0, n). */
  lemma RunIndexMonotone(n: nat, ids: seq<int>, m: nat)
    requires n >= 1 && m <= |ids|
    ensures 0 <= Run(n, ids[..m]).currentQuestionIndex <= Run(n, ids).currentQuestionIndex < n
  {
    RunFromStart(n, ids[..m]);
    RunFromStart(n, ids);
  }

  /** After exactly n picks the result is shown and the answers array is
      the picks, in order. */
  lemma CompletedRunRecordsEveryPick(n: nat, ids: seq<int>)
    requires n >= 1 && |ids| == n
    ensures Run(n, ids).showResult
    ensures Run(n, ids).answers == seq(n, k requires 0 <= k < n => Chosen(ids[k]))
  {
    RunFromStart(n, ids);
    var answers := Run(n, ids).answers;
    assert forall k :: 0 <= k < n ==> answers[k] == Chosen(ids[k]);
  }

  /** For each question, the position of its correct option. */
  function CorrectPicks(questions: seq<Question>): (ids: seq<int>)
    ensures |ids| == |questions|
  {
    seq(|questions|, k requires 0 <= k < |questions| => CorrectIndex(questions[k].options))
  }

  /** Answering every question with the position of its correct option
      finishes the quiz with a full score. */
  lemma CorrectPicksScoreFull(questions: seq<Question>)
    requires |questions| >= 1
    ensures Run(|questions|, CorrectPicks(questions)).showResult
    ensures var answers := Run(|questions|, CorrectPicks(questions)).answers;
      |answers| == |questions| && Score(questions, answers) == |questions|
  {
    var n := |questions|;
    var ids := CorrectPicks(questions);
    CompletedRunRecordsEveryPick(n, ids);
    CorrectPositionsScoreFull(questions, Run(n, ids).answers);
  }

  /** The component: the theme flag and the quiz state held by its two
      reducers, over a fixed, non-empty question set. `picks` is the
      sequence of option ids handed to handleAnswerSelect so far. */
  class QuestionBox {
    const questions: seq<Question>
    var darkMode: bool
    var state: QuizState
    ghost var picks: seq<int>

    /** The index stays within the question set, the answers array has one
        entry per question, and apart from the highlight flag the state is
        the one the picks so far lead to. */
    ghost predicate Valid()
      reads this
    {
      |questions| >= 1 &&
      0 <= state.currentQuestionIndex < |questions| &&
      |state.answers| == |questions| &&
      state.(isHighlighted := false) == Run(|questions|, picks)
    }

    constructor (questions: seq<Question>)
      requires |questions| >= 1
      ensures Valid() && this.questions == questions
      ensures state == InitialState(|questions|) && picks == []
      ensures darkMode == Theme.InitialDarkMode
    {
      this.questions := questions;
      darkMode := Theme.InitialDarkMode;
      state := InitialState(|questions|);
      picks := [];
    }

    /** toggleTheme */
    method ToggleTheme()
      modifies this`darkMode
      ensures darkMode == Theme.DarkModeReducer(old(darkMode), Plain(TOGGLE_THEME))
      ensures darkMode == !old(darkMode)
    {
      darkMode := Theme.DarkModeReducer(darkMode, Plain(TOGGLE_THEME));
    }

    /** dispatchQuiz */
    method Dispatch(a: Action)
      modifies this`state
      ensures state == QuizReducer(old(state), a)
    {
      state := QuizReducer(state, a);
    }

    /** handleAnswerSelect: dispatch SELECT_ANSWER at the current index,
        then SHOW_RESULT on the last question and NEXT_QUESTION before it. */
    method HandleAnswerSelect(optionId: int)
      requires Valid()
      modifies this`state, this`picks
      ensures Valid()
      ensures state == AnswerStep(old(state), |questions|, optionId)
      ensures picks == old(picks) + [optionId]
      ensures state.currentQuestionIndex >= old(state.currentQuestionIndex)
      ensures state.showResult <==> |picks| >= |questions|
    {
      var index := state.currentQuestionIndex;
      ghost var before := state;
      Dispatch(SelectAnswer(index, optionId));
      if index == |questions| - 1 {
        Dispatch(Plain(SHOW_RESULT));
      } else {
        Dispatch(Plain(NEXT_QUESTION));
      }
      picks := picks + [optionId];
      assert picks[..|picks| - 1] == old(picks);
      assert state.(isHighlighted := false) == AnswerStep(before.(isHighlighted := false), |questions|, optionId);
      RunFromStart(|questions|, picks);
    }

    /** The Highlight button. */
    method Highlight()
      requires Valid()
      modifies this`state
      ensures Valid()
      ensures state == old(state).(isHighlighted := true)
    {
      Dispatch(Plain(HIGHLIGHT));
    }

    /** The Remove Highlight button. */
    method RemoveHighlight()
      requires Valid()
      modifies this`state
      ensures Valid()
      ensures state == old(state).(isHighlighted := false)
    {
      Dispatch(Plain(REMOVE_HIGHLIGHT));
    }

    /** calculateScore over the answers held now. */
    function CalculateScore(): (r: int)
      reads this
      requires Valid()
      ensures 0 <= r <= |questions|
      ensures r == |Hits(questions, state.answers)|
    {
      ScoreCountsHits(questions, state.answers);
      Score(questions, state.answers)
    }
  }
}
