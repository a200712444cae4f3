/** The quiz state of the QuestionBox component and quizReducer, its
    transition function. */
module Quiz {
  import opened Actions

  /** One option of a question; its display text is not modelled. */
  datatype AnswerOption = AnswerOption(id: int, isCorrect: bool)

  /** One question of the static question set; its text is not modelled. */
  datatype Question = Question(options: seq<AnswerOption>)

  /** An entry of the answers array. Unanswered stands for `null` and also
      for the `undefined` holes a write past the end leaves behind: neither
      is strictly equal to any number. */
  datatype Answer = Unanswered | Chosen(id: int)

  datatype QuizState = QuizState(
    currentQuestionIndex: int,
    answers: seq<Answer>,
    showResult: bool,
    isHighlighted: bool)

  /** The state the reducer starts from for a set of `n` questions. */
  function InitialState(n: nat): (s: QuizState)
    ensures s.currentQuestionIndex == 0 && !s.showResult && !s.isHighlighted
    ensures |s.answers| == n && forall i :: 0 <= i < n ==> s.answers[i] == Unanswered
  {
    QuizState(0, seq(n, _ => Unanswered), false, false)
  }

  /** `updatedAnswers[i] = id` on a copy of the array, with JavaScript's
      array semantics: a negative index adds no element, an index at or
      past the end grows the array and leaves holes in between. */
  function WriteAnswer(answers: seq<Answer>, i: int, id: int): (r: seq<Answer>)
    ensures i < 0 ==> r == answers
    ensures 0 <= i ==> |r| == if i < |answers| then |answers| else i + 1
    ensures 0 <= i ==> r[i] == Chosen(id)
    ensures forall j :: 0 <= j < |r| && j != i ==>
              r[j] == if j < |answers| then answers[j] else Unanswered
  {
    if i < 0 then answers
    else if i < |answers| then answers[i := Chosen(id)]
    else answers + seq(i - |answers|, _ => Unanswered) + [Chosen(id)]
  }

  /** quizReducer. The index only grows, the result flag is never cleared
      and the answers array never shrinks, whatever the action. */
  function QuizReducer(s: QuizState, a: Action): (r: QuizState)
    ensures r.currentQuestionIndex >= s.currentQuestionIndex
    ensures s.showResult ==> r.showResult
    ensures |r.answers| >= |s.answers|
  {
    if a.kind == SELECT_ANSWER then s.(answers := WriteAnswer(s.answers, a.index, a.answer))
    else if a.kind == NEXT_QUESTION then s.(currentQuestionIndex := s.currentQuestionIndex + 1)
    else if a.kind == SHOW_RESULT then s.(showResult := true)
    else if a.kind == HIGHLIGHT then s.(isHighlighted := true)
    else if a.kind == REMOVE_HIGHLIGHT then s.(isHighlighted := false)
    else s
  }

  /** The state after dispatching `actions` in order. */
  function Reduce(s: QuizState, actions: seq<Action>): QuizState
    decreases |actions|
  {
    if actions == [] then s else Reduce(QuizReducer(s, actions[0]), actions[1..])
  }

  /** SELECT_ANSWER at an index inside the array records the option id
      there and changes nothing else. */
  lemma SelectAnswerRecords(s: QuizState, i: int, id: int)
    requires 0 <= i < |s.answers|
    ensures var r := QuizReducer(s, SelectAnswer(i, id));
      |r.answers| == |s.answers| &&
      r.answers[i] == Chosen(id) &&
      (forall j :: 0 <= j < |s.answers| && j != i ==> r.answers[j] == s.answers[j]) &&
      r.currentQuestionIndex == s.currentQuestionIndex &&
      r.showResult == s.showResult && r.isHighlighted == s.isHighlighted
  {
  }

  /** NEXT_QUESTION moves on by exactly one, with no upper bound. */
  lemma NextQuestionAdvances(s: QuizState)
    ensures QuizReducer(s, Plain(NEXT_QUESTION)) ==
            s.(currentQuestionIndex := s.currentQuestionIndex + 1)
  {
  }

  /** SHOW_RESULT raises the result flag, touches nothing else, and a
      second one changes nothing. */
  lemma ShowResultIsIdempotent(s: QuizState)
    ensures var r := QuizReducer(s, Plain(SHOW_RESULT));
      r.showResult && r == s.(showResult := true) &&
      QuizReducer(r, Plain(SHOW_RESULT)) == r
  {
  }

  /** HIGHLIGHT and REMOVE_HIGHLIGHT set the highlight flag and nothing
      else; each is idempotent, and HIGHLIGHT followed by REMOVE_HIGHLIGHT
      leaves index, answers and result flag as they were. */
  lemma HighlightTouchesOnlyTheFlag(s: QuizState)
    ensures var on := QuizReducer(s, Plain(HIGHLIGHT));
      on == s.(isHighlighted := true) && QuizReducer(on, Plain(HIGHLIGHT)) == on
    ensures var off := QuizReducer(s, Plain(REMOVE_HIGHLIGHT));
      off == s.(isHighlighted := false) && QuizReducer(off, Plain(REMOVE_HIGHLIGHT)) == off
    ensures var r := QuizReducer(QuizReducer(s, Plain(HIGHLIGHT)), Plain(REMOVE_HIGHLIGHT));
      r.currentQuestionIndex == s.currentQuestionIndex && r.answers == s.answers &&
      r.showResult == s.showResult && !r.isHighlighted
  {
  }

  /** An action with a tag the reducer does not know returns the state as it is. */
  lemma UnknownActionIgnored(s: QuizState, a: Action)
    requires !IsQuizKind(a.kind)
    ensures QuizReducer(s, a) == s
  {
  }

  /** Over any run of dispatched actions the index never decreases and a
      raised result flag is never lowered again. */
  lemma {:induction false} ReduceIsMonotone(s: QuizState, actions: seq<Action>)
    ensures Reduce(s, actions).currentQuestionIndex >= s.currentQuestionIndex
    ensures s.showResult ==> Reduce(s, actions).showResult
    decreases |actions|
  {
    if actions != [] {
      ReduceIsMonotone(QuizReducer(s, actions[0]), actions[1..]);
    }
  }
}
