/** Action objects handed to the two reducers of the QuestionBox component.
    An action is a record whose `type` tag selects the transition; only
    SELECT_ANSWER reads the `index` and `answer` payload. */
module Actions {

  datatype Action = Action(kind: string, index: int, answer: int)

  const TOGGLE_THEME: string := "TOGGLE_THEME"
  const SELECT_ANSWER: string := "SELECT_ANSWER"
  const NEXT_QUESTION: string := "NEXT_QUESTION"
  const SHOW_RESULT: string := "SHOW_RESULT"
  const HIGHLIGHT: string := "HIGHLIGHT"
  const REMOVE_HIGHLIGHT: string := "REMOVE_HIGHLIGHT"

  /** An action that carries only its tag (the payload is never read). */
  function Plain(kind: string): Action
  {
    Action(kind, 0, 0)
  }

  /** `{ type: 'SELECT_ANSWER', index, answer }` */
  function SelectAnswer(index: int, answer: int): Action
  {
    Action(SELECT_ANSWER, index, answer)
  }

  /** The tags the quiz reducer has a case for. */
  predicate IsQuizKind(kind: string)
  {
    kind == SELECT_ANSWER || kind == NEXT_QUESTION || kind == SHOW_RESULT ||
    kind == HIGHLIGHT || kind == REMOVE_HIGHLIGHT
  }
}
