/** calculateScore of the QuestionBox component, and the percentage the
    result screen derives from it. */
module Scoring {
  import opened Quiz

  /** `options.findIndex(option => option.isCorrect)`: the position of the
      first correct option, or -1 when none is correct. */
  function CorrectIndex(options: seq<AnswerOption>): (r: int)
    ensures -1 <= r < |options|
    ensures r == -1 <==> forall k :: 0 <= k < |options| ==> !options[k].isCorrect
    ensures r >= 0 ==> options[r].isCorrect && forall k :: 0 <= k < r ==> !options[k].isCorrect
  {
    if |options| == 0 then -1
    else if options[0].isCorrect then 0
    else
      var rest := CorrectIndex(options[1..]);
      if rest == -1 then -1 else rest + 1
  }

  /** Question i scores: its recorded answer is strictly equal to the
      position findIndex reports. An unanswered entry never is. */
  predicate Hit(questions: seq<Question>, answers: seq<Answer>, i: int)
    requires 0 <= i < |answers| <= |questions|
  {
    answers[i] == Chosen(CorrectIndex(questions[i].options))
  }

  /** calculateScore: the `reduce` over the answers array, one point per
      hit, folded from the first entry to the last. */
  function Score(questions: seq<Question>, answers: seq<Answer>): (r: int)
    requires |answers| <= |questions|
    ensures 0 <= r <= |answers|
    decreases |answers|
  {
    if |answers| == 0 then 0
    else
      var last := |answers| - 1;
      Score(questions, answers[..last]) + (if Hit(questions, answers, last) then 1 else 0)
  }

  /** The positions that score. */
  ghost function Hits(questions: seq<Question>, answers: seq<Answer>): set<int>
    requires |answers| <= |questions|
  {
    set i | 0 <= i < |answers| && Hit(questions, answers, i)
  }

  /** The score is the number of questions whose answer hits. */
  lemma {:induction false} ScoreCountsHits(questions: seq<Question>, answers: seq<Answer>)
    requires |answers| <= |questions|
    ensures Score(questions, answers) == |Hits(questions, answers)|
    decreases |answers|
  {
    if |answers| > 0 {
      var last := |answers| - 1;
      var prefix := answers[..last];
      ScoreCountsHits(questions, prefix);
      if Hit(questions, answers, last) {
        assert Hits(questions, answers) == Hits(questions, prefix) + {last};
      } else {
        assert Hits(questions, answers) == Hits(questions, prefix);
      }
    } else {
      assert Hits(questions, answers) == {};
    }
  }

  /** The score is zero exactly when no answer hits. */
  lemma {:induction false} ScoreZeroIffNoHit(questions: seq<Question>, answers: seq<Answer>)
    requires |answers| <= |questions|
    ensures Score(questions, answers) == 0 <==>
            forall i :: 0 <= i < |answers| ==> !Hit(questions, answers, i)
    decreases |answers|
  {
    if |answers| > 0 {
      var last := |answers| - 1;
      var prefix := answers[..last];
      ScoreZeroIffNoHit(questions, prefix);
      assert forall i :: 0 <= i < last ==> Hit(questions, prefix, i) == Hit(questions, answers, i);
    }
  }

  /** The score is the number of answers exactly when every answer hits. */
  lemma {:induction false} ScoreFullIffAllHit(questions: seq<Question>, answers: seq<Answer>)
    requires |answers| <= |questions|
    ensures Score(questions, answers) == |answers| <==>
            forall i :: 0 <= i < |answers| ==> Hit(questions, answers, i)
    decreases |answers|
  {
    if |answers| > 0 {
      var last := |answers| - 1;
      var prefix := answers[..last];
      ScoreFullIffAllHit(questions, prefix);
      assert forall i :: 0 <= i < last ==> Hit(questions, prefix, i) == Hit(questions, answers, i);
    }
  }

  /** An answers array with nothing recorded, such as the initial one, scores 0. */
  lemma UnansweredScoresZero(questions: seq<Question>, answers: seq<Answer>)
    requires |answers| <= |questions|
    requires forall i :: 0 <= i < |answers| ==> answers[i] == Unanswered
    ensures Score(questions, answers) == 0
  {
    ScoreZeroIffNoHit(questions, answers);
  }

  /** Recording, for every question, the position of its correct option scores
      one point per question. */
  lemma CorrectPositionsScoreFull(questions: seq<Question>, answers: seq<Answer>)
    requires |answers| <= |questions|
    requires forall i :: 0 <= i < |answers| ==> answers[i] == Chosen(CorrectIndex(questions[i].options))
    ensures Score(questions, answers) == |answers|
  {
    ScoreFullIffAllHit(questions, answers);
  }

  /** Scoring against the correct option's id instead of its position: a
      reference for the scoring by identifier that a quiz is usually meant
      to do. A question without a correct option never scores here. */
  predicate HitById(questions: seq<Question>, answers: seq<Answer>, i: int)
    requires 0 <= i < |answers| <= |questions|
  {
    var k := CorrectIndex(questions[i].options);
    k >= 0 && answers[i] == Chosen(questions[i].options[k].id)
  }

  function ScoreById(questions: seq<Question>, answers: seq<Answer>): (r: int)
    requires |answers| <= |questions|
    ensures 0 <= r <= |answers|
    decreases |answers|
  {
    if |answers| == 0 then 0
    else
      var last := |answers| - 1;
      ScoreById(questions, answers[..last]) + (if HitById(questions, answers, last) then 1 else 0)
  }

  /** Every option's id is its position in the question's option list, and
      every question has a correct option. */
  predicate IdsArePositions(questions: seq<Question>)
  {
    forall q :: 0 <= q < |questions| ==>
      CorrectIndex(questions[q].options) >= 0 &&
      forall k :: 0 <= k < |questions[q].options| ==> questions[q].options[k].id == k
  }

  /** When ids are positions, comparing an answer with the correct option's
      position is the same as comparing it with the correct option's id. */
  lemma {:induction false} ScoreAgreesWhenIdsArePositions(questions: seq<Question>, answers: seq<Answer>)
    requires |answers| <= |questions|
    requires IdsArePositions(questions)
    ensures Score(questions, answers) == ScoreById(questions, answers)
    decreases |answers|
  {
    if |answers| > 0 {
      var last := |answers| - 1;
      ScoreAgreesWhenIdsArePositions(questions, answers[..last]);
      assert Hit(questions, answers, last) == HitById(questions, answers, last);
    }
  }

  /** With 1-based ids the two disagree: picking the correct option (id 2,
      position 1) scores nothing. */
  lemma PositionScoringMissesCorrectId()
    ensures var questions := [Question([AnswerOption(1, false), AnswerOption(2, true)])];
      Score(questions, [Chosen(2)]) == 0 && ScoreById(questions, [Chosen(2)]) == 1
  {
    var questions := [Question([AnswerOption(1, false), AnswerOption(2, true)])];
    assert CorrectIndex(questions[0].options) == 1;
    assert [Chosen(2)][..0] == [];
  }

  /** `Math.round((score / totalQuestions) * 100)`, computed on exact
      rationals: NotFinite stands for the NaN or Infinity that a zero
      total gives. */
  datatype Percent = NotFinite | Whole(value: int)

  /** The percentage rounded half up: the whole number p nearest to
      100 * score / total, the larger one on a tie. */
  function Percentage(score: nat, total: nat): (r: Percent)
    ensures r.NotFinite? <==> total == 0
    ensures r.Whole? ==> 2 * total * r.value <= 200 * score + total < 2 * total * (r.value + 1)
  {
    if total == 0 then NotFinite
    else
      var p := (200 * score + total) / (2 * total);
      DivisionBounds(200 * score + total, 2 * total);
      Whole(p)
  }

  lemma DivisionBounds(x: nat, d: nat)
    requires d > 0
    ensures d * (x / d) <= x < d * (x / d + 1)
  {
  }

  /** A score between 0 and the total gives a percentage between 0 and 100. */
  lemma PercentageWithinBounds(score: nat, total: nat)
    requires 0 < total && score <= total
    ensures Percentage(score, total).Whole?
    ensures 0 <= Percentage(score, total).value <= 100
  {
    var p := Percentage(score, total).value;
    if p > 100 {
      assert 2 * total * p >= 2 * total * 101 by {
        MultiplyMonotone(2 * total, 101, p);
      }
    }
  }

  lemma MultiplyMonotone(c: nat, a: int, b: int)
    requires a <= b
    ensures c * a <= c * b
  {
  }

  /** A full score is 100%; a zero score is 0%. */
  lemma PercentageExtremes(total: nat)
    requires total > 0
    ensures Percentage(total, total) == Whole(100)
    ensures Percentage(0, total) == Whole(0)
  {
    assert (200 * total + total) / (2 * total) == 100 by {
      DivisionBounds(200 * total + total, 2 * total);
    }
  }

  /** Three questions whose correct options sit at positions 0, 1 and 2,
      answered 0, 2, 2: two points, 67%. */
  lemma ThreeQuestionExample()
    ensures var q0 := Question([AnswerOption(0, true), AnswerOption(1, false), AnswerOption(2, false)]);
      var q1 := Question([AnswerOption(0, false), AnswerOption(1, true), AnswerOption(2, false)]);
      var q2 := Question([AnswerOption(0, false), AnswerOption(1, false), AnswerOption(2, true)]);
      var answers := [Chosen(0), Chosen(2), Chosen(2)];
      Score([q0, q1, q2], answers) == 2 && Percentage(2, 3) == Whole(67)
  {
    var q0 := Question([AnswerOption(0, true), AnswerOption(1, false), AnswerOption(2, false)]);
    var q1 := Question([AnswerOption(0, false), AnswerOption(1, true), AnswerOption(2, false)]);
    var q2 := Question([AnswerOption(0, false), AnswerOption(1, false), AnswerOption(2, true)]);
    var questions := [q0, q1, q2];
    var answers := [Chosen(0), Chosen(2), Chosen(2)];
    assert CorrectIndex(q0.options) == 0;
    assert CorrectIndex(q1.options) == 1;
    assert CorrectIndex(q2.options) == 2;
    assert answers[..2][..1][..0] == [];
    assert Score(questions, answers[..2][..1]) == 1;
    assert Score(questions, answers[..2]) == 1;
  }
}
