/**
 * The quiz grading engine (`gradeQuiz`): resolves each question's answer
 * from the student's responses, asks the matching policy for a verdict,
 * records one feedback entry per question in question order, and reports
 * the number of correct answers and a rounded percentage.
 */
module Grading {
  import opened Text
  import opened Matching

  datatype Option<T> = None | Some(value: T)

  /** `QuizQuestion`. */
  datatype Question = Question(
    id: string,
    text: string,
    qtype: QType,
    options: Option<seq<string>>,
    correctAnswer: string,
    explanation: string)

  /** `StudentResponse`. */
  datatype Response = Response(questionId: string, answer: string)

  /** One entry of `GradingResult.feedback`. */
  datatype Feedback = Feedback(
    questionId: string,
    questionText: string,
    studentAnswer: string,
    correctAnswer: string,
    isCorrect: bool,
    explanation: string)

  /** The value of `Math.round(correct / total * 100)`: a whole percentage,
      or NaN when there are no questions and the quotient is 0 / 0. */
  datatype Score = Percent(value: int) | NaN

  /** `GradingResult`. */
  datatype GradingResult = GradingResult(
    totalQuestions: nat,
    correctAnswers: nat,
    score: Score,
    feedback: seq<Feedback>)

  /** `new Map(responses.map(r => [r.question_id, r.answer]))`: entries are
      inserted in order, so a later response for the same question replaces
      an earlier one. */
  function ResponseMap(responses: seq<Response>): (lookup: map<string, string>)
    ensures |lookup| <= |responses|
  {
    if responses == [] then map[]
    else
      var last := responses[|responses| - 1];
      ResponseMap(responses[..|responses| - 1])[last.questionId := last.answer]
  }

  /** The lookup has an entry exactly for the ids some response carries. */
  lemma {:induction false} ResponseMapKeys(responses: seq<Response>, id: string)
    ensures id in ResponseMap(responses) <==> exists k :: 0 <= k < |responses| && responses[k].questionId == id
  {
    if responses != [] {
      var n := |responses| - 1;
      var init := responses[..n];
      ResponseMapKeys(init, id);
      if id in ResponseMap(init) {
        var k :| 0 <= k < n && init[k].questionId == id;
        assert responses[k] == init[k];
      }
      if exists k :: 0 <= k < |responses| && responses[k].questionId == id {
        var k :| 0 <= k < |responses| && responses[k].questionId == id;
        if k < n {
          assert init[k] == responses[k];
        }
      }
    }
  }

  /** `responses[k]` is the last response that answers question `id`. */
  ghost predicate IsLastResponseFor(responses: seq<Response>, id: string, k: int) {
    && 0 <= k < |responses|
    && responses[k].questionId == id
    && forall j :: k < j < |responses| ==> responses[j].questionId != id
  }

  /** Last write wins: the lookup holds the answer of the last response for each id. */
  lemma {:induction false} LastResponseWins(responses: seq<Response>, id: string, k: int)
    requires IsLastResponseFor(responses, id, k)
    ensures id in ResponseMap(responses) && ResponseMap(responses)[id] == responses[k].answer
  {
    var n := |responses|;
    var init := responses[..n - 1];
    if k < n - 1 {
      assert IsLastResponseFor(init, id, k);
      LastResponseWins(init, id, k);
    }
  }

  /** `responseMap.get(id) || ''`: the stored answer unless it is missing or
      falsy, and "" otherwise. The only falsy string is "", so the default
      never replaces a stored answer. */
  function AnswerFor(lookup: map<string, string>, id: string): (answer: string)
    ensures answer == "" <==> id !in lookup || lookup[id] == ""
    ensures id in lookup ==> answer == lookup[id]
  {
    if id in lookup && lookup[id] != "" then lookup[id] else ""
  }

  /** The feedback record `gradeQuiz` pushes for one question: the question's
      fields, the answer given, and a verdict that accepts equal normal forms
      and, for multiple choice, nothing else. */
  function FeedbackFor(question: Question, studentAnswer: string): (f: Feedback)
    ensures f.questionId == question.id && f.questionText == question.text && f.explanation == question.explanation
    ensures f.studentAnswer == studentAnswer && f.correctAnswer == question.correctAnswer
    ensures Normalize(studentAnswer) == Normalize(question.correctAnswer) ==> f.isCorrect
    ensures question.qtype == MultipleChoice ==> (f.isCorrect <==> Normalize(studentAnswer) == Normalize(question.correctAnswer))
  {
    Feedback(
      question.id,
      question.text,
      studentAnswer,
      question.correctAnswer,
      CompareAnswers(studentAnswer, question.correctAnswer, question.qtype),
      question.explanation)
  }

  /** The feedback list `gradeQuiz` builds: one record per question, in question order. */
  function FeedbackList(questions: seq<Question>, lookup: map<string, string>): (feedback: seq<Feedback>)
    ensures |feedback| == |questions|
  {
    if questions == [] then []
    else
      var last := questions[|questions| - 1];
      FeedbackList(questions[..|questions| - 1], lookup) + [FeedbackFor(last, AnswerFor(lookup, last.id))]
  }

  /** Entry `i` of the feedback list is the record for question `i`. */
  lemma {:induction false} FeedbackListAt(questions: seq<Question>, lookup: map<string, string>, i: nat)
    requires i < |questions|
    ensures FeedbackList(questions, lookup)[i] == FeedbackFor(questions[i], AnswerFor(lookup, questions[i].id))
  {
    hide CompareAnswers;
    hide Normalize;
    var n := |questions| - 1;
    if i < n {
      FeedbackListAt(questions[..n], lookup, i);
    }
  }

  /** The number of entries marked correct. */
  function CountCorrect(feedback: seq<Feedback>): (n: nat)
    ensures n <= |feedback|
  {
    if feedback == [] then 0
    else CountCorrect(feedback[..|feedback| - 1]) + (if feedback[|feedback| - 1].isCorrect then 1 else 0)
  }

  /** The positions of the entries marked correct. */
  ghost function CorrectPositions(feedback: seq<Feedback>): set<nat> {
    set i: nat | i < |feedback| && feedback[i].isCorrect
  }

  /** CountCorrect counts exactly the entries marked correct. */
  lemma {:induction false} CountCorrectIsNumberOfCorrectEntries(feedback: seq<Feedback>)
    ensures CountCorrect(feedback) == |CorrectPositions(feedback)|
  {
    if feedback != [] {
      var n := |feedback| - 1;
      var init := feedback[..n];
      CountCorrectIsNumberOfCorrectEntries(init);
      if feedback[n].isCorrect {
        assert CorrectPositions(feedback) == CorrectPositions(init) + {n};
      } else {
        assert CorrectPositions(feedback) == CorrectPositions(init);
      }
    }
  }

  /** Every entry is correct exactly when the count equals the number of entries,
      and none is exactly when the count is zero. */
  lemma {:induction false} CountCorrectExtremes(feedback: seq<Feedback>)
    ensures CountCorrect(feedback) == |feedback| <==> forall i :: 0 <= i < |feedback| ==> feedback[i].isCorrect
    ensures CountCorrect(feedback) == 0 <==> forall i :: 0 <= i < |feedback| ==> !feedback[i].isCorrect
  {
    if feedback != [] {
      var n := |feedback| - 1;
      var init := feedback[..n];
      CountCorrectExtremes(init);
      assert forall i :: 0 <= i < n ==> init[i] == feedback[i];
    }
  }

  /** `Math.round((correct / total) * 100)` in exact arithmetic, halves
      rounded up (RoundedPercentIsNearest); NaN for 0 / 0. */
  function RoundedPercent(correct: nat, total: nat): (score: Score)
    ensures total == 0 <==> score == NaN
    ensures total > 0 && correct <= total ==> 0 <= score.value <= 100
  {
    if total == 0 then NaN
    else
      var v := (200 * correct + total) / (2 * total);
      assert correct <= total ==> v <= 100 by {
        if correct <= total {
          QuotientBelow(200 * correct + total, 2 * total, 101);
        }
      }
      Percent(v)
  }

  /** A quotient is below `q` when the dividend is below `d * q`. */
  lemma QuotientBelow(a: nat, d: nat, q: nat)
    requires d > 0 && a < d * q
    ensures a / d < q
  {
    assert d * (a / d) <= a;
    assert d * (a / d) < d * q;
  }

  /** `y = r / d` lies in [0, 1) when `0 <= r < d`. */
  lemma FractionBounds(y: real, r: real, d: real)
    requires d > 0.0 && y * d == r && 0.0 <= r < d
    ensures 0.0 <= y < 1.0
  {
    assert (1.0 - y) * d == d - r;
    assert (1.0 - y) * d > 0.0;
    assert y * d >= 0.0;
  }

  /** All correct scores 100 and none correct scores 0. */
  lemma RoundedPercentExtremes(total: nat)
    requires total > 0
    ensures RoundedPercent(total, total) == Percent(100)
    ensures RoundedPercent(0, total) == Percent(0)
  {
    QuotientIs(200 * total + total, 2 * total, 100);
    QuotientIs(total, 2 * total, 0);
  }

  /** The quotient of `a` by `d` is the `q` with `d * q <= a < d * q + d`. */
  lemma QuotientIs(a: nat, d: nat, q: nat)
    requires d > 0 && d * q <= a < d * q + d
    ensures a / d == q
  {
    QuotientBelow(a, d, q + 1);
    assert a < d * (a / d) + d;
    assert d * q < d * (a / d + 1);
  }

  /** The score is the whole number nearest to `100 * correct / total`, and
      of two equally near ones the larger, as `Math.round` chooses. */
  lemma RoundedPercentIsNearest(correct: nat, total: nat)
    requires total > 0
    ensures var v := RoundedPercent(correct, total).value as real;
      v - 0.5 <= 100.0 * (correct as real) / (total as real) < v + 0.5
  {
    var a, d := 200 * correct + total, 2 * total;
    var v := a / d;
    var r := a - d * v;
    assert 0 <= r < d;
    var t, c, vr := total as real, correct as real, v as real;
    var x := 100.0 * c / t;
    assert x * t == 100.0 * c;
    assert 200.0 * c + t == 2.0 * t * vr + (r as real);
    var y := x - vr + 0.5;
    assert y * (2.0 * t) == r as real;
    FractionBounds(y, r as real, 2.0 * t);
  }

  /** The specification of `gradeQuiz`: the result as a function of its inputs. */
  function Grade(questions: seq<Question>, responses: seq<Response>): (result: GradingResult)
    ensures result.totalQuestions == |questions| == |result.feedback|
  {
    var feedback := FeedbackList(questions, ResponseMap(responses));
    var correct := CountCorrect(feedback);
    GradingResult(|questions|, correct, RoundedPercent(correct, |questions|), feedback)
  }

  /** `gradeQuiz(questions, responses)`. */
  method GradeQuiz(questions: seq<Question>, responses: seq<Response>) returns (result: GradingResult)
    ensures result == Grade(questions, responses)
    ensures result.totalQuestions == |questions| == |result.feedback|
    ensures result.correctAnswers == CountCorrect(result.feedback)
    ensures result.score == RoundedPercent(result.correctAnswers, |questions|)
  {
    hide CompareAnswers;
    hide Normalize;
    var feedback: seq<Feedback> := [];
    var correctCount: nat := 0;
    var responseMap := ResponseMap(responses);
    for k := 0 to |questions|
      invariant feedback == FeedbackList(questions[..k], responseMap)
      invariant correctCount == CountCorrect(feedback)
    {
      var question := questions[k];
      var studentAnswer := AnswerFor(responseMap, question.id);
      var isCorrect := CompareAnswers(studentAnswer, question.correctAnswer, question.qtype);
      if isCorrect {
        correctCount := correctCount + 1;
      }
      var entry := Feedback(question.id, question.text, studentAnswer, question.correctAnswer, isCorrect, question.explanation);
      assert questions[..k + 1][..k] == questions[..k];
      feedback := feedback + [entry];
    }
    assert questions[..|questions|] == questions;
    result := GradingResult(|questions|, correctCount, RoundedPercent(correctCount, |questions|), feedback);
  }

  /** One feedback record per question, in question order: entry `i` names
      question `i`, copies its text, expected answer and explanation, holds
      the answer looked up for it and the verdict on that answer. */
  lemma GradeFeedbackShape(questions: seq<Question>, responses: seq<Response>, i: nat)
    requires i < |questions|
    ensures var f := Grade(questions, responses).feedback;
      && |f| == |questions|
      && f[i].questionId == questions[i].id
      && f[i].questionText == questions[i].text
      && f[i].correctAnswer == questions[i].correctAnswer
      && f[i].explanation == questions[i].explanation
      && f[i].studentAnswer == AnswerFor(ResponseMap(responses), questions[i].id)
      && f[i].isCorrect == CompareAnswers(f[i].studentAnswer, questions[i].correctAnswer, questions[i].qtype)
  {
    hide CompareAnswers;
    hide Normalize;
    FeedbackListAt(questions, ResponseMap(responses), i);
  }

  /** The count of correct answers is the number of feedback entries marked
      correct, and never exceeds the number of questions. */
  lemma GradeCountsCorrectEntries(questions: seq<Question>, responses: seq<Response>)
    ensures Grade(questions, responses).correctAnswers == |CorrectPositions(Grade(questions, responses).feedback)|
    ensures Grade(questions, responses).correctAnswers <= |questions|
  {
    hide CompareAnswers;
    hide Normalize;
    CountCorrectIsNumberOfCorrectEntries(Grade(questions, responses).feedback);
  }

  /** With no questions the score is NaN; otherwise it is a percentage
      between 0 and 100. */
  lemma GradeScoreRange(questions: seq<Question>, responses: seq<Response>)
    ensures var r := Grade(questions, responses);
      && (|questions| == 0 <==> r.score == NaN)
      && (|questions| > 0 ==> 0 <= r.score.value <= 100)
  {
    hide CompareAnswers;
    hide Normalize;
  }

  /** The score is 100 when every answer is correct and 0 when none is. */
  lemma GradeScoreExtremes(questions: seq<Question>, responses: seq<Response>)
    requires |questions| > 0
    ensures var r := Grade(questions, responses);
      && ((forall i :: 0 <= i < |questions| ==> r.feedback[i].isCorrect) ==> r.score == Percent(100))
      && ((forall i :: 0 <= i < |questions| ==> !r.feedback[i].isCorrect) ==> r.score == Percent(0))
  {
    hide CompareAnswers;
    hide Normalize;
    var r := Grade(questions, responses);
    CountCorrectExtremes(r.feedback);
    RoundedPercentExtremes(|questions|);
  }

  /** A question is graded against the last response that carries its id. */
  lemma GradeUsesLastResponse(questions: seq<Question>, responses: seq<Response>, i: nat, k: nat)
    requires i < |questions| && IsLastResponseFor(responses, questions[i].id, k)
    ensures Grade(questions, responses).feedback[i].studentAnswer == responses[k].answer
  {
    hide CompareAnswers;
    hide Normalize;
    LastResponseWins(responses, questions[i].id, k);
    GradeFeedbackShape(questions, responses, i);
  }

  /** A question nobody answered is graded against the empty answer. */
  lemma GradeMissingResponse(questions: seq<Question>, responses: seq<Response>, i: nat)
    requires i < |questions| && forall k :: 0 <= k < |responses| ==> responses[k].questionId != questions[i].id
    ensures Grade(questions, responses).feedback[i].studentAnswer == ""
    ensures Grade(questions, responses).feedback[i].isCorrect == CompareAnswers("", questions[i].correctAnswer, questions[i].qtype)
  {
    hide CompareAnswers;
    hide Normalize;
    ResponseMapKeys(responses, questions[i].id);
    GradeFeedbackShape(questions, responses, i);
  }

  /** `id` is the id of one of the questions. */
  ghost predicate IsQuestionId(questions: seq<Question>, id: string) {
    exists i :: 0 <= i < |questions| && questions[i].id == id
  }

  /** Removing a response from the lookup's input changes the lookup only at that response's id. */
  lemma {:induction false} ResponseMapWithout(before: seq<Response>, r: Response, after: seq<Response>, id: string)
    requires id != r.questionId
    ensures id in ResponseMap(before + [r] + after) <==> id in ResponseMap(before + after)
    ensures id in ResponseMap(before + after) ==> ResponseMap(before + [r] + after)[id] == ResponseMap(before + after)[id]
    decreases |after|
  {
    if after == [] {
      assert before + [r] + after == before + [r];
      assert (before + [r])[..|before|] == before;
      assert before + after == before;
    } else {
      var n := |after| - 1;
      var init := after[..n];
      assert (before + [r] + after)[..|before| + 1 + n] == before + [r] + init;
      assert (before + after)[..|before| + n] == before + init;
      ResponseMapWithout(before, r, init, id);
    }
  }

  /** The feedback list depends on the lookup only through the answers it gives the questions. */
  lemma {:induction false} FeedbackListSameAnswers(questions: seq<Question>, m1: map<string, string>, m2: map<string, string>)
    requires forall i :: 0 <= i < |questions| ==> AnswerFor(m1, questions[i].id) == AnswerFor(m2, questions[i].id)
    ensures FeedbackList(questions, m1) == FeedbackList(questions, m2)
  {
    hide CompareAnswers;
    hide Normalize;
    if questions != [] {
      var n := |questions| - 1;
      var init := questions[..n];
      assert forall i :: 0 <= i < n ==> init[i] == questions[i];
      FeedbackListSameAnswers(init, m1, m2);
    }
  }

  /** A response whose id matches no question has no effect on the result. */
  lemma GradeIgnoresUnknownResponse(questions: seq<Question>, before: seq<Response>, r: Response, after: seq<Response>)
    requires !IsQuestionId(questions, r.questionId)
    ensures Grade(questions, before + [r] + after) == Grade(questions, before + after)
  {
    hide CompareAnswers;
    hide Normalize;
    var m1, m2 := ResponseMap(before + [r] + after), ResponseMap(before + after);
    forall i | 0 <= i < |questions| ensures AnswerFor(m1, questions[i].id) == AnswerFor(m2, questions[i].id) {
      ResponseMapWithout(before, r, after, questions[i].id);
    }
    FeedbackListSameAnswers(questions, m1, m2);
  }
}
