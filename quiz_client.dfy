/**
 * The quiz inside the study-plan page: questions are shown one at a time,
 * each answer is recorded with the expected letter, the correct answers are
 * counted at the end and the attempt is sent to the submit handler.
 */
module QuizClient {
  import opened Wrappers
  import opened Text
  import opened Http
  import StudyPlan

  /** One entry of `quiz_questions`. */
  datatype Question = Question(question: string, options: seq<string>, answer: string)

  /** One entry of `userAnswers`. */
  datatype AnswerRecord = AnswerRecord(question: nat, given: string, correct: string)

  /** One choice as rendered: its letter (also the radio button's value) and its text. */
  datatype Choice = Choice(letter: string, text: string)

  /** What `renderQuestion` puts on the page. */
  datatype Screen =
    | Results(correct: nat, total: nat)
    | Asking(index: nat, total: nat, question: string, choices: seq<Choice>)

  /**
   * `String.fromCharCode(65 + i)`: the UTF-16 code unit 65 + i, modulo 2^16.
   * A code unit in the surrogate range is not a character on its own and
   * becomes U+FFFD here.
   */
  function Letter(i: nat): (c: char)
    ensures i < 26 ==> c == (65 + i) as char && IsAsciiUpper(c)
  {
    var unit := (65 + i) % 0x1_0000;
    if 0xD800 <= unit < 0xE000 then '\U{FFFD}' else unit as char
  }

  /** The first 26 options are lettered A to Z, each with a different letter. */
  lemma LettersDistinct(i: nat, j: nat)
    requires i < 26 && j < 26 && i != j
    ensures Letter(i) != Letter(j)
  {
  }

  /** `answer.trim().toUpperCase()`. */
  function Expected(q: Question): string {
    AsciiUpper(JsTrim(q.answer))
  }

  /** An answer written " b " is expected as "B", so choosing the second option scores. */
  lemma AnswerIsNormalised()
    ensures Expected(Question("q", ["x", "y"], " b ")) == [Letter(1)]
  {
    PaddedAnswerTrims();
    assert AsciiUpper("b") == "B";
    assert Letter(1) == 'B';
  }

  lemma PaddedAnswerTrims()
    ensures JsTrim(" b ") == "b"
  {
    assert " b " == " " + "b" + " ";
    assert IsJsSpace(' ') && !IsJsSpace('b');
    TrimIgnoresPadding("b", " ", " ", IsJsSpace);
    TrimKeepsWord("b", IsJsSpace);
  }

  /** `userAnswers.filter(a => a.given === a.correct).length`. */
  function CorrectCount(answers: seq<AnswerRecord>): (n: nat)
    ensures n <= |answers|
    ensures n == |answers| <==> forall k :: 0 <= k < |answers| ==> answers[k].given == answers[k].correct
    ensures n == 0 <==> forall k :: 0 <= k < |answers| ==> answers[k].given != answers[k].correct
  {
    if answers == [] then 0
    else
      var rest := CorrectCount(answers[1..]);
      assert forall k :: 0 < k < |answers| ==> answers[k] == answers[1..][k - 1];
      (if answers[0].given == answers[0].correct then 1 else 0) + rest
  }

  /** Counting the records one at a time: a new record adds one exactly when it is right. */
  lemma {:induction false} CorrectCountAppend(answers: seq<AnswerRecord>, a: AnswerRecord)
    ensures CorrectCount(answers + [a]) == CorrectCount(answers) + (if a.given == a.correct then 1 else 0)
  {
    if answers != [] {
      assert (answers + [a])[1..] == answers[1..] + [a];
      CorrectCountAppend(answers[1..], a);
    }
  }

  /**
   * Record k answers question k: it holds the letter of one of that
   * question's options and the normalised expected answer.
   */
  ghost predicate RecordsFit(questions: seq<Question>, answers: seq<AnswerRecord>) {
    && |answers| <= |questions|
    && forall k :: 0 <= k < |answers| ==>
         && answers[k].question == k
         && answers[k].correct == Expected(questions[k])
         && exists i :: 0 <= i < |questions[k].options| && answers[k].given == [Letter(i)]
  }

  /** Answering the next question with one of its options keeps the records in step. */
  lemma RecordsFitAppend(questions: seq<Question>, answers: seq<AnswerRecord>, choice: nat)
    requires RecordsFit(questions, answers) && |answers| < |questions|
    requires choice < |questions[|answers|].options|
    ensures RecordsFit(questions, answers + [AnswerRecord(|answers|, [Letter(choice)], Expected(questions[|answers|]))])
  {
    var k := |answers|;
    var all := answers + [AnswerRecord(k, [Letter(choice)], Expected(questions[k]))];
    forall j | 0 <= j < |all|
      ensures all[j].question == j && all[j].correct == Expected(questions[j])
      ensures exists i :: 0 <= i < |questions[j].options| && all[j].given == [Letter(i)]
    {
      if j < k {
        assert all[j] == answers[j];
      } else {
        assert all[j].given == [Letter(choice)];
      }
    }
  }

  /** The quiz state kept by `displayStudyPlan`. */
  class QuizSession {
    const questions: seq<Question>
    var currentQIndex: nat
    var userAnswers: seq<AnswerRecord>

    /**
     * One record per answered question, in order; each holds the letter of
     * one of that question's options and the normalised expected answer.
     */
    ghost predicate Valid()
      reads this
    {
      |userAnswers| == currentQIndex <= |questions| && RecordsFit(questions, userAnswers)
    }

    constructor (questions: seq<Question>)
      ensures Valid()
      ensures this.questions == questions && currentQIndex == 0 && userAnswers == []
    {
      this.questions := questions;
      currentQIndex, userAnswers := 0, [];
    }

    /** `renderQuestion`: the next question with its lettered choices, or the results once all are answered. */
    function Render(): (s: Screen)
      reads this
      requires Valid()
      ensures s.Results? <==> currentQIndex >= |questions|
      ensures s.Results? ==> s.total == |questions| && s.correct == CorrectCount(userAnswers) <= s.total
      ensures s.Asking? ==>
        && s.index == currentQIndex && s.total == |questions|
        && s.question == questions[currentQIndex].question
        && |s.choices| == |questions[currentQIndex].options|
        && forall i :: 0 <= i < |s.choices| ==> s.choices[i] == Choice([Letter(i)], questions[currentQIndex].options[i])
    {
      if currentQIndex >= |questions| then Results(CorrectCount(userAnswers), |questions|)
      else
        var q := questions[currentQIndex];
        Asking(currentQIndex, |questions|, q.question,
               seq(|q.options|, i requires 0 <= i < |q.options| => Choice([Letter(i)], q.options[i])))
    }

    /**
     * `checkAnswer(qIndex)`, called from the button of the question on
     * screen. `selected` is the position of the checked option, if any.
     */
    method CheckAnswer(qIndex: nat, selected: Option<nat>)
      requires Valid()
      requires qIndex == currentQIndex < |questions|
      requires selected.Some? ==> selected.value < |questions[qIndex].options|
      modifies this
      ensures Valid()
      ensures selected.None? ==> currentQIndex == old(currentQIndex) && userAnswers == old(userAnswers)
      ensures selected.Some? ==>
        && currentQIndex == old(currentQIndex) + 1
        && userAnswers == old(userAnswers) + [AnswerRecord(qIndex, [Letter(selected.value)], Expected(questions[qIndex]))]
    {
      if selected.None? {
        return;
      }
      var given := [Letter(selected.value)];
      RecordsFitAppend(questions, userAnswers, selected.value);
      var correct := Expected(questions[qIndex]);
      userAnswers := userAnswers + [AnswerRecord(qIndex, given, correct)];
      currentQIndex := currentQIndex + 1;
    }
  }

  /** The JSON object sent for one record. */
  function RecordJson(a: AnswerRecord): Json {
    JObj(map["question" := JNum(a.question), "given" := JStr(a.given), "correct" := JStr(a.correct)])
  }

  /** The body `saveQuizAnswers` sends: the plan id from the page address, the records, the count and the total. */
  function Payload(planId: string, answers: seq<AnswerRecord>, score: nat, total: nat): (body: map<string, Json>)
    ensures body.Keys == {"plan_id", "answers", "score", "total_questions"}
    ensures body["plan_id"] == JStr(planId) && body["score"] == JNum(score) && body["total_questions"] == JNum(total)
    ensures body["answers"] == JArr(seq(|answers|, k requires 0 <= k < |answers| => RecordJson(answers[k])))
  {
    map[
      "plan_id" := JStr(planId),
      "answers" := JArr(seq(|answers|, k requires 0 <= k < |answers| => RecordJson(answers[k]))),
      "score" := JNum(score),
      "total_questions" := JNum(total)]
  }

  /**
   * A finished quiz of at least one question, for a plan id of digits, passes
   * the submit handler's field check, even with no correct answer, names
   * the plan by its number, and is stored with the score and total the page
   * counted.
   */
  lemma FinishedQuizIsComplete(planId: string, answers: seq<AnswerRecord>, score: nat, total: nat)
    requires planId != [] && IsDecimal(planId)
    requires answers != [] && total >= 1
    ensures StudyPlan.SubmissionComplete(Payload(planId, answers, score, total))
    ensures StudyPlan.IntColumn(Lookup(Payload(planId, answers, score, total), "plan_id")) == Some(DecimalValue(planId))
    ensures StudyPlan.IntColumn(Lookup(Payload(planId, answers, score, total), "score")) == Some(score)
    ensures StudyPlan.IntColumn(StudyPlan.TotalOf(Payload(planId, answers, score, total))) == Some(total)
  {
    var body := Payload(planId, answers, score, total);
    assert Lookup(body, "total_questions") == JNum(total);
    assert Lookup(body, "answers").items != [] by {
      assert |Lookup(body, "answers").items| == |answers|;
    }
  }

  /** A quiz with no questions sends an empty list and a total of 0, which the submit handler refuses. */
  lemma EmptyQuizIsRefused(planId: string)
    ensures !StudyPlan.SubmissionComplete(Payload(planId, [], 0, 0))
  {
    var body := Payload(planId, [], 0, 0);
    assert Lookup(body, "answers") == JArr([]);
  }

  /** What `saveQuizAnswers` resolves to: a message to show, or a rejection. */
  datatype SaveResult = Shown(message: Json) | Thrown

  /** `response.ok`: a status in 200 to 299. */
  predicate IsOk(status: int) { 200 <= status <= 299 }

  /**
   * 409 resolves to the fixed duplicate message; any other status outside
   * 200 to 299 rejects; otherwise the server's `message` is shown.
   */
  function SaveOutcome(status: int, body: map<string, Json>): (r: SaveResult)
    ensures status == 409 ==> r == Shown(JStr(StudyPlan.AlreadySubmitted))
    ensures r.Thrown? <==> status != 409 && !IsOk(status)
    ensures IsOk(status) ==> r == Shown(LookupOr(body, "message", JNull))
  {
    if status == 409 then Shown(JStr("Quiz already submitted"))
    else if !IsOk(status) then Thrown
    else Shown(LookupOr(body, "message", JNull))
  }
}
