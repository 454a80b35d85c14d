/** The practice page of app/practice/page.tsx as a state machine: the page's
    state variables become the fields of `PracticeSession` and its event
    handlers become methods. The clock is the `now` argument of each handler,
    `Math.random` the `rng` stream, the signed-in user an optional id, and
    the two inserts of `saveQuizResult` abstract outcomes. */
module Practice {
  import opened Common
  import opened Backend
  import opened Shuffle
  import opened Quiz
  import opened Database

  /** The `saveStatus` banner. */
  datatype SaveStatus = SaveStatus(success: bool, message: string)

  /** The number of questions the page asks for. */
  const QuizSize: nat := 10

  /** The answer built for the current question when the quiz is finished. */
  function FreshAnswer(q: Question, selected: Option<string>, timeSpent: int): (a: Answer)
    ensures a.questionId == q.id && a.timeSpent == timeSpent
    ensures a.isCorrect <==> selected == Some(q.correctAnswer)
    ensures a.selectedAnswer == (if selected.Some? then selected.value else "")
  {
    Answer(q.id, if selected.Some? then OrElse(selected.value, "") else "", selected == Some(q.correctAnswer), timeSpent)
  }

  /** The final answer list as written: the submitted answers plus a fresh
      answer for the current question, even though submitting already
      appended one for it. */
  function FinalAnswersAsWritten(answers: seq<Answer>, q: Question, selected: Option<string>, timeSpent: int): (fs: seq<Answer>)
    ensures |fs| == |answers| + 1 && fs[..|answers|] == answers
  {
    answers + [FreshAnswer(q, selected, timeSpent)]
  }

  /** The intended final answer list: the fresh answer is added only when
      the current question has not been answered yet. */
  function FinalAnswers(questions: seq<Question>, answers: seq<Answer>, q: Question, selected: Option<string>, timeSpent: int)
    : (fs: seq<Answer>)
    ensures |answers| >= |questions| ==> fs == answers
    ensures |answers| < |questions| ==> |fs| == |answers| + 1 && fs[..|answers|] == answers
    ensures |answers| <= |questions| ==> |fs| <= |questions|
  {
    if |answers| >= |questions| then answers else answers + [FreshAnswer(q, selected, timeSpent)]
  }

  /** After every question was submitted correctly, the as-written list has
      one answer too many and scores `n + 1` out of `n`: ten questions give
      110 percent. */
  lemma {:induction false} FinalAnswersAsWrittenOvercounts(
    questions: seq<Question>, answers: seq<Answer>, selected: Option<string>, timeSpent: int)
    requires |questions| > 0 && |answers| == |questions|
    requires forall k :: 0 <= k < |answers| ==> answers[k].isCorrect
    requires selected == Some(questions[|questions| - 1].correctAnswer)
    ensures var r := CalculateQuizResult(questions, FinalAnswersAsWritten(answers, questions[|questions| - 1], selected, timeSpent));
      r.correctAnswers == r.totalQuestions + 1 && (|questions| == QuizSize ==> r.percentage == 110)
  {
    var q := questions[|questions| - 1];
    AllCorrectCount(answers);
    ScoreAppend(answers, FreshAnswer(q, selected, timeSpent));
  }

  lemma {:induction false} AllCorrectCount(answers: seq<Answer>)
    requires forall k :: 0 <= k < |answers| ==> answers[k].isCorrect
    ensures CountCorrect(answers) == |answers|
  {
    if answers != [] {
      AllCorrectCount(answers[1..]);
    }
  }

  /** With the intended list, a quiz whose questions were all submitted
      scores at most 100 percent, and exactly 100 when all were right. */
  lemma FinalAnswersScoreInRange(
    questions: seq<Question>, answers: seq<Answer>, q: Question, selected: Option<string>, timeSpent: int)
    requires |questions| > 0 && |answers| <= |questions|
    ensures var r := CalculateQuizResult(questions, FinalAnswers(questions, answers, q, selected, timeSpent));
      r.correctAnswers <= r.totalQuestions && 0 <= r.percentage <= 100
  {
  }

  /** The banner for a `saveQuizResult` response. */
  function SaveStatusFor(response: SaveResponse): (s: SaveStatus)
    ensures s.success == response.success
    ensures s.message != ""
  {
    if response.success then
      if Truthy(response.error) then SaveStatus(true, "Saved with warning: " + response.error.value)
      else SaveStatus(true, "Quiz result saved successfully!")
    else
      SaveStatus(false, OrElse(if response.error.Some? then response.error.value else "", "Failed to save quiz result"))
  }

  /** The banner the page shows for each pair of insert outcomes: plain
      success exactly when both inserts returned, a warning when only the
      answers insert failed. */
  lemma SaveStatusOutcomes(
    userId: string, result: QuizResult, questions: seq<Question>, resultInsert: Call<string>, answersInsert: Call<()>)
    ensures var s := SaveStatusFor(SaveQuizResult(userId, result, questions, resultInsert, answersInsert).response);
      && (s.success <==> resultInsert.Returned? && !answersInsert.Threw?)
      && (s == SaveStatus(true, "Quiz result saved successfully!") <==> resultInsert.Returned? && answersInsert.Returned?)
      && (resultInsert.Returned? && answersInsert.Errored? ==>
            s == SaveStatus(true, "Saved with warning: " + ("Result saved but answers failed: " + answersInsert.message)))
      && (resultInsert.Errored? ==> s == SaveStatus(false, OrElse(resultInsert.message, "Failed to save quiz result")))
  {
    var t := SaveQuizResult(userId, result, questions, resultInsert, answersInsert);
    if resultInsert.Returned? && answersInsert.Errored? {
      var w := "Result saved but answers failed: " + answersInsert.message;
      assert t.response == SaveResponse(true, Some(w));
      assert w[0] == 'R';
      assert ("Saved with warning: " + w)[0] == 'S';
    }
  }

  class PracticeSession {
    var questions: seq<Question>
    var index: nat
    var answers: seq<Answer>
    var selected: Option<string>
    var showFeedback: bool
    var result: Option<QuizResult>
    var startTime: int
    var questionStartTime: int
    var savingResult: bool
    var saveStatus: Option<SaveStatus>

    /** The state before the mount effect has run. */
    constructor()
      ensures questions == [] && index == 0 && answers == [] && selected == None
      ensures !showFeedback && result == None && startTime == 0 && questionStartTime == 0
      ensures !savingResult && saveStatus == None
    {
      questions := [];
      index := 0;
      answers := [];
      selected := None;
      showFeedback := false;
      result := None;
      startTime := 0;
      questionStartTime := 0;
      savingResult := false;
      saveStatus := None;
    }

    /** `questions[currentQuestionIndex]`, undefined past the end. */
    function CurrentQuestion(): (q: Option<Question>)
      reads this
      ensures q.Some? <==> index < |questions|
      ensures q.Some? ==> q.value in questions
    {
      if index < |questions| then Some(questions[index]) else None
    }

    /** `currentQuestionIndex === questions.length - 1`: there is a current
        question and none after it. */
    predicate IsLastQuestion(): (b: bool)
      reads this
      ensures b <==> CurrentQuestion().Some? && index + 1 == |questions|
    {
      index == |questions| - 1
    }

    /** A quiz in progress as the page's buttons drive it: the index points
      at a question, and the answers cover the questions before it plus the
      current one once its feedback is showing. */
    ghost predicate InProgress()
      reads this
    {
      && result == None
      && index < |questions|
      && |answers| == index + (if showFeedback then 1 else 0)
    }

    /** While "View results" is on screen (feedback shown on the last question
        of a quiz in progress) the current answer is already recorded: the
        page's own final list holds one answer more than there are questions,
        and the intended list adds nothing. */
    lemma ViewResultsAsWrittenOvercounts(timeSpent: int)
      requires InProgress() && showFeedback && IsLastQuestion()
      ensures |FinalAnswersAsWritten(answers, questions[index], selected, timeSpent)| == |questions| + 1
      ensures FinalAnswers(questions, answers, questions[index], selected, timeSpent) == answers
    {
    }

    /** The mount effect: ten questions over the sample catalog, and both
        clocks started. */
    method Start(rng: seq<nat>, now: nat) returns (rest: seq<nat>)
      modifies this
      ensures |questions| == QuizSize
      ensures forall k :: 0 <= k < |questions| ==> WellFormedQuestion(questions[k], SampleCharacters())
      ensures startTime == now && questionStartTime == now
      ensures index == old(index) && answers == old(answers) && selected == old(selected)
      ensures showFeedback == old(showFeedback) && result == old(result)
      ensures savingResult == old(savingResult) && saveStatus == old(saveStatus)
      ensures old(index == 0 && answers == [] && !showFeedback && result == None) ==> InProgress()
    {
      questions, rest := GenerateQuiz([], QuizSize, rng, now);
      startTime := now;
      questionStartTime := now;
    }

    /** Choosing an option: ignored while feedback is shown. */
    method HandleAnswerSelect(answer: string)
      modifies this
      ensures old(showFeedback) ==> selected == old(selected)
      ensures !old(showFeedback) ==> selected == Some(answer)
      ensures questions == old(questions) && index == old(index) && answers == old(answers)
      ensures showFeedback == old(showFeedback) && result == old(result)
      ensures startTime == old(startTime) && questionStartTime == old(questionStartTime)
      ensures savingResult == old(savingResult) && saveStatus == old(saveStatus)
      ensures old(InProgress()) ==> InProgress()
    {
      if showFeedback {
        return;
      }
      selected := Some(answer);
    }

    /** Submitting: without a (non-empty) selection or a current question
        nothing happens; otherwise one answer is recorded and feedback shown. */
    method HandleSubmitAnswer(now: int)
      modifies this
      ensures !Truthy(old(selected)) || old(CurrentQuestion()).None? ==>
        answers == old(answers) && showFeedback == old(showFeedback)
      ensures Truthy(old(selected)) && old(CurrentQuestion()).Some? ==>
        var q := old(CurrentQuestion()).value;
        && answers == old(answers) + [Answer(q.id, old(selected).value, old(selected).value == q.correctAnswer, now - old(questionStartTime))]
        && showFeedback
      ensures questions == old(questions) && index == old(index) && selected == old(selected) && result == old(result)
      ensures startTime == old(startTime) && questionStartTime == old(questionStartTime)
      ensures savingResult == old(savingResult) && saveStatus == old(saveStatus)
      ensures old(InProgress()) && !old(showFeedback) && Truthy(old(selected)) ==> InProgress() && showFeedback
    {
      var current := CurrentQuestion();
      if !Truthy(selected) || current.None? {
        return;
      }
      var q := current.value;
      var timeSpent := now - questionStartTime;
      var isCorrect := selected.value == q.correctAnswer;
      answers := answers + [Answer(q.id, selected.value, isCorrect, timeSpent)];
      showFeedback := true;
    }

    /** "Next question" / "View results". On the last question the result is
        computed over the intended final answers and, for a signed-in user,
        saved; the trace of the save is returned. Otherwise the next question
        is shown with a cleared selection. */
    method HandleNextQuestion(now: int, user: Option<string>, resultInsert: Call<string>, answersInsert: Call<()>)
      returns (saved: Option<SaveTrace>)
      modifies this
      ensures questions == old(questions) && answers == old(answers) && startTime == old(startTime)
      ensures !old(IsLastQuestion()) ==>
        && index == old(index) + 1 && selected == None && !showFeedback && questionStartTime == now
        && result == old(result) && savingResult == old(savingResult) && saveStatus == old(saveStatus)
        && saved == None
      ensures old(IsLastQuestion()) ==>
        var q := questions[old(index)];
        var r := CalculateQuizResult(questions, FinalAnswers(questions, answers, q, old(selected), now - old(questionStartTime)));
        && result == Some(r)
        && index == old(index) && selected == old(selected) && showFeedback == old(showFeedback)
        && questionStartTime == old(questionStartTime)
        && (user.None? ==> saved == None && saveStatus == old(saveStatus) && savingResult == old(savingResult))
        && (user.Some? ==>
              && saved == Some(SaveQuizResult(user.value, r, questions, resultInsert, answersInsert))
              && saveStatus == Some(SaveStatusFor(saved.value.response))
              && !savingResult)
      ensures old(InProgress()) && old(showFeedback) && !old(IsLastQuestion()) ==> InProgress() && !showFeedback
      ensures old(InProgress()) && old(showFeedback) && old(IsLastQuestion()) ==>
        && result.Some? && |result.value.answers| == |questions|
        && result.value.correctAnswers <= result.value.totalQuestions
        && 0 <= result.value.percentage <= 100
    {
      if IsLastQuestion() {
        var q := questions[index];
        var r := CalculateQuizResult(questions, FinalAnswers(questions, answers, q, selected, now - questionStartTime));
        if |answers| <= |questions| {
          FinalAnswersScoreInRange(questions, answers, q, selected, now - questionStartTime);
        }
        saved := Finish(r, user, resultInsert, answersInsert);
      } else {
        saved := None;
        Advance(now);
      }
    }

    /** The other branch of `handleNextQuestion`: on to the next question with
        the selection and feedback cleared and the question clock restarted. */
    method Advance(now: int)
      modifies this`index, this`selected, this`showFeedback, this`questionStartTime
      ensures index == old(index) + 1 && selected == None && !showFeedback && questionStartTime == now
    {
      index := index + 1;
      selected := None;
      showFeedback := false;
      questionStartTime := now;
    }

    /** The end of the last-question branch of `handleNextQuestion`: the
        result is recorded and, for a signed-in user, saved, with the save's
        outcome as the save status. */
    method Finish(r: QuizResult, user: Option<string>, resultInsert: Call<string>, answersInsert: Call<()>)
      returns (saved: Option<SaveTrace>)
      modifies this`result, this`savingResult, this`saveStatus
      ensures result == Some(r)
      ensures user.None? ==> saved == None && saveStatus == old(saveStatus) && savingResult == old(savingResult)
      ensures user.Some? ==>
        && saved == Some(SaveQuizResult(user.value, r, questions, resultInsert, answersInsert))
        && saveStatus == Some(SaveStatusFor(saved.value.response))
        && !savingResult
    {
      result := Some(r);
      saved := None;
      if user.Some? {
        savingResult := true;
        saveStatus := None;
        var trace := SaveQuizResult(user.value, r, questions, resultInsert, answersInsert);
        saved := Some(trace);
        saveStatus := Some(SaveStatusFor(trace.response));
        savingResult := false;
      }
    }

    /** "Try again": a fresh quiz and every other field back to its start. */
    method HandleTryAgain(rng: seq<nat>, now: nat) returns (rest: seq<nat>)
      modifies this
      ensures |questions| == QuizSize
      ensures forall k :: 0 <= k < |questions| ==> WellFormedQuestion(questions[k], SampleCharacters())
      ensures index == 0 && answers == [] && selected == None && !showFeedback && result == None
      ensures !savingResult && saveStatus == None && startTime == now && questionStartTime == now
      ensures InProgress()
    {
      questions, rest := GenerateQuiz([], QuizSize, rng, now);
      index := 0;
      answers := [];
      selected := None;
      showFeedback := false;
      result := None;
      savingResult := false;
      saveStatus := None;
      startTime := now;
      questionStartTime := now;
    }
  }
}
