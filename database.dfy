/** The data-layer logic of lib/database.ts: the rows `saveQuizResult` sends
    and the outcome it reports, and the statistics `getUserStats` derives from
    a user's stored results. The queries and inserts themselves are abstract
    `Call` outcomes; timestamps are integer milliseconds. */
module Database {
  import opened Common
  import opened Backend
  import opened Quiz

  /** A row of `quiz_results`; `createdAt` in milliseconds since the epoch. */
  datatype StoredResult = StoredResult(
    id: string,
    userId: string,
    totalQuestions: int,
    correctAnswers: int,
    percentage: int,
    duration: int,
    createdAt: int)

  /** The row `saveQuizResult` inserts into `quiz_results`. */
  datatype ResultRow = ResultRow(userId: string, totalQuestions: int, correctAnswers: int, percentage: int, duration: int)

  /** A row of `quiz_answers` as `saveQuizResult` builds it. */
  datatype AnswerRow = AnswerRow(
    quizResultId: string,
    questionId: string,
    questionType: string,
    characterId: string,
    selectedAnswer: string,
    correctAnswer: string,
    isCorrect: bool,
    timeSpent: int)

  datatype SaveResponse = SaveResponse(success: bool, error: Option<string>)

  /** The response of `saveQuizResult` together with what it sent: the result
      row always, the answer rows once the result insert returned. */
  datatype SaveTrace = SaveTrace(response: SaveResponse, resultRow: ResultRow, answerRows: Option<seq<AnswerRow>>)

  datatype UserStats = UserStats(
    totalQuizzes: nat,
    averageScore: int,
    totalCharactersPracticed: nat,
    currentStreak: nat,
    bestScore: int,
    recentQuizzes: seq<StoredResult>)

  datatype StatsResponse = StatsResponse(stats: Option<UserStats>, error: Option<string>)

  // ---------------------------------------------------------------------
  // saveQuizResult

  /** `questions.find(q => q.id === id)`: the first question with that id. */
  function FindQuestion(questions: seq<Question>, id: string): (r: Option<Question>)
    ensures r.None? <==> forall k :: 0 <= k < |questions| ==> questions[k].id != id
    ensures forall k :: FirstWithId(questions, k, id) ==> r == Some(questions[k])
  {
    if questions == [] then None
    else if questions[0].id == id then Some(questions[0])
    else
      var r := FindQuestion(questions[1..], id);
      assert forall k :: 1 <= k < |questions| ==> questions[k] == questions[1..][k - 1];
      assert forall k :: FirstWithId(questions, k, id) ==> k > 0 && FirstWithId(questions[1..], k - 1, id);
      r
  }

  /** Position `k` holds the first question with the given id. */
  predicate FirstWithId(questions: seq<Question>, k: int, id: string)
  {
    0 <= k < |questions| && questions[k].id == id && forall j :: 0 <= j < k ==> questions[j].id != id
  }

  /** The row for one answer: a question with the answer's id supplies type,
      character and correct answer (`|| 'unknown'`, `|| ''`); without one
      they are 'unknown', 'unknown' and ''. */
  function AnswerRowFor(resultId: string, a: Answer, questions: seq<Question>): (row: AnswerRow)
    ensures row.quizResultId == resultId && row.questionId == a.questionId
    ensures row.selectedAnswer == a.selectedAnswer && row.isCorrect == a.isCorrect && row.timeSpent == a.timeSpent
  {
    match FindQuestion(questions, a.questionId)
    case None =>
      AnswerRow(resultId, a.questionId, "unknown", "unknown", a.selectedAnswer, "", a.isCorrect, a.timeSpent)
    case Some(q) =>
      AnswerRow(resultId, a.questionId, OrElse(TypeName(q.qtype), "unknown"), OrElse(q.character.id, "unknown"),
                a.selectedAnswer, OrElse(q.correctAnswer, ""), a.isCorrect, a.timeSpent)
  }

  /** `quizResult.answers.map(...)`: one row per answer, in order. */
  function AnswerRows(resultId: string, answers: seq<Answer>, questions: seq<Question>): (rows: seq<AnswerRow>)
    ensures |rows| == |answers|
    ensures forall k :: 0 <= k < |answers| ==> rows[k] == AnswerRowFor(resultId, answers[k], questions)
  {
    if answers == [] then []
    else [AnswerRowFor(resultId, answers[0], questions)] + AnswerRows(resultId, answers[1..], questions)
  }

  /** An answer whose question id matches no question is stored with the
      placeholders; one that matches takes the question's fields. */
  lemma AnswerRowPlaceholders(resultId: string, a: Answer, questions: seq<Question>)
    ensures (forall k :: 0 <= k < |questions| ==> questions[k].id != a.questionId) ==>
      var row := AnswerRowFor(resultId, a, questions);
      row.questionType == "unknown" && row.characterId == "unknown" && row.correctAnswer == ""
    ensures forall k :: FirstWithId(questions, k, a.questionId) ==>
      var row := AnswerRowFor(resultId, a, questions);
      row.questionType == TypeName(questions[k].qtype) && row.correctAnswer == questions[k].correctAnswer
      && row.characterId == OrElse(questions[k].character.id, "unknown")
  {
    forall k | FirstWithId(questions, k, a.questionId)
      ensures TypeName(questions[k].qtype) != ""
    {
      assert TypeName(questions[k].qtype)[0] in "cm";
    }
  }

  /** Insert the result, then its answers. A failed result insert fails the
      save; a failed answers insert still succeeds, with a warning; anything
      thrown is reported as an unexpected error. */
  function SaveQuizResult(
    userId: string, result: QuizResult, questions: seq<Question>,
    resultInsert: Call<string>, answersInsert: Call<()>): (t: SaveTrace)
    ensures t.resultRow == ResultRow(userId, result.totalQuestions, result.correctAnswers, result.percentage, result.duration)
    ensures t.response.success <==> resultInsert.Returned? && !answersInsert.Threw?
    ensures t.answerRows.Some? <==> resultInsert.Returned?
    ensures resultInsert.Returned? ==> t.answerRows == Some(AnswerRows(resultInsert.data, result.answers, questions))
    ensures resultInsert.Errored? ==> t.response.error == Some(resultInsert.message)
    ensures resultInsert.Returned? && answersInsert.Errored? ==>
      t.response.error == Some("Result saved but answers failed: " + answersInsert.message)
    ensures t.response.success && t.response.error == None <==> resultInsert.Returned? && answersInsert.Returned?
    ensures resultInsert.Threw? || (resultInsert.Returned? && answersInsert.Threw?) ==>
      t.response == SaveResponse(false, Some("An unexpected error occurred while saving the quiz result"))
  {
    var row := ResultRow(userId, result.totalQuestions, result.correctAnswers, result.percentage, result.duration);
    var unexpected := SaveResponse(false, Some("An unexpected error occurred while saving the quiz result"));
    match resultInsert
    case Threw => SaveTrace(unexpected, row, None)
    case Errored(msg) => SaveTrace(SaveResponse(false, Some(msg)), row, None)
    case Returned(savedId) =>
      var rows := AnswerRows(savedId, result.answers, questions);
      match answersInsert
      case Threw => SaveTrace(unexpected, row, Some(rows))
      case Errored(msg) => SaveTrace(SaveResponse(true, Some("Result saved but answers failed: " + msg)), row, Some(rows))
      case Returned(_) => SaveTrace(SaveResponse(true, None), row, Some(rows))
  }

  // ---------------------------------------------------------------------
  // getUserStats: average, best, distinct characters, recent

  /** `rs.reduce((sum, q) => sum + q.percentage, 0)`: never negative when no
      percentage is. */
  function SumPercentages(rs: seq<StoredResult>): (s: int)
    ensures (forall k :: 0 <= k < |rs| ==> rs[k].percentage >= 0) ==> s >= 0
  {
    if rs == [] then 0 else rs[0].percentage + SumPercentages(rs[1..])
  }

  /** `Math.max(...rs.map(q => q.percentage))` of a non-empty list. */
  function MaxPercentage(rs: seq<StoredResult>): (m: int)
    requires |rs| > 0
    ensures forall k :: 0 <= k < |rs| ==> rs[k].percentage <= m
    ensures exists k :: 0 <= k < |rs| && rs[k].percentage == m
  {
    if |rs| == 1 then rs[0].percentage
    else
      var rest := MaxPercentage(rs[1..]);
      assert forall k :: 1 <= k < |rs| ==> rs[k] == rs[1..][k - 1];
      if rs[0].percentage >= rest then rs[0].percentage else rest
  }

  /** The lowest percentage (used only to bound the average). */
  function MinPercentage(rs: seq<StoredResult>): (m: int)
    requires |rs| > 0
    ensures forall k :: 0 <= k < |rs| ==> m <= rs[k].percentage
    ensures exists k :: 0 <= k < |rs| && rs[k].percentage == m
  {
    if |rs| == 1 then rs[0].percentage
    else
      var rest := MinPercentage(rs[1..]);
      assert forall k :: 1 <= k < |rs| ==> rs[k] == rs[1..][k - 1];
      if rs[0].percentage <= rest then rs[0].percentage else rest
  }

  /** `Math.round(sum / n)`: the nearest integer to the mean, halves rounded
      up, i.e. `a - 1/2 <= sum / n < a + 1/2`. */
  function AverageScore(rs: seq<StoredResult>): (a: int)
    requires |rs| > 0
    ensures |rs| * (2 * a - 1) <= 2 * SumPercentages(rs) < |rs| * (2 * a + 1)
  {
    NearestHalfUp(2 * SumPercentages(rs), |rs|);
    (2 * SumPercentages(rs) + |rs|) / (2 * |rs|)
  }

  lemma {:induction false} SumBetween(rs: seq<StoredResult>, lo: int, hi: int)
    requires forall k :: 0 <= k < |rs| ==> lo <= rs[k].percentage <= hi
    ensures |rs| * lo <= SumPercentages(rs) <= |rs| * hi
  {
    if rs != [] {
      assert forall k :: 0 <= k < |rs| - 1 ==> rs[1..][k] == rs[k + 1];
      SumBetween(rs[1..], lo, hi);
      assert |rs| * lo == lo + (|rs| - 1) * lo && |rs| * hi == hi + (|rs| - 1) * hi;
    }
  }

  /** The integer nearest to the mean `s / n` of values in `[lo, hi]` is
      itself in `[lo, hi]`. */
  lemma RoundedMeanBetween(s: int, n: int, a: int, lo: int, hi: int)
    requires n > 0 && n * lo <= s <= n * hi
    requires n * (2 * a - 1) <= 2 * s < n * (2 * a + 1)
    ensures lo <= a <= hi
  {
    assert n * (2 * a - 1) < n * (2 * hi + 1) by {
      assert n * (2 * hi + 1) == 2 * (n * hi) + n;
    }
    MulCancelLess(n, 2 * a - 1, 2 * hi + 1);
    assert n * (2 * lo) < n * (2 * a + 1) by {
      assert n * (2 * lo) == 2 * (n * lo);
    }
    MulCancelLess(n, 2 * lo, 2 * a + 1);
  }

  /** The rounded average lies between the lowest and the best score; in
      particular `averageScore <= bestScore`. */
  lemma AverageBetweenMinAndBest(rs: seq<StoredResult>)
    requires |rs| > 0
    ensures MinPercentage(rs) <= AverageScore(rs) <= MaxPercentage(rs)
  {
    var s, n, a, lo, hi := SumPercentages(rs), |rs|, AverageScore(rs), MinPercentage(rs), MaxPercentage(rs);
    SumBetween(rs, lo, hi);
    assert n * lo <= s <= n * hi;
    assert n * (2 * a - 1) <= 2 * s < n * (2 * a + 1);
    RoundedMeanBetween(s, n, a, lo, hi);
  }

  /** The set behind `new Set(ids).size`. */
  function IdSet(ids: seq<string>): (s: set<string>)
    ensures forall k :: 0 <= k < |ids| ==> ids[k] in s
    ensures forall x :: x in s ==> exists k :: 0 <= k < |ids| && ids[k] == x
  {
    set k | 0 <= k < |ids| :: ids[k]
  }

  /** There are never more distinct ids than ids, and at least one when
      there are any. */
  lemma {:induction false} DistinctIdsBounds(ids: seq<string>)
    ensures |IdSet(ids)| <= |ids|
    ensures |ids| > 0 ==> |IdSet(ids)| >= 1
  {
    if ids != [] {
      var rest := ids[1..];
      DistinctIdsBounds(rest);
      assert IdSet(ids) == IdSet(rest) + {ids[0]} by {
        forall x | x in IdSet(ids) ensures x in IdSet(rest) + {ids[0]} {
          var k :| 0 <= k < |ids| && ids[k] == x;
          if k > 0 { assert rest[k - 1] == x; }
        }
        forall x | x in IdSet(rest) ensures x in IdSet(ids) {
          var k :| 0 <= k < |rest| && rest[k] == x;
          assert ids[k + 1] == x;
        }
      }
      assert ids[0] in IdSet(ids);
    }
  }

  /** `quizData.slice(0, 5)`. */
  function RecentQuizzes(rs: seq<StoredResult>): (recent: seq<StoredResult>)
    ensures |recent| == Min(5, |rs|)
    ensures recent == rs[..|recent|]
  {
    if |rs| <= 5 then rs else rs[..5]
  }

  // ---------------------------------------------------------------------
  // getUserStats: the streak

  const DayMs: int := 86_400_000

  /** `Math.floor((check - t) / (1000 * 60 * 60 * 24))`: the number of whole
      days from `t` to `check`, rounded down (negative for a later `t`). */
  function DaysDiff(check: int, t: int): (d: int)
    ensures DayMs * d <= check - t < DayMs * (d + 1)
  {
    (check - t) / DayMs
  }

  /** Later timestamps are no more days back. */
  lemma DaysDiffAntitone(check: int, t: int, u: int)
    requires u <= t
    ensures DaysDiff(check, t) <= DaysDiff(check, u)
  {
    var a, b := check - t, check - u;
    assert a <= b;
    var qa, qb := a / DayMs, b / DayMs;
    assert a == DayMs * qa + a % DayMs && b == DayMs * qb + b % DayMs;
    MulCancelLess(DayMs, qa, qb + 1);
  }

  /** The streak loop as written: compare the days between `checkDate` and
      each result with the streak so far; on a match count it and move
      `checkDate` one day back, on a larger gap stop. */
  function StreakAsWritten(ts: seq<int>, checkDate: int, streak: nat): (r: nat)
    ensures streak <= r <= streak + |ts|
  {
    if ts == [] then streak
    else
      var d := DaysDiff(checkDate, ts[0]);
      if d == streak then StreakAsWritten(ts[1..], checkDate - DayMs, streak + 1)
      else if d > streak then streak
      else StreakAsWritten(ts[1..], checkDate, streak)
  }

  /** The loop of lines 172-186 as written. */
  method CurrentStreakAsWritten(ts: seq<int>, now: int) returns (streak: nat)
    ensures streak == StreakAsWritten(ts, now, 0)
    ensures streak <= |ts|
  {
    streak := 0;
    var checkDate := now;
    var i := 0;
    while i < |ts|
      invariant 0 <= i <= |ts|
      invariant StreakAsWritten(ts[i..], checkDate, streak) == StreakAsWritten(ts, now, 0)
    {
      assert ts[i..][1..] == ts[i + 1..];
      var daysDiff := DaysDiff(checkDate, ts[i]);
      if daysDiff == streak {
        streak := streak + 1;
        checkDate := checkDate - DayMs;
      } else if daysDiff > streak {
        break;
      }
      i := i + 1;
    }
  }

  /** Results today, yesterday and the day before score a streak of 2: the
      day offset is counted twice, once by moving `checkDate` and once by
      comparing with the grown streak. */
  lemma StreakAsWrittenUndercounts(now: int)
    ensures StreakAsWritten([now, now - DayMs, now - 2 * DayMs], now, 0) == 2
  {
    var yesterday, before := now - DayMs, now - 2 * DayMs;
    assert DaysDiff(now, now) == 0 && DaysDiff(yesterday, yesterday) == 0;
    assert DaysDiff(yesterday, before) == 1;
    assert StreakAsWritten([before], yesterday, 1) == 2 by {
      assert [before][1..] == [];
    }
    assert StreakAsWritten([yesterday, before], yesterday, 1) == 2 by {
      assert [yesterday, before][1..] == [before];
    }
    assert [now, yesterday, before][1..] == [yesterday, before];
  }

  /** The days back from `now` of each timestamp. */
  function DaysBack(ts: seq<int>, now: int): (ds: seq<int>)
    ensures |ds| == |ts|
    ensures forall k :: 0 <= k < |ts| ==> ds[k] == DaysDiff(now, ts[k])
  {
    if ts == [] then [] else [DaysDiff(now, ts[0])] + DaysBack(ts[1..], now)
  }

  /** The intended streak: walk the day offsets; an offset equal to the
      streak extends it, a larger one ends it, a smaller one (a second quiz
      on an already counted day) is skipped. */
  function DayStreak(ds: seq<int>, streak: nat): (r: nat)
    ensures streak <= r <= streak + |ds|
  {
    if ds == [] then streak
    else if ds[0] == streak then DayStreak(ds[1..], streak + 1)
    else if ds[0] > streak then streak
    else DayStreak(ds[1..], streak)
  }

  /** The corrected streak loop: `checkDate` stays at today. */
  method ConsecutiveDayStreak(ts: seq<int>, now: int) returns (streak: nat)
    ensures streak == DayStreak(DaysBack(ts, now), 0)
    ensures streak <= |ts|
  {
    streak := 0;
    var ds := DaysBack(ts, now);
    var i := 0;
    while i < |ts|
      invariant 0 <= i <= |ts|
      invariant DayStreak(ds[i..], streak) == DayStreak(ds, 0)
    {
      assert ds[i..][1..] == ds[i + 1..];
      var daysDiff := DaysDiff(now, ts[i]);
      if daysDiff == streak {
        streak := streak + 1;
      } else if daysDiff > streak {
        break;
      }
      i := i + 1;
    }
  }

  /** Every day from `streak` up to the result has a quiz. */
  lemma {:induction false} DayStreakDaysPresent(ds: seq<int>, streak: nat, d: int)
    requires streak <= d < DayStreak(ds, streak)
    ensures d in ds
  {
    if ds != [] && ds[0] != d {
      if ds[0] == streak {
        DayStreakDaysPresent(ds[1..], streak + 1, d);
      } else {
        DayStreakDaysPresent(ds[1..], streak, d);
      }
    }
  }

  predicate NonDecreasing(ds: seq<int>)
  {
    forall i, j :: 0 <= i < j < |ds| ==> ds[i] <= ds[j]
  }

  /** On results ordered newest first, the day the streak stops at has no
      quiz: the streak is the full run of consecutive days. */
  lemma {:induction false} DayStreakStopsAtGap(ds: seq<int>, streak: nat)
    requires NonDecreasing(ds)
    ensures DayStreak(ds, streak) !in ds
  {
    if ds != [] {
      var rest := ds[1..];
      assert NonDecreasing(rest);
      assert ds == [ds[0]] + rest;
      if ds[0] == streak {
        DayStreakStopsAtGap(rest, streak + 1);
      } else if ds[0] < streak {
        DayStreakStopsAtGap(rest, streak);
      } else {
        assert forall k :: 0 <= k < |ds| ==> ds[0] <= ds[k];
      }
    }
  }

  /** Newest-first timestamps give non-decreasing day offsets. */
  lemma DaysBackOrdered(ts: seq<int>, now: int)
    requires forall i, j :: 0 <= i < j < |ts| ==> ts[j] <= ts[i]
    ensures NonDecreasing(DaysBack(ts, now))
  {
    var ds := DaysBack(ts, now);
    forall i, j | 0 <= i < j < |ds| ensures ds[i] <= ds[j] {
      DaysDiffAntitone(now, ts[i], ts[j]);
    }
  }

  /** Results today, yesterday and the day before give a streak of 3. */
  lemma ConsecutiveDayStreakCountsThree(now: int)
    ensures DayStreak(DaysBack([now, now - DayMs, now - 2 * DayMs], now), 0) == 3
  {
    var ds := DaysBack([now, now - DayMs, now - 2 * DayMs], now);
    assert DaysDiff(now, now) == 0 && DaysDiff(now, now - DayMs) == 1 && DaysDiff(now, now - 2 * DayMs) == 2;
    assert ds == [0, 1, 2];
    assert DayStreak([2], 2) == 3 by {
      assert [2][1..] == [];
    }
    assert DayStreak([1, 2], 1) == 3 by {
      assert [1, 2][1..] == [2];
    }
    assert [0, 1, 2][1..] == [1, 2];
  }

  // ---------------------------------------------------------------------
  // getUserStats

  const UnexpectedStatsError: string := "An unexpected error occurred while calculating statistics"

  function EmptyStats(): UserStats
  {
    UserStats(0, 0, 0, 0, 0, [])
  }

  /** `getUserStats` over the two query outcomes. The quiz query returns the
      user's results newest first; the answers query the character ids of
      their answers. */
  method GetUserStats(quizQuery: Call<seq<StoredResult>>, answersQuery: Call<seq<string>>, now: int)
    returns (r: StatsResponse)
    ensures quizQuery.Errored? ==> r == StatsResponse(None, Some(quizQuery.message))
    ensures quizQuery.Threw? ==> r == StatsResponse(None, Some(UnexpectedStatsError))
    ensures quizQuery == Returned([]) ==> r == StatsResponse(Some(EmptyStats()), None)
    ensures quizQuery.Returned? && |quizQuery.data| > 0 && answersQuery.Threw? ==>
      r == StatsResponse(None, Some(UnexpectedStatsError))
    ensures r.stats.Some? <==> quizQuery.Returned? && (|quizQuery.data| == 0 || !answersQuery.Threw?)
    ensures r.stats.Some? ==> r.error == None
    ensures r.stats.Some? && quizQuery.Returned? && |quizQuery.data| > 0 ==>
      var rs, s := quizQuery.data, r.stats.value;
      && s.totalQuizzes == |rs|
      && s.averageScore == AverageScore(rs)
      && s.bestScore == MaxPercentage(rs)
      && s.totalCharactersPracticed == (if answersQuery.Errored? then 0 else |IdSet(answersQuery.data)|)
      && s.currentStreak == DayStreak(DaysBack(CreatedTimes(rs), now), 0)
      && s.currentStreak <= |rs|
      && s.recentQuizzes == RecentQuizzes(rs)
  {
    match quizQuery {
      case Threw =>
        r := StatsResponse(None, Some(UnexpectedStatsError));
      case Errored(msg) =>
        r := StatsResponse(None, Some(msg));
      case Returned(rs) =>
        if |rs| == 0 {
          r := StatsResponse(Some(EmptyStats()), None);
        } else {
          var average := AverageScore(rs);
          var best := MaxPercentage(rs);
          match answersQuery {
            case Threw =>
              r := StatsResponse(None, Some(UnexpectedStatsError));
            case Errored(_) =>
              var streak := ConsecutiveDayStreak(CreatedTimes(rs), now);
              r := StatsResponse(Some(UserStats(|rs|, average, 0, streak, best, RecentQuizzes(rs))), None);
            case Returned(ids) =>
              var streak := ConsecutiveDayStreak(CreatedTimes(rs), now);
              r := StatsResponse(Some(UserStats(|rs|, average, |IdSet(ids)|, streak, best, RecentQuizzes(rs))), None);
          }
        }
    }
  }

  /** `quizData.map(q => q.created_at)`. */
  function CreatedTimes(rs: seq<StoredResult>): (ts: seq<int>)
    ensures |ts| == |rs|
    ensures forall k :: 0 <= k < |rs| ==> ts[k] == rs[k].createdAt
  {
    if rs == [] then [] else [rs[0].createdAt] + CreatedTimes(rs[1..])
  }
}
