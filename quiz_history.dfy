/**
 * The history screen of components/dashboard/quiz-history.tsx: the rows made
 * from the fetched attempts, their percentage and its colour band.
 */
module QuizHistory {
  import opened Wrappers
  import opened Clock
  import opened QuizResults

  /** One attempt as the server lists it; `timeSpent` may be missing. */
  datatype Attempt = Attempt(
    id: string,
    quizTitle: string,
    quizId: string,
    score: nat,
    totalQuestions: nat,
    percentage: int,
    timeSpent: Option<nat>,
    createdAt: string)

  /** One row of the history list. */
  datatype Row = Row(id: string, quizTitle: string, score: nat, totalQuestions: nat, date: string, time: string)

  /** The time column, `(timeSpent || 0)` as an `m:ss` clock: a missing time shows 0:00. */
  function AttemptTime(timeSpent: Option<nat>): (r: string)
    ensures var c := ReadClock(r); c.Some? && c.value.0 * 60 + c.value.1 == timeSpent.GetOr(0)
    ensures timeSpent.None? || timeSpent == Some(0) ==> r == "0:00"
  {
    ClockShowsTime(timeSpent.GetOr(0));
    FormatClock(timeSpent.GetOr(0))
  }

  /**
   * The `data.map` that builds the list: one row per attempt, in the same
   * order, with the attempt's fields copied and its time formatted.
   */
  function FormatAttempts(attempts: seq<Attempt>): (rows: seq<Row>)
    ensures |rows| == |attempts|
    ensures forall i :: 0 <= i < |rows| ==>
              && rows[i].id == attempts[i].id
              && rows[i].quizTitle == attempts[i].quizTitle
              && rows[i].score == attempts[i].score
              && rows[i].totalQuestions == attempts[i].totalQuestions
              && rows[i].date == attempts[i].createdAt
    ensures forall i :: 0 <= i < |rows| ==>
              var c := ReadClock(rows[i].time); c.Some? && c.value.0 * 60 + c.value.1 == attempts[i].timeSpent.GetOr(0)
  {
    if attempts == [] then []
    else
      var a := attempts[0];
      [Row(a.id, a.quizTitle, a.score, a.totalQuestions, a.createdAt, AttemptTime(a.timeSpent))]
        + FormatAttempts(attempts[1..])
  }

  const Green: string := "text-green-600"
  const Yellow: string := "text-yellow-600"
  const Red: string := "text-red-600"

  /**
   * getScoreColor: every percentage falls in exactly one band, and only the
   * red band is below the pass mark of the results screen.
   */
  function ScoreColor(percentage: int): (r: string)
    ensures r == Green <==> percentage >= 80
    ensures r == Yellow <==> 60 <= percentage < 80
    ensures r == Red <==> percentage < 60
    ensures r != Red <==> IsPassed(percentage)
  {
    if percentage >= 80 then Green
    else if percentage >= 60 then Yellow
    else Red
  }
}
