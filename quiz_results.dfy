/**
 * The results screen of components/quiz/quiz-results.tsx: the rounded
 * percentage, the pass mark, the message, the correct and incorrect counts
 * and the time spent.
 */
module QuizResults {
  import opened Wrappers
  import opened Clock

  lemma RoundHalfUp(score: nat, total: nat, r: int)
    requires total > 0 && r == (200 * score + total) / (2 * total)
    ensures -(total as int) <= 200 * score - 2 * total * r < total
    ensures score <= total ==> 0 <= r <= 100
  {
    assert 2 * total * r <= 200 * score + total < 2 * total * (r + 1);
    if score <= total {
      assert 2 * total * r <= 2 * total * 100 + total < 2 * total * 101;
    }
  }

  /**
   * `Math.round(score / total * 100)` on exact rationals: the integer nearest
   * to 100·score/total, a tie rounding up.
   */
  function Percentage(score: nat, total: nat): (r: int)
    requires total > 0
    ensures -(total as int) <= 200 * score - 2 * total * r < total
    ensures score <= total ==> 0 <= r <= 100
  {
    var r := (200 * score + total) / (2 * total);
    RoundHalfUp(score, total, r);
    r
  }

  /** The 60% pass mark. */
  predicate IsPassed(percentage: int) {
    percentage >= 60
  }

  lemma ScaleMonotone(t: nat, x: int, y: int)
    requires x <= y
    ensures t * x <= t * y
  {
    assert t * y - t * x == t * (y - x);
  }

  /** Reaching the pass mark after rounding: at least 59.5% of the answers are correct. */
  lemma PassedIff(score: nat, total: nat)
    requires total > 0
    ensures IsPassed(Percentage(score, total)) <==> 200 * score >= 119 * total
  {
    var r := Percentage(score, total);
    if r >= 60 {
      ScaleMonotone(total, 60, r);
    } else {
      ScaleMonotone(total, r, 59);
    }
  }

  /** Every answer correct gives 100%; 100% needs at least 99.5% of the answers correct. */
  lemma PerfectIff(score: nat, total: nat)
    requires total > 0
    ensures score == total ==> Percentage(score, total) == 100
    ensures Percentage(score, total) == 100 ==> 200 * score >= 199 * total
  {
    var r := Percentage(score, total);
    if r <= 99 {
      ScaleMonotone(total, r, 99);
    } else if r >= 101 {
      ScaleMonotone(total, 101, r);
    }
  }

  /*
   * The four messages with the characters the results screen's file holds:
   * each emoji was saved as its UTF-8 bytes read as Windows-1252 text (the
   * thumbs-up loses its last byte, which Windows-1252 leaves undefined), so
   * the screen shows these characters rather than the emoji.
   */
  const PerfectMessage: string := "Perfect Score! \U{00F0}\U{0178}\U{017D}\U{2030}"
  const ExcellentMessage: string := "Excellent Work! \U{00F0}\U{0178}\U{0152}\U{0178}"
  const GoodJobMessage: string := "Good Job! \U{00F0}\U{0178}\U{2018}"
  const KeepPracticingMessage: string := "Keep Practicing! \U{00F0}\U{0178}\U{2019}\U{00AA}"

  /** getResultMessage: the band of the percentage; every message but the last means a pass. */
  function ResultMessage(percentage: int): (r: string)
    ensures r == PerfectMessage <==> percentage == 100
    ensures r == ExcellentMessage <==> percentage != 100 && percentage >= 80
    ensures r == GoodJobMessage <==> 60 <= percentage < 80
    ensures r == KeepPracticingMessage <==> percentage < 60
    ensures r != KeepPracticingMessage <==> IsPassed(percentage)
  {
    if percentage == 100 then PerfectMessage
    else if percentage >= 80 then ExcellentMessage
    else if percentage >= 60 then GoodJobMessage
    else KeepPracticingMessage
  }

  /** formatTime: "N/A" for a missing or zero time, otherwise the `m:ss` clock of it. */
  function FormatTime(seconds: Option<nat>): (r: string)
    ensures r == "N/A" <==> seconds.None? || seconds == Some(0)
    ensures seconds.Some? && seconds.value > 0 ==>
              var c := ReadClock(r); c.Some? && c.value.0 * 60 + c.value.1 == seconds.value
  {
    if seconds.None? || seconds.value == 0 then "N/A"
    else
      ClockShowsTime(seconds.value);
      FormatClock(seconds.value)
  }

  /** The results handed to the screen. */
  datatype Results = Results(quizTitle: string, score: nat, totalQuestions: nat, timeSpent: Option<nat>)

  /** Everything the screen derives from the results. */
  datatype Summary = Summary(
    percentage: int,
    passed: bool,
    message: string,
    correct: nat,
    incorrect: int,
    time: string)

  /**
   * The values on the results screen: the score and the rest of the total as
   * the correct and incorrect counts, the rounded percentage with its message
   * and pass status, and the time spent.
   */
  function Summarize(results: Results): (s: Summary)
    requires results.totalQuestions > 0
    ensures s.correct + s.incorrect == results.totalQuestions
    ensures s.passed <==> s.message != KeepPracticingMessage
    ensures s.passed <==> 200 * results.score >= 119 * results.totalQuestions
    ensures results.score <= results.totalQuestions ==> 0 <= s.percentage <= 100 && 0 <= s.incorrect
    ensures s.time == "N/A" <==> results.timeSpent.None? || results.timeSpent == Some(0)
    ensures s.correct == results.score && s.incorrect == results.totalQuestions - results.score
    ensures s.percentage == Percentage(results.score, results.totalQuestions)
    ensures s.message == ResultMessage(s.percentage)
    ensures s.time == FormatTime(results.timeSpent)
  {
    var p := Percentage(results.score, results.totalQuestions);
    PassedIff(results.score, results.totalQuestions);
    Summary(p, IsPassed(p), ResultMessage(p), results.score, results.totalQuestions - results.score,
            FormatTime(results.timeSpent))
  }
}
