/**
 * The quiz screen of components/quiz/quiz-taker.tsx: the question index, the
 * recorded answers, the countdown and the completion flag, updated by the
 * Next, Previous and answer buttons and by the one-second timer.
 */
module QuizTaker {
  import opened QuizModel
  import opened Clock

  /** The countdown starts at five minutes. */
  const TimeLimit: nat := 300

  /** Values as `===` compares them: a question's correct answer is text, a recorded choice a number. */
  datatype JsValue = JsString(text: string) | JsNumber(value: int)

  /** `shuffledQuestions[k].correctAnswer === answerIndex`, as written. */
  predicate Hit(q: Question, choice: int) {
    JsString(q.correctAnswer) == JsNumber(choice)
  }

  /** The filter test of the score, for the question list `questions`. */
  function ScoreTest(questions: seq<Question>): (nat, int) -> bool {
    (k: nat, choice: int) => k < |questions| && Hit(questions[k], choice)
  }

  /** The score shown on completion: the recorded answers that pass the test. */
  function Score(questions: seq<Question>, answers: map<int, int>): (r: nat)
    requires forall k :: k in answers ==> 0 <= k < |questions|
    ensures r <= |answers| <= |questions|
  {
    AnsweredIsSize(answers.Keys, |questions|);
    CountWhere(answers, |questions|, ScoreTest(questions))
  }

  /**
   * A text never strictly equals a number, so whatever was answered the score
   * as written is 0.
   */
  lemma ScoreIsZero(questions: seq<Question>, answers: map<int, int>)
    requires forall k :: k in answers ==> 0 <= k < |questions|
    ensures Score(questions, answers) == 0
  {
    CountNone(answers, |questions|, ScoreTest(questions));
  }

  class Taker {
    var questions: seq<Question>
    var index: int
    var answers: map<int, int>
    var timeLeft: int
    var isComplete: bool

    /**
     * The index stays on a question (0 while nothing is loaded), the clock
     * between 0 and the limit, a run-out clock means the quiz is complete,
     * and answers are recorded only for questions, as option positions.
     */
    ghost predicate Valid()
      reads this
    {
      && 0 <= index && (index < |questions| || index == 0)
      && 0 <= timeLeft <= TimeLimit
      && (timeLeft == 0 ==> isComplete)
      && forall k :: k in answers ==> 0 <= k < |questions| && 0 <= answers[k] < |questions[k].options|
    }

    /** Anything but the loading screen needs at least one question. */
    predicate Loaded()
      reads this
    {
      |questions| > 0
    }

    /** The screen once the quiz's questions were shuffled into `shuffled`. */
    constructor (quiz: seq<Question>, shuffled: seq<Question>)
      requires multiset(shuffled) == multiset(quiz)
      ensures Valid()
      ensures questions == shuffled && index == 0 && answers == map[]
      ensures timeLeft == TimeLimit && !isComplete
    {
      questions := shuffled;
      index := 0;
      answers := map[];
      timeLeft := TimeLimit;
      isComplete := false;
    }

    /** handleAnswer: records the choice for the current question, replacing an earlier one. */
    method Answer(choice: int)
      requires Valid() && Loaded() && !isComplete
      requires 0 <= choice < |questions[index].options|
      modifies this`answers
      ensures Valid()
      ensures answers == old(answers)[index := choice]
    {
      answers := answers[index := choice];
    }

    /** handleNext: moves on, or on the last question completes the quiz. */
    method Next()
      requires Valid() && Loaded() && !isComplete
      modifies this`index, this`isComplete
      ensures Valid()
      ensures old(index) < |questions| - 1 ==> index == old(index) + 1 && !isComplete
      ensures old(index) == |questions| - 1 ==> index == old(index) && isComplete
    {
      if index < |questions| - 1 {
        index := index + 1;
      } else {
        isComplete := true;
      }
    }

    /** handlePrevious: moves back unless on the first question. */
    method Previous()
      requires Valid() && Loaded() && !isComplete
      modifies this`index
      ensures Valid()
      ensures old(index) > 0 ==> index == old(index) - 1
      ensures old(index) == 0 ==> index == 0
    {
      if index > 0 {
        index := index - 1;
      }
    }

    /**
     * One second of the timer: the interval lowers the clock while it is
     * positive, and the effect that sees it at 0 completes the quiz.
     */
    method Tick()
      requires Valid()
      modifies this`timeLeft, this`isComplete
      ensures Valid()
      ensures old(timeLeft) > 0 ==> timeLeft == old(timeLeft) - 1
      ensures old(timeLeft) == 0 ==> timeLeft == 0
      ensures isComplete == (old(isComplete) || timeLeft == 0)
    {
      if timeLeft > 0 {
        timeLeft := timeLeft - 1;
      }
      if timeLeft <= 0 {
        isComplete := true;
      }
    }

    /** The `m:ss` clock in the header: it shows the time left. */
    function ClockText(): (r: string)
      reads this
      requires Valid()
      ensures var c := ReadClock(r); c.Some? && c.value.0 * 60 + c.value.1 == timeLeft
    {
      ClockShowsTime(timeLeft);
      FormatClock(timeLeft)
    }

    /** `transformedQuestion.correctAnswer`: the first position of the correct text among the options, or -1. */
    function CorrectIndex(): (r: int)
      reads this
      requires Valid() && Loaded()
      ensures -1 <= r < |questions[index].options|
      ensures r == -1 <==> questions[index].correctAnswer !in questions[index].options
      ensures r >= 0 ==> questions[index].options[r] == questions[index].correctAnswer
      ensures forall j :: 0 <= j < r ==> questions[index].options[j] != questions[index].correctAnswer
    {
      IndexOf(questions[index].options, questions[index].correctAnswer)
    }

    /** The score handed to the results screen: always 0 with text correct answers. */
    function FinalScore(): (r: nat)
      reads this
      requires Valid()
      ensures r == 0
    {
      ScoreIsZero(questions, answers);
      Score(questions, answers)
    }
  }
}
