/**
 * The dashboard quiz screen of components/dashboard/quiz-taking.tsx: like the
 * quiz screen, plus the reshuffle of every question's options with the new
 * position of the correct option, the text-based score and the completion
 * report.
 */
module QuizTaking {
  import opened Wrappers
  import opened QuizModel
  import opened Clock

  const TimeLimit: nat := 300

  /** A question after the reshuffle: the quiz question with new options and the correct option's new position. */
  datatype ShuffledQuestion = ShuffledQuestion(
    question: string,
    options: seq<string>,
    correctAnswer: string,
    originalCorrectIndex: int)

  /** The recorded position of the correct option is where `findIndex` finds its text. */
  predicate Consistent(q: ShuffledQuestion) {
    q.originalCorrectIndex == IndexOf(q.options, q.correctAnswer)
  }

  /** One question with its options shuffled into `options`. */
  function Remap(q: Question, options: seq<string>): (r: ShuffledQuestion)
    requires multiset(options) == multiset(q.options)
    ensures r.question == q.question && r.correctAnswer == q.correctAnswer && r.options == options
    ensures Consistent(r)
    ensures -1 <= r.originalCorrectIndex < |r.options|
    ensures r.originalCorrectIndex == -1 <==> q.correctAnswer !in q.options
    ensures r.originalCorrectIndex >= 0 ==> r.options[r.originalCorrectIndex] == q.correctAnswer
  {
    assert q.correctAnswer in options <==> q.correctAnswer in multiset(q.options);
    ShuffledQuestion(q.question, options, q.correctAnswer, IndexOf(options, q.correctAnswer))
  }

  /** `options[i]` is a shuffle of question i's options. */
  predicate ShuffledOptions(quiz: seq<Question>, options: seq<seq<string>>) {
    |options| == |quiz| && forall i :: 0 <= i < |quiz| ==> multiset(options[i]) == multiset(quiz[i].options)
  }

  /** Every question of the quiz, in the quiz's order, with its shuffled options. */
  function RemapAll(quiz: seq<Question>, options: seq<seq<string>>): (r: seq<ShuffledQuestion>)
    requires ShuffledOptions(quiz, options)
    ensures |r| == |quiz| && forall i :: 0 <= i < |quiz| ==> r[i] == Remap(quiz[i], options[i])
  {
    seq(|quiz|, i requires 0 <= i < |quiz| => Remap(quiz[i], options[i]))
  }

  /**
   * The list the screen works on: a shuffle of the remapped questions. It has
   * as many questions as the quiz, and each is a quiz question with its own
   * shuffled options.
   */
  lemma ShuffledFromQuiz(quiz: seq<Question>, options: seq<seq<string>>, shuffled: seq<ShuffledQuestion>, j: nat)
    requires ShuffledOptions(quiz, options)
    requires multiset(shuffled) == multiset(RemapAll(quiz, options))
    requires j < |shuffled|
    ensures |shuffled| == |quiz|
    ensures exists i :: 0 <= i < |quiz| && shuffled[j] == Remap(quiz[i], options[i])
  {
    var all := RemapAll(quiz, options);
    assert |shuffled| == |multiset(shuffled)| == |multiset(all)| == |all|;
    assert shuffled[j] in multiset(all);
    var i :| 0 <= i < |all| && all[i] == shuffled[j];
  }

  /** `options[answerIndex] === correctAnswer`: the chosen option's text is the correct text. */
  predicate Hit(q: ShuffledQuestion, choice: int) {
    0 <= choice < |q.options| && q.options[choice] == q.correctAnswer
  }

  function ScoreTest(questions: seq<ShuffledQuestion>): (nat, int) -> bool {
    (k: nat, choice: int) => k < |questions| && Hit(questions[k], choice)
  }

  /** The score: recorded answers whose chosen option is the correct text. */
  function Score(questions: seq<ShuffledQuestion>, answers: map<int, int>): (r: nat)
    requires forall k :: k in answers ==> 0 <= k < |questions|
    ensures r <= |answers| <= |questions|
  {
    AnsweredIsSize(answers.Keys, |questions|);
    CountWhere(answers, |questions|, ScoreTest(questions))
  }

  /** When every recorded choice is the correct option, the score is the number of answers. */
  lemma AllCorrectScore(questions: seq<ShuffledQuestion>, answers: map<int, int>)
    requires forall k :: k in answers ==> 0 <= k < |questions|
    requires forall k :: k in answers ==> Hit(questions[k], answers[k])
    ensures Score(questions, answers) == |answers|
  {
    AnsweredIsSize(answers.Keys, |questions|);
    CountAll(answers, |questions|, ScoreTest(questions));
  }

  /** A choice that never names the correct text scores nothing. */
  lemma AllWrongScore(questions: seq<ShuffledQuestion>, answers: map<int, int>)
    requires forall k :: k in answers ==> 0 <= k < |questions|
    requires forall k :: k in answers ==> !Hit(questions[k], answers[k])
    ensures Score(questions, answers) == 0
  {
    var zero := (k: nat, choice: int) => false;
    CountAgree(answers, |questions|, ScoreTest(questions), zero);
    CountNone(answers, |questions|, zero);
  }

  /** A list holds no text twice. */
  predicate Distinct(s: seq<string>) {
    forall i, j :: 0 <= i < j < |s| ==> s[i] != s[j]
  }

  /**
   * With options that are all different, comparing texts is comparing
   * positions: the score counts the answers equal to the recorded correct position.
   */
  lemma ScoreByPosition(questions: seq<ShuffledQuestion>, answers: map<int, int>)
    requires forall k :: k in answers ==> 0 <= k < |questions| && 0 <= answers[k]
    requires forall k :: 0 <= k < |questions| ==> Consistent(questions[k]) && Distinct(questions[k].options)
    ensures Score(questions, answers)
         == CountWhere(answers, |questions|, (k: nat, choice: int) => k < |questions| && choice == questions[k].originalCorrectIndex)
  {
    var byPosition := (k: nat, choice: int) => k < |questions| && choice == questions[k].originalCorrectIndex;
    forall k: nat | k < |questions| && k in answers
      ensures ScoreTest(questions)(k, answers[k]) <==> byPosition(k, answers[k])
    {
      var q, a := questions[k], answers[k];
      if Hit(q, a) {
        var c := q.originalCorrectIndex;
        assert 0 <= c && q.options[c] == q.correctAnswer;
        assert !(a < c) && !(c < a);
      }
    }
    CountAgree(answers, |questions|, ScoreTest(questions), byPosition);
  }

  /** What `onComplete` reports. */
  datatype Completion = Completion(quizTitle: string, score: nat, totalQuestions: nat, timeSpent: nat)

  class Taking {
    const title: string
    var questions: seq<ShuffledQuestion>
    var index: int
    var answers: map<int, int>
    var timeLeft: int
    var isComplete: bool

    ghost predicate Valid()
      reads this
    {
      && 0 <= index && (index < |questions| || index == 0)
      && 0 <= timeLeft <= TimeLimit
      && (timeLeft == 0 ==> isComplete)
      && (forall k :: k in answers ==> 0 <= k < |questions| && 0 <= answers[k] < |questions[k].options|)
      && forall k :: 0 <= k < |questions| ==> Consistent(questions[k])
    }

    predicate Loaded()
      reads this
    {
      |questions| > 0
    }

    /**
     * The screen once every question's options were shuffled into `options`
     * and the remapped questions into `shuffled`.
     */
    constructor (quizTitle: string, quiz: seq<Question>, options: seq<seq<string>>, shuffled: seq<ShuffledQuestion>)
      requires ShuffledOptions(quiz, options)
      requires multiset(shuffled) == multiset(RemapAll(quiz, options))
      ensures Valid()
      ensures title == quizTitle && questions == shuffled && index == 0 && answers == map[]
      ensures timeLeft == TimeLimit && !isComplete
    {
      title := quizTitle;
      questions := shuffled;
      index := 0;
      answers := map[];
      timeLeft := TimeLimit;
      isComplete := false;
      forall j | 0 <= j < |shuffled|
        ensures Consistent(shuffled[j])
      {
        ShuffledFromQuiz(quiz, options, shuffled, j);
      }
    }

    /** handleAnswer: records the choice for the current question only. */
    method Answer(choice: int)
      requires Valid() && Loaded() && !isComplete
      requires 0 <= choice < |questions[index].options|
      modifies this`answers
      ensures Valid()
      ensures answers == old(answers)[index := choice]
    {
      answers := answers[index := choice];
    }

    /** handleNext: moves on, or on the last question completes the quiz. */
    method Next()
      requires Valid() && Loaded() && !isComplete
      modifies this`index, this`isComplete
      ensures Valid()
      ensures old(index) < |questions| - 1 ==> index == old(index) + 1 && !isComplete
      ensures old(index) == |questions| - 1 ==> index == old(index) && isComplete
    {
      if index < |questions| - 1 {
        index := index + 1;
      } else {
        isComplete := true;
      }
    }

    /** handlePrevious: moves back unless on the first question. */
    method Previous()
      requires Valid() && Loaded() && !isComplete
      modifies this`index
      ensures Valid()
      ensures old(index) > 0 ==> index == old(index) - 1
      ensures old(index) == 0 ==> index == 0
    {
      if index > 0 {
        index := index - 1;
      }
    }

    /** One second of the timer, as on the quiz screen. */
    method Tick()
      requires Valid()
      modifies this`timeLeft, this`isComplete
      ensures Valid()
      ensures old(timeLeft) > 0 ==> timeLeft == old(timeLeft) - 1
      ensures old(timeLeft) == 0 ==> timeLeft == 0
      ensures isComplete == (old(isComplete) || timeLeft == 0)
    {
      if timeLeft > 0 {
        timeLeft := timeLeft - 1;
      }
      if timeLeft <= 0 {
        isComplete := true;
      }
    }

    /** The `m:ss` clock in the header: it shows the time left. */
    function ClockText(): (r: string)
      reads this
      requires Valid()
      ensures var c := ReadClock(r); c.Some? && c.value.0 * 60 + c.value.1 == timeLeft
    {
      ClockShowsTime(timeLeft);
      FormatClock(timeLeft)
    }

    /** `transformedQuestion.correctAnswer`: the correct option's first position after the shuffle, or -1. */
    function CorrectIndex(): (r: int)
      reads this
      requires Valid() && Loaded()
      ensures -1 <= r < |questions[index].options|
      ensures r == -1 <==> questions[index].correctAnswer !in questions[index].options
      ensures r >= 0 ==> questions[index].options[r] == questions[index].correctAnswer
      ensures forall j :: 0 <= j < r ==> questions[index].options[j] != questions[index].correctAnswer
      ensures r == IndexOf(questions[index].options, questions[index].correctAnswer)
    {
      questions[index].originalCorrectIndex
    }

    /**
     * The completion effect: it reports only once the quiz is complete and the
     * questions are loaded, with the score and the number of questions;
     * `timeSpent` is the elapsed wall-clock time in whole seconds.
     */
    function Completed(timeSpent: nat): (r: Option<Completion>)
      reads this
      requires Valid()
      ensures r.Some? <==> isComplete && |questions| > 0
      ensures r.Some? ==> r.value.quizTitle == title && r.value.timeSpent == timeSpent
      ensures r.Some? ==> r.value.totalQuestions == |questions| && r.value.score <= |answers| <= r.value.totalQuestions
      ensures r.Some? ==> r.value.score == Score(questions, answers)
    {
      if isComplete && |questions| > 0 then
        Some(Completion(title, Score(questions, answers), |questions|, timeSpent))
      else
        None
    }
  }
}
