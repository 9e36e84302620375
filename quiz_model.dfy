/**
 * What both quiz screens share: a question as the quiz data declares it, the
 * `indexOf` lookup of its correct option, and the counting of recorded answers
 * (`Object.entries(answers).filter(…).length`).
 */
module QuizModel {

  /** One question of a quiz: its text, its options and the text of the correct option. */
  datatype Question = Question(question: string, options: seq<string>, correctAnswer: string)

  /** `s.indexOf(x)` (also `findIndex(o => o === x)`): the first position of x in s, or -1. */
  function IndexOf(s: seq<string>, x: string): (r: int)
    ensures -1 <= r < |s|
    ensures r == -1 <==> x !in s
    ensures r >= 0 ==> s[r] == x && forall j :: 0 <= j < r ==> s[j] != x
  {
    if s == [] then -1
    else if s[0] == x then 0
    else
      var k := IndexOf(s[1..], x);
      if k == -1 then -1 else k + 1
  }

  // ---------------------------------------------------------------- counting answers

  /** How many of the positions 0 … n-1 are in `keys` (the answered question indices). */
  function Answered(keys: set<int>, n: nat): (r: nat)
    ensures r <= n
  {
    if n == 0 then 0 else Answered(keys, n - 1) + (if n - 1 in keys then 1 else 0)
  }

  lemma {:induction false} AnsweredAgree(a: set<int>, b: set<int>, n: nat)
    requires forall k :: 0 <= k < n ==> (k in a <==> k in b)
    ensures Answered(a, n) == Answered(b, n)
  {
    if n > 0 {
      AnsweredAgree(a, b, n - 1);
    }
  }

  /** When every key is a position below n, the count is the number of keys. */
  lemma {:induction false} AnsweredIsSize(keys: set<int>, n: nat)
    requires forall k :: k in keys ==> 0 <= k < n
    ensures Answered(keys, n) == |keys|
    decreases n
  {
    if n == 0 {
      assert keys == {} by {
        forall k | k in keys ensures false { }
      }
    } else {
      var rest := keys - {n - 1};
      AnsweredAgree(keys, rest, n - 1);
      AnsweredIsSize(rest, n - 1);
      if n - 1 in keys {
        assert keys == rest + {n - 1};
      } else {
        assert keys == rest;
      }
    }
  }

  /**
   * The number of answered positions below n whose answer passes `hit`: the
   * length of `Object.entries(answers).filter(([k, a]) => hit(k, a))`.
   */
  function CountWhere(answers: map<int, int>, n: nat, hit: (nat, int) -> bool): (r: nat)
    ensures r <= Answered(answers.Keys, n)
  {
    if n == 0 then 0
    else CountWhere(answers, n - 1, hit) + (if n - 1 in answers && hit(n - 1, answers[n - 1]) then 1 else 0)
  }

  /** No answer passes: the count is zero. */
  lemma {:induction false} CountNone(answers: map<int, int>, n: nat, hit: (nat, int) -> bool)
    requires forall k: nat, a :: !hit(k, a)
    ensures CountWhere(answers, n, hit) == 0
  {
    if n > 0 {
      CountNone(answers, n - 1, hit);
    }
  }

  /** Every answer passes: the count is the number of answered positions. */
  lemma {:induction false} CountAll(answers: map<int, int>, n: nat, hit: (nat, int) -> bool)
    requires forall k: nat :: k < n && k in answers ==> hit(k, answers[k])
    ensures CountWhere(answers, n, hit) == Answered(answers.Keys, n)
  {
    if n > 0 {
      CountAll(answers, n - 1, hit);
    }
  }

  /** Two tests that agree on every recorded answer give the same count. */
  lemma {:induction false} CountAgree(answers: map<int, int>, n: nat, hit: (nat, int) -> bool, hit': (nat, int) -> bool)
    requires forall k: nat :: k < n && k in answers ==> (hit(k, answers[k]) <==> hit'(k, answers[k]))
    ensures CountWhere(answers, n, hit) == CountWhere(answers, n, hit')
  {
    if n > 0 {
      CountAgree(answers, n - 1, hit, hit');
    }
  }
}
