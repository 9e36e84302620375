# MathQuiz core, modelled in Dafny

MathQuiz is a small quiz web application. This project models the logic under its screens and proves properties of it:

- **The math-text prettifier** (`toPrettyMath`), which rewrites quiz text in four passes:
  - `\frac{a}{b}` becomes a fraction glyph;
  - every `$` is deleted;
  - a bare `a/b` becomes a fraction glyph;
  - an `x` between whitespace becomes `×`.

  Both fraction passes go through `simplifyToUnicode`, which does the following:
  - it reduces the fraction with `gcd` and keeps the sign;
  - it writes a precomposed glyph from `FRACTION_MAP` when there is one;
  - otherwise it writes `numerator U+2044 denominator` (U+2044 is FRACTION SLASH).
- **The two quiz screens.** Each has a question index, recorded answers, a five-minute countdown and a completion flag. They are driven by the Next, Previous and answer buttons and by a one-second timer.
- **The dashboard screen's option reshuffle.** After the shuffle it records where the correct option went.
- **The two score counts**, the completion report and the `m:ss` clock.
- **The results screen:**
  - the rounded percentage and the 60% pass mark;
  - the result message;
  - the correct and incorrect counts;
  - the time spent.
- **The history screen:** its rows, their time column and the colour band of a percentage.
- **The header:** the greeting's first name and the avatar initials.

## How the model is built

The model follows the source's form, file by file:

- **Regular expressions.** Each global `String.replace(/…/g, …)` is a left-to-right scanner (`MathRenderer.ReplaceAll`) over a matcher for the pattern.
  - Each matcher is greedy. `…Sound` and `…Complete` prove that it finds a match at a position exactly when the pattern's parts lie there.
  - For these three patterns, greedy and backtracking matching agree: no shorter run of digits or whitespace can be followed by the `/`, `\b`, `}` or `x` that comes next.
  - `\b` is the boundary between `[A-Za-z0-9_]` and anything else. `\s` is the ASCII whitespace set.
- **`gcd`** is a method with a `while` loop. It is proved against Euclid's recursion (`Fractions.Euclid`), whose properties are proved separately.
- **The quiz screens** are classes. Their fields are updated by methods whose `modifies` clauses name only the fields the matching handler sets.
- **Pure code** (percentages, messages, clocks, names) is modelled as functions.

`MathExamples` states what the model gives on concrete text, most of it taken from the quiz content. Each such lemma takes a string that spells the literal character by character (`Spells`); this keeps the proofs small.

## Model

| member | source | states |
|---|---|---|
| Fractions.GcdOf | components/ui/math-renderer.tsx:38-46 | the result of `gcd` is at least 1 for every input |
| Fractions.Gcd | components/ui/math-renderer.tsx:38-46 | the `while` loop ends and returns Euclid's gcd of the absolute values, or 1 when both are 0 |
| Fractions.GcdIsGreatestCommonDivisor | components/ui/math-renderer.tsx:38-46 | gcd(0,0) = 1; otherwise the result divides \|a\| and \|b\|, and every common divisor divides it |
| Fractions.EuclidDividesBoth | components/ui/math-renderer.tsx:40-44 | the value the loop ends with divides both starting values |
| Fractions.EuclidGreatest | components/ui/math-renderer.tsx:40-44 | every common divisor of the starting values divides the value the loop ends with |
| Fractions.QuotientsCoprime | components/ui/math-renderer.tsx:54-56 | dividing both numbers by their gcd leaves numbers whose gcd is 1 |
| Fractions.ReduceCofactors | components/ui/math-renderer.tsx:53-56 | for a non-zero denominator the gcd is positive, and the reduced pair consists of the cofactors of \|a\| and \|b\| |
| Fractions.ReduceCorrect | components/ui/math-renderer.tsx:53-56 | the reduced pair keeps the value (na·\|b\| = \|a\|·nb), has a positive denominator and is in lowest terms |
| Fractions.Simplify | components/ui/math-renderer.tsx:48-51 | a denominator that parses to 0 gives back the two captures joined by '/' |
| Fractions.SimplifyReadsBack | components/ui/math-renderer.tsx:48-60 | for a non-zero denominator, the text starts with '-' exactly when the operands differ in sign, and it reads back as the signed reduced pair |
| Fractions.SimplifyCorrect | components/ui/math-renderer.tsx:48-60 | for a non-zero denominator, the text reads back as a fraction p/q in lowest terms with q ≥ 1 and p·b = a·q, with '-' exactly when the signs differ |
| Fractions.SignedCrossProduct | components/ui/math-renderer.tsx:52 | the sign rule (negative when exactly one operand is) turns the unsigned equality into p·b = a·q |
| Fractions.FractionTextRoundTrip | components/ui/math-renderer.tsx:57-59 | the glyph or `na⁄nb` text of a reduced pair reads back as that pair |
| Fractions.FractionTextUnsigned | components/ui/math-renderer.tsx:57-59 | the text of a reduced pair is non-empty and does not start with '-' |
| Fractions.SlashIndexAfterDigits | components/ui/math-renderer.tsx:59 | in `digits U+2044 digits` the first fraction slash sits right after the numerator |
| Fractions.FractionMapInjective | components/ui/math-renderer.tsx:12-31 | no two FRACTION_MAP keys share a glyph |
| Fractions.FractionMapKeysReduced | components/ui/math-renderer.tsx:12-31 | every FRACTION_MAP key has a positive denominator and is in lowest terms |
| Fractions.HalvesToFifthsReduced | components/ui/math-renderer.tsx:13-21 | the keys 1/2 … 4/5 are in lowest terms |
| Fractions.SixthsToTenthsReduced | components/ui/math-renderer.tsx:22-30 | the keys 1/6 … 1/10 are in lowest terms |
| Decimal.NatToString | components/ui/math-renderer.tsx:57 | `${n}` is a non-empty run of digits with no leading zero |
| Decimal.ParseNatToString | components/ui/math-renderer.tsx:49-50 | `parseInt` of `${n}` is n |
| Decimal.NatToStringInjective | components/ui/math-renderer.tsx:57 | different numbers are written differently |
| Decimal.ParseTwoDigits | components/ui/math-renderer.tsx:63 | a capture of at most two digits is below 100 |
| MathRenderer.ReplaceAllLeftmost | components/ui/math-renderer.tsx:63 | a global replace copies the text up to the leftmost match, writes the match's replacement, and resumes after the match |
| MathRenderer.ReplaceAllCopy | components/ui/math-renderer.tsx:68 | where nothing matches, the replace copies the text unchanged and resumes after it |
| MathRenderer.ReplaceAllWithoutMatch | components/ui/math-renderer.tsx:68 | a text where the pattern matches nowhere comes back unchanged |
| MathRenderer.ReplaceAllKeepsAbsent | components/ui/math-renderer.tsx:35 | a character absent from the text and from every replacement is absent from the result |
| MathRenderer.BracedSound | components/ui/math-renderer.tsx:63 | what the greedy `\{\s*(-?\d{1,2})\s*\}` match finds is spaces, a 1-2 digit numeral (optionally signed in the numerator), spaces and '}' |
| MathRenderer.BracedComplete | components/ui/math-renderer.tsx:63 | a braced operand laid out as the pattern allows is found by the greedy match |
| MathRenderer.LatexSound | components/ui/math-renderer.tsx:63 | a found `\frac{a}{b}` lies over the text as the pattern's parts |
| MathRenderer.LatexComplete | components/ui/math-renderer.tsx:63 | every occurrence of the pattern's parts is found, with those parts |
| MathRenderer.LatexMatchUnique | components/ui/math-renderer.tsx:63 | the matcher finds parts p at i exactly when p lies over the text at i |
| MathRenderer.LatexAtSpells | components/ui/math-renderer.tsx:63 | the parts of a `\frac` match spell exactly the text the match covers |
| MathRenderer.LatexMatcherAt | components/ui/math-renderer.tsx:62-64 | where `\frac{a}{b}` lies over the text, step 1 replaces that text by simplifyToUnicode of the two captures |
| MathRenderer.LatexUntouched | components/ui/math-renderer.tsx:62-64 | a text with no `\frac` of the pattern anywhere passes step 1 unchanged, so any other `\frac{…}{…}` is left alone |
| MathRenderer.LatexKeepsTextWithoutBackslash | components/ui/math-renderer.tsx:62-64 | a text without a backslash passes step 1 unchanged |
| MathRenderer.StripDollarsIsWithout | components/ui/math-renderer.tsx:33-36 | step 2 deletes exactly the '$' characters and keeps the rest in order |
| MathRenderer.StripDollarsFrom | components/ui/math-renderer.tsx:35 | the scan from any position removes the '$' from the rest of the text |
| MathRenderer.DollarsKeepTextWithout | components/ui/math-renderer.tsx:33-36 | a text without '$' passes step 2 unchanged |
| MathRenderer.NumeratorSound | components/ui/math-renderer.tsx:68 | the greedy `(-?\d{1,2})\s*\/` match is a numeral, spaces and the slash |
| MathRenderer.NumeratorComplete | components/ui/math-renderer.tsx:68 | every numerator part of the pattern is found by the greedy match |
| MathRenderer.DenominatorSound | components/ui/math-renderer.tsx:68 | the greedy `\s*(\d{1,2})\b` match is spaces, a numeral and a word boundary |
| MathRenderer.DenominatorComplete | components/ui/math-renderer.tsx:68 | every denominator part of the pattern is found by the greedy match |
| MathRenderer.PlainSound | components/ui/math-renderer.tsx:68 | a found plain fraction lies over the text with a word boundary on each side |
| MathRenderer.PlainComplete | components/ui/math-renderer.tsx:68 | every plain fraction of the pattern is found, with its parts |
| MathRenderer.PlainMatchUnique | components/ui/math-renderer.tsx:68 | the matcher finds parts p at i exactly when p lies over the text at i |
| MathRenderer.PlainAtSpells | components/ui/math-renderer.tsx:68 | the parts of a plain match spell exactly the text the match covers |
| MathRenderer.PlainMatcherAt | components/ui/math-renderer.tsx:66-69 | where a plain fraction lies over the text, step 3 replaces it by simplifyToUnicode of the two captures, dropping the spaces around the slash |
| MathRenderer.PlainNeedsDigit | components/ui/math-renderer.tsx:68 | no plain fraction starts at a character that is neither a digit nor '-' |
| MathRenderer.PlainCopiesText | components/ui/math-renderer.tsx:66-69 | a stretch without digits and '-' is copied by step 3 |
| MathRenderer.PlainUntouched | components/ui/math-renderer.tsx:66-69 | a text with no plain fraction of the pattern passes step 3 unchanged |
| MathRenderer.XSound | components/ui/math-renderer.tsx:73 | a found `\s+x\s+` is a whitespace run, 'x', then a whitespace run |
| MathRenderer.XComplete | components/ui/math-renderer.tsx:73 | every whitespace-bounded x is found, with the longest runs on both sides |
| MathRenderer.XMatchUnique | components/ui/math-renderer.tsx:73 | the matcher finds runs p at i exactly when they lie over the text at i |
| MathRenderer.XMatcherAt | components/ui/math-renderer.tsx:71-74 | whitespace, 'x' and whitespace become exactly " × " |
| MathRenderer.XNeedsSpace | components/ui/math-renderer.tsx:73 | no match of `\s+x\s+` starts at a non-space |
| MathRenderer.XCopiesText | components/ui/math-renderer.tsx:71-74 | a stretch without whitespace is copied by step 4 |
| MathRenderer.XUntouched | components/ui/math-renderer.tsx:71-74 | a text with no whitespace-bounded x passes step 4 unchanged |
| MathRenderer.XKeepsTextWithoutX | components/ui/math-renderer.tsx:71-74 | a text without the letter x passes step 4 unchanged |
| MathRenderer.SimplifyNoDollar | components/ui/math-renderer.tsx:48-60 | simplifyToUnicode never writes a '$' |
| MathRenderer.ToPrettyMathHasNoDollar | components/ui/math-renderer.tsx:76-87 | the result of the four steps never contains '$' |
| MathExamples.SimplifyToHalf | components/ui/math-renderer.tsx:48-60 | `2/4` and `6/12` both become ½ |
| MathExamples.SimplifyOutsideTable | components/ui/math-renderer.tsx:59 | `10/18` becomes 5⁄9 and `0/5` becomes 0⁄1 |
| MathExamples.SimplifyEdgeCases | components/ui/math-renderer.tsx:51-52 | `3` over `0` gives "3/0"; `-1` over `2` gives "-½" |
| MathExamples.DigitFractionAt | components/ui/math-renderer.tsx:68 | a one-digit `d/e` between word boundaries is replaced by simplifyToUnicode of d and e |
| MathExamples.TwoDigitFractionAt | components/ui/math-renderer.tsx:68 | a two-digit `dd/ee` between word boundaries is replaced by simplifyToUnicode of dd and ee |
| MathExamples.SpacedXAt | components/ui/math-renderer.tsx:73 | ` x ` followed by a non-space is replaced by " × " |
| MathExamples.OneMatchScan | components/ui/math-renderer.tsx:73 | a replace that matches once copies the text around that one replacement |
| MathExamples.QuestionFractionsReplaced | lib/quiz-data.ts:44 | step 3 turns "What is 1/2 + 1/4?" into "What is ½ + ¼?" |
| MathExamples.QuestionPretty | lib/quiz-data.ts:44 | the whole pipeline turns "What is 1/2 + 1/4?" into "What is ½ + ¼?" |
| MathExamples.DateTailReplaced | components/ui/math-renderer.tsx:67-68 | despite the comment, "2024/10/26" becomes "2024/5⁄13": the tail `10/26` is rewritten |
| MathExamples.YearMonthUntouched | components/ui/math-renderer.tsx:68 | `24/10` inside "2024/10" has no word boundary before it and is left alone |
| MathExamples.LongDenominatorUntouched | components/ui/math-renderer.tsx:68 | "1/234" is left alone: after two digits of the denominator comes a digit, not a boundary |
| MathExamples.LetterNumeratorUntouched | components/ui/math-renderer.tsx:68 | "x/3" is left alone |
| MathExamples.ProseXReplaced | lib/quiz-data.ts:88 | step 4 turns "as x approaches" into "as × approaches" |
| MathExamples.TouchingXUntouched | lib/quiz-data.ts:10 | an x touching a digit, as in "2x", is left alone |
| MathExamples.OnlyXStepActs | components/ui/math-renderer.tsx:76-87 | on a text without backslash, '$', digits and '-', the pipeline is step 4 alone |
| MathExamples.PrettyNotIdempotent | components/ui/math-renderer.tsx:76-87 | "a x x b" gives "a × x b", which a second pass turns into "a × × b" |
| MathExamples.ZeroFracReplaced | components/ui/math-renderer.tsx:51 | `\frac{3}{0}` becomes "3/0" |
| Clock.Pad2 | components/quiz/quiz-taker.tsx:101 | `padStart(2, "0")` gives digits that read back as the number, two of them below 100 |
| Clock.FormatClock | components/quiz/quiz-taker.tsx:64-65 | the clock has a colon followed by two characters of seconds |
| Clock.ReadClock | components/quiz/quiz-taker.tsx:101 | a clock that reads back shows seconds below 60 |
| Clock.ClockShowsTime | components/quiz/quiz-taker.tsx:64-65 | the clock for t reads back as minutes m and seconds s with m·60 + s = t and s < 60 |
| Clock.ClockInjective | components/dashboard/quiz-taking.tsx:84-85 | different times show different clocks |
| QuizModel.IndexOf | components/quiz/quiz-taker.tsx:71 | `indexOf` is the first position of the text, or -1 exactly when it is absent |
| QuizModel.AnsweredIsSize | components/quiz/quiz-taker.tsx:49-51 | when every key is a question index, counting answered positions counts the entries of `answers` |
| QuizModel.CountWhere | components/quiz/quiz-taker.tsx:49-51 | the filter keeps at most the answered positions |
| QuizModel.CountNone | components/quiz/quiz-taker.tsx:49-51 | a filter that passes nothing counts 0 |
| QuizModel.CountAll | components/dashboard/quiz-taking.tsx:58-62 | a filter that passes every answer counts every answered position |
| QuizModel.CountAgree | components/dashboard/quiz-taking.tsx:58-62 | two filters that agree on every recorded answer count the same |
| QuizTaker.Score | components/quiz/quiz-taker.tsx:49-51 | 0 ≤ score ≤ number of answers ≤ number of questions |
| QuizTaker.ScoreIsZero | components/quiz/quiz-taker.tsx:49-51 | a text correct answer never strictly equals a numeric choice, so the score is 0 |
| QuizTaker.Taker.constructor | components/quiz/quiz-taker.tsx:17-27 | the screen starts on question 0 of the shuffled list, with no answers, 300 seconds and not complete |
| QuizTaker.Taker.Answer | components/quiz/quiz-taker.tsx:74-79 | the choice is recorded for the current question, replacing an earlier one; other answers are unchanged |
| QuizTaker.Taker.Next | components/quiz/quiz-taker.tsx:81-87 | the index moves on below the last question; on the last question the quiz completes; the index stays a question index |
| QuizTaker.Taker.Previous | components/quiz/quiz-taker.tsx:89-93 | the index moves back only when above 0, so it never goes negative |
| QuizTaker.Taker.Tick | components/quiz/quiz-taker.tsx:31-42 | the clock goes down by one while positive; once it reaches 0 the quiz is complete |
| QuizTaker.Taker.ClockText | components/quiz/quiz-taker.tsx:64-65 | the header clock reads back as the time left |
| QuizTaker.Taker.CorrectIndex | components/quiz/quiz-taker.tsx:71 | the first position of the correct text among the options, or -1 exactly when it is absent |
| QuizTaker.Taker.FinalScore | components/quiz/quiz-taker.tsx:48-51 | the score handed to the results screen is always 0 |
| QuizTaking.Remap | components/dashboard/quiz-taking.tsx:26-35 | the question keeps its text and correct answer and gets the shuffled options; `originalCorrectIndex` is the first new position of the correct text, or -1 exactly when it is absent |
| QuizTaking.RemapAll | components/dashboard/quiz-taking.tsx:26-36 | every question of the quiz, in order, with its own shuffled options |
| QuizTaking.ShuffledFromQuiz | components/dashboard/quiz-taking.tsx:26-37 | the shuffled list has as many questions as the quiz, and each is a quiz question with its own remapped options |
| QuizTaking.Score | components/dashboard/quiz-taking.tsx:58-62 | 0 ≤ score ≤ number of answers ≤ number of questions |
| QuizTaking.AllCorrectScore | components/dashboard/quiz-taking.tsx:58-62 | when every choice is the correct text, the score is the number of answers |
| QuizTaking.AllWrongScore | components/dashboard/quiz-taking.tsx:58-62 | when no choice is the correct text, the score is 0 |
| QuizTaking.ScoreByPosition | components/dashboard/quiz-taking.tsx:58-62 | with distinct options, comparing texts counts the same as comparing a choice with `originalCorrectIndex` |
| QuizTaking.Taking.constructor | components/dashboard/quiz-taking.tsx:17-41 | the screen starts on question 0 of the shuffled, remapped list, with no answers, 300 seconds and not complete, and every question's recorded position is consistent |
| QuizTaking.Taking.Answer | components/dashboard/quiz-taking.tsx:94-99 | the choice is recorded for the current question only |
| QuizTaking.Taking.Next | components/dashboard/quiz-taking.tsx:101-107 | the index moves on below the last question; on the last question the quiz completes; the index stays a question index |
| QuizTaking.Taking.Previous | components/dashboard/quiz-taking.tsx:109-113 | the index moves back only when above 0 |
| QuizTaking.Taking.Tick | components/dashboard/quiz-taking.tsx:43-54 | the clock goes down by one while positive; once it reaches 0 the quiz is complete |
| QuizTaking.Taking.ClockText | components/dashboard/quiz-taking.tsx:84-85 | the header clock reads back as the time left |
| QuizTaking.Taking.CorrectIndex | components/dashboard/quiz-taking.tsx:91 | the recorded position of the correct option is `findIndex` of its text: the first position where it sits, or -1 exactly when it is absent |
| QuizTaking.Taking.Completed | components/dashboard/quiz-taking.tsx:56-73 | the report exists exactly when the quiz is complete and loaded; it carries the title, the score, the number of questions and the time spent |
| QuizResults.Percentage | components/quiz/quiz-results.tsx:17 | the integer nearest to 100·score/total, a tie rounding up; between 0 and 100 when score ≤ total (the history screen's `calculatePercentage`, quiz-history.tsx lines 35-37, is the same expression) |
| QuizResults.PassedIff | components/quiz/quiz-results.tsx:17-18 | the rounded percentage reaches 60 exactly when at least 59.5% of the answers are correct |
| QuizResults.PerfectIff | components/quiz/quiz-results.tsx:17-21 | all answers correct gives 100; 100 needs at least 99.5% correct |
| QuizResults.ResultMessage | components/quiz/quiz-results.tsx:20-25 | the four bands (100, 80-99, 60-79, below 60), each exactly; every message but "Keep Practicing" means a pass; each message ends in the characters the file actually holds, which are mis-encoded emoji |
| QuizResults.FormatTime | components/quiz/quiz-results.tsx:27-32 | "N/A" exactly for a missing or zero time; otherwise a clock that reads back as the seconds |
| QuizResults.Summarize | components/quiz/quiz-results.tsx:17-63 | correct is the score and incorrect the rest of the total; the percentage is the rounded `Percentage`, with its band's message and a pass exactly at 59.5%; the percentage lies in 0..100; the time is `formatTime` of the time spent |
| QuizHistory.AttemptTime | components/dashboard/quiz-history.tsx:26-28 | the time column reads back as the time spent, and a missing or zero time shows "0:00", not "N/A" |
| QuizHistory.FormatAttempts | components/dashboard/quiz-history.tsx:20-29 | one row per attempt, in the same order, with id, title, score, total and date copied and the time formatted |
| QuizHistory.ScoreColor | components/dashboard/quiz-history.tsx:39-43 | every percentage falls in exactly one band (≥ 80 green, 60-79 yellow, < 60 red); only red is below the pass mark |
| Header.Split | components/dashboard/header.tsx:13 | `split(" ")` gives at least one piece, none containing a space, and the first piece is the name up to its first space |
| Header.JoinSplit | components/dashboard/header.tsx:16 | joining the pieces with single spaces gives the name back |
| Header.FirstName | components/dashboard/header.tsx:13 | the name up to its first space; "Tsedeke" exactly when the name is missing or that piece is empty (or is itself "Tsedeke") |
| Header.UpperChar | components/dashboard/header.tsx:19 | `toUpperCase` on ASCII: a lower-case letter goes to its capital, anything else is kept |
| Header.HeadsCount | components/dashboard/header.tsx:17-18 | at most one letter per piece; exactly one per piece when no piece is empty; empty exactly when every piece is empty |
| Header.HeadsAppend | components/dashboard/header.tsx:17-18 | the letters of two runs of pieces are the first run's letters followed by the second's, so order is kept |
| Header.HeadsOfPiece | components/dashboard/header.tsx:17-18 | every piece contributes in its place: its first character if it is non-empty, nothing if it is empty |
| Header.HeadsFromPieces | components/dashboard/header.tsx:17-18 | each letter is the first character of some non-empty piece |
| Header.Upper | components/dashboard/header.tsx:19 | every character is upper-cased in place |
| Header.SpacesSplitEmpty | components/dashboard/header.tsx:16 | a name of spaces only splits into empty pieces |
| Header.Initials | components/dashboard/header.tsx:14-19 | never empty; "U" for a missing name, one of spaces only, or any name whose pieces give no letter; otherwise the upper-cased letters of the pieces, in order |
| Header.InitialsAreHeads | components/dashboard/header.tsx:14-18 | each avatar letter is the upper-cased first character of a piece of the name |
| Header.SplitWord | components/dashboard/header.tsx:16 | a word without spaces is one piece |
| Header.SplitAtSpace | components/dashboard/header.tsx:16 | a word followed by a space is the first piece, and the rest splits on its own |
| Header.TwoWordName | components/dashboard/header.tsx:13-19 | for "first last", the greeting is the first name and the avatar its two upper-cased initials |
| Header.EmptyName | components/dashboard/header.tsx:13-19 | an empty name falls back to "Tsedeke" and "U" |

## Left out

- HTTP calls (`lib/api.ts`), the `getMyAttempts` fetch and its `.catch`, and the `localStorage` token are I/O. `QuizHistory.FormatAttempts` takes the fetched attempts as a parameter.
- `Math.random` shuffles are given as parameters: each shuffled list is one whose multiset equals the original. In quiz-taker.tsx the question list is one; in quiz-taking.tsx each question's options are one, and so is the remapped question list. The randomness is not modelled.
- `setInterval`, `clearInterval` and `Date.now()` are not modelled. One timer step is the method `Tick`, and the elapsed `timeSpent` is a parameter of `QuizTaking.Taking.Completed`.
- The completion effect of quiz-taking.tsx can fire more than once, because it re-runs when its dependencies change. The model gives the report as a function of the state and does not count how often it is sent.
- QuizResults.Percentage: the floating-point `Math.round(score / total * 100)` is modelled as exact integer rounding half up, `(200·score + total) div (2·total)`. Float error near a .5 boundary is not captured.
- QuizResults.Percentage: a total of 0 (which would give NaN) is excluded. Neither screen shows results without questions.
- JSX and React rendering are not modelled: `useMemo`, the `displayMode` choice of element, the dropdown in the header, the red clock under a minute, and the progress bar.
- The quiz-taker screen passes `quizTitle`, `score` and `totalQuestions` as separate props, while the results screen reads them from a `results` object. This wiring is not modelled; the results screen is modelled on the `results` values.
- Screen routing (`dashboard.tsx`, `app/page.tsx`) and the static quiz content are not modelled. Strings from `lib/quiz-data.ts` serve only as example inputs.
- `parseInt` and `isFinite` are modelled on the captured numerals only. The regexes capture only digits, so the non-finite branch of `simplifyToUnicode` cannot be taken and is not modelled.
- `\s` is the ASCII whitespace set and `\w` is `[A-Za-z0-9_]`. `toUpperCase` is ASCII only. `n[0]` takes the first character, not the first UTF-16 code unit.
- FRACTION_MAP is keyed by the reduced pair rather than by the string `"na/nb"`. `${na}/${nb}` is one-to-one on pairs, so the lookup is the same.
- The state fields hold only reachable values. `timeLeft` never goes below 0, because the effect stops at 0; an answer is a position among the current question's options, which is the only choice the question component offers.
- QuizTaker.Score: as written, it compares a text correct answer with a numeric choice using `===`, so it is always 0. It is modelled as written, with the values compared as tagged JavaScript values.
