/**
 * What the model gives on concrete inputs, most of them from the quiz content.
 * A scan over a concrete text is proved in two parts: lemmas that decide the
 * matcher at the positions the scan visits, and a lemma that assembles the
 * scan from those decisions for any matcher that makes them.
 */
module MathExamples {
  import opened Wrappers
  import opened Decimal
  import opened Fractions
  import opened MathRenderer

  // ---------------------------------------------------------------- simplifyToUnicode

  lemma ParseDigit(c: char)
    requires IsDigit(c)
    ensures IsSignedNumeral([c]) && ParseInt([c]) == DigitValue(c)
  {
    assert IsSignedNumeral([c]) by { assert AllDigits([c]); }
    assert ParseNat([c]) == DigitValue(c) by { assert [c][..0] == []; }
    assert [c][0] == c;
  }

  lemma ParseTwoDigit(c: char, d: char)
    requires IsDigit(c) && IsDigit(d)
    ensures IsSignedNumeral([c, d]) && ParseInt([c, d]) == 10 * DigitValue(c) + DigitValue(d)
  {
    assert IsSignedNumeral([c, d]) by { assert AllDigits([c, d]); }
    assert ParseNat([c]) == DigitValue(c) by { assert [c][..0] == []; }
    assert ParseNat([c, d]) == 10 * DigitValue(c) + DigitValue(d) by { assert [c, d][..1] == [c]; }
    assert [c, d][0] == c;
  }

  lemma ParseNegativeDigit(c: char)
    requires IsDigit(c)
    ensures IsSignedNumeral(['-', c]) && ParseInt(['-', c]) == -(DigitValue(c) as int)
  {
    assert ['-', c][1..] == [c];
    assert IsSignedNumeral(['-', c]) by { assert AllDigits([c]); }
    assert ParseNat([c]) == DigitValue(c) by { assert [c][..0] == []; }
  }

  /** simplifyToUnicode on numerals whose values and reduced pair are known. */
  lemma SimplifyReads(aStr: string, bStr: string, a: int, b: int, na: nat, nb: nat)
    requires IsSignedNumeral(aStr) && IsSignedNumeral(bStr)
    requires ParseInt(aStr) == a && ParseInt(bStr) == b && b != 0 && Reduce(a, b) == (na, nb)
    ensures Simplify(aStr, bStr) == (if (a < 0) != (b < 0) then "-" else "") + FractionText(na, nb)
  {
  }

  /** simplifyToUnicode on two one-digit numerals, given the reduced pair of their values. */
  lemma DigitsSimplify(c: char, d: char, na: nat, nb: nat)
    requires IsDigit(c) && IsDigit(d) && DigitValue(d) != 0
    requires Reduce(DigitValue(c), DigitValue(d)) == (na, nb)
    ensures Simplify([c], [d]) == FractionText(na, nb)
  {
    ParseDigit(c);
    ParseDigit(d);
    SimplifyReads([c], [d], DigitValue(c), DigitValue(d), na, nb);
  }

  /** simplifyToUnicode on two two-digit numerals, given the reduced pair of their values. */
  lemma TwoDigitsSimplify(t: string, u: string, a: nat, b: nat, na: nat, nb: nat)
    requires |t| == 2 && |u| == 2 && IsDigit(t[0]) && IsDigit(t[1]) && IsDigit(u[0]) && IsDigit(u[1])
    requires 10 * DigitValue(t[0]) + DigitValue(t[1]) == a && 10 * DigitValue(u[0]) + DigitValue(u[1]) == b
    requires b != 0 && Reduce(a, b) == (na, nb)
    ensures Simplify(t, u) == FractionText(na, nb)
  {
    assert t == [t[0], t[1]] && u == [u[0], u[1]];
    ParseTwoDigit(t[0], t[1]);
    ParseTwoDigit(u[0], u[1]);
    SimplifyReads(t, u, a, b, na, nb);
  }

  lemma ReducedPairs()
    ensures Reduce(2, 4) == (1, 2) && Reduce(6, 12) == (1, 2) && Reduce(1, 2) == (1, 2)
    ensures Reduce(-1, 2) == (1, 2) && Reduce(1, 4) == (1, 4)
    ensures Reduce(10, 18) == (5, 9) && Reduce(0, 5) == (0, 1) && Reduce(10, 26) == (5, 13)
  {
    assert GcdOf(2, 4) == 2 && GcdOf(6, 12) == 6 && GcdOf(1, 2) == 1;
    assert GcdOf(-1, 2) == 1 && GcdOf(1, 4) == 1;
    assert GcdOf(10, 18) == 2 && GcdOf(0, 5) == 5 && GcdOf(10, 26) == 2;
  }

  lemma TableGlyphs()
    ensures FractionText(1, 2) == "\U{00BD}" && FractionText(1, 4) == "\U{00BC}"
  {
  }

  lemma SlashTexts()
    ensures FractionText(5, 9) == "5\U{2044}9" && FractionText(0, 1) == "0\U{2044}1"
    ensures FractionText(5, 13) == "5\U{2044}13"
  {
    assert NatToString(13) == "13" by { assert NatToString(1) == "1"; }
  }

  /** `2/4` and `6/12` both reduce to the glyph ½. */
  lemma SimplifyToHalf()
    ensures Simplify("2", "4") == "\U{00BD}"
    ensures Simplify("6", "12") == "\U{00BD}"
  {
    ParseDigit('2');
    ParseDigit('4');
    ParseDigit('6');
    ParseTwoDigit('1', '2');
    ReducedPairs();
    TableGlyphs();
    SimplifyReads("2", "4", 2, 4, 1, 2);
    SimplifyReads("6", "12", 6, 12, 1, 2);
  }

  /** A reduced pair outside the table is written with U+2044: `10/18` gives 5⁄9, `0/5` gives 0⁄1. */
  lemma SimplifyOutsideTable()
    ensures Simplify("10", "18") == "5\U{2044}9"
    ensures Simplify("0", "5") == "0\U{2044}1"
  {
    ParseTwoDigit('1', '0');
    ParseTwoDigit('1', '8');
    ParseDigit('0');
    ParseDigit('5');
    ReducedPairs();
    SlashTexts();
    SimplifyReads("10", "18", 10, 18, 5, 9);
    SimplifyReads("0", "5", 0, 5, 0, 1);
  }

  /** A zero denominator gives back the captures around a plain slash; a negative numerator keeps its sign. */
  lemma SimplifyEdgeCases()
    ensures Simplify("3", "0") == "3/0"
    ensures Simplify("-1", "2") == "-\U{00BD}"
  {
    ParseDigit('3');
    ParseDigit('0');
    ParseNegativeDigit('1');
    ParseDigit('2');
    ReducedPairs();
    TableGlyphs();
    SimplifyReads("-1", "2", -1, 2, 1, 2);
  }

  // ---------------------------------------------------------------- deciding the matchers

  /** A stretch without digits and '-' holds no plain fraction. */
  lemma PlainSkips(s: string, i: nat, j: nat)
    requires i <= j <= |s|
    requires forall c :: c in s[i..j] ==> !IsDigit(c) && c != '-'
    ensures forall k :: i <= k < j ==> PlainMatcher(s, k).None?
  {
    forall k | i <= k < j
      ensures PlainMatcher(s, k).None?
    {
      assert s[k] == s[i..j][k - i];
      PlainNeedsDigit(s, k);
    }
  }

  /** Where the greedy matcher finds nothing, step 3 copies the character. */
  lemma PlainMisses(s: string, k: nat)
    requires k <= |s| && MatchPlainAt(s, k).None?
    ensures PlainMatcher(s, k).None?
  {
    PlainMatcherApplies(s, k);
  }

  /** Step 3 replaces a one-digit fraction `d/e` between word boundaries. */
  lemma DigitFractionAt(s: string, i: nat)
    requires i + 3 <= |s| && WordBoundary(s, i) && WordBoundary(s, i + 3)
    requires IsDigit(s[i]) && s[i + 1] == '/' && IsDigit(s[i + 2])
    ensures PlainMatcher(s, i) == Some(Rewrite(i + 3, Simplify([s[i]], [s[i + 2]])))
  {
    DigitFractionLies(s, i);
    PlainMatcherAt(s, i, PlainFraction([s[i]], "", "", [s[i + 2]]));
  }

  lemma DigitFractionLies(s: string, i: nat)
    requires i + 3 <= |s| && WordBoundary(s, i) && WordBoundary(s, i + 3)
    requires IsDigit(s[i]) && s[i + 1] == '/' && IsDigit(s[i + 2])
    ensures PlainAt(s, i, PlainFraction([s[i]], "", "", [s[i + 2]]))
  {
    assert s[i..i + 1] == [s[i]];
    assert s[i + 2..i + 3] == [s[i + 2]];
  }

  /** Step 3 replaces a two-digit fraction `dd/ee` between word boundaries. */
  lemma TwoDigitFractionAt(s: string, i: nat)
    requires i + 5 <= |s| && WordBoundary(s, i) && WordBoundary(s, i + 5)
    requires IsDigit(s[i]) && IsDigit(s[i + 1]) && s[i + 2] == '/' && IsDigit(s[i + 3]) && IsDigit(s[i + 4])
    ensures PlainMatcher(s, i) == Some(Rewrite(i + 5, Simplify(s[i..i + 2], s[i + 3..i + 5])))
  {
    TwoDigitFractionLies(s, i);
    PlainMatcherAt(s, i, PlainFraction(s[i..i + 2], "", "", s[i + 3..i + 5]));
  }

  lemma TwoDigitFractionLies(s: string, i: nat)
    requires i + 5 <= |s| && WordBoundary(s, i) && WordBoundary(s, i + 5)
    requires IsDigit(s[i]) && IsDigit(s[i + 1]) && s[i + 2] == '/' && IsDigit(s[i + 3]) && IsDigit(s[i + 4])
    ensures PlainAt(s, i, PlainFraction(s[i..i + 2], "", "", s[i + 3..i + 5]))
  {
    assert s[i..i + 2][0] == s[i] && s[i..i + 2][1] == s[i + 1];
    assert s[i + 3..i + 5][0] == s[i + 3] && s[i + 3..i + 5][1] == s[i + 4];
  }

  /** A stretch without spaces holds no match of `\s+x\s+`. */
  lemma XSkips(s: string, i: nat, j: nat)
    requires i <= j <= |s|
    requires forall c :: c in s[i..j] ==> !IsSpace(c)
    ensures forall k :: i <= k < j ==> XMatcher(s, k).None?
  {
    forall k | i <= k < j
      ensures XMatcher(s, k).None?
    {
      assert s[k] == s[i..j][k - i];
      XNeedsSpace(s, k);
    }
  }

  /** Without a word boundary at k no plain fraction starts there. */
  lemma PlainNeedsBoundary(s: string, k: nat)
    requires k <= |s| && !WordBoundary(s, k)
    ensures PlainMatcher(s, k).None?
  {
    PlainMisses(s, k);
  }

  /** The greedy numerator ends at a character that is neither a space nor the slash. */
  lemma PlainNumeratorStops(s: string, k: nat)
    requires k < |s| && IsDigit(s[k])
    requires var j := SkipDigits12(s, k); j == |s| || (!IsSpace(s[j]) && s[j] != '/')
    ensures PlainMatcher(s, k).None?
  {
    var j := SkipDigits12(s, k);
    assert SkipSpaces(s, j) == j;
    PlainMisses(s, k);
  }

  /** One digit, the slash, then three digits: the two-digit denominator is followed by a digit, not a boundary. */
  lemma PlainDenominatorRunsOn(s: string, k: nat)
    requires k + 5 <= |s| && IsDigit(s[k]) && s[k + 1] == '/'
    requires IsDigit(s[k + 2]) && IsDigit(s[k + 3]) && IsDigit(s[k + 4])
    ensures PlainMatcher(s, k).None?
  {
    assert SkipSpaces(s, k + 1) == k + 1;
    assert SkipSpaces(s, k + 2) == k + 2;
    PlainMisses(s, k);
  }

  /** A space followed by a non-x is no match of `\s+x\s+`. */
  lemma XMissesBefore(s: string, k: nat)
    requires k + 1 < |s| && s[k] == ' ' && !IsSpace(s[k + 1]) && s[k + 1] != 'x'
    ensures XMatcher(s, k).None?
  {
    assert SkipSpaces(s, k + 1) == k + 1;
  }

  /** Step 4 replaces ` x ` followed by a non-space or the end of the text. */
  lemma SpacedXAt(s: string, i: nat)
    requires i + 3 <= |s| && s[i] == ' ' && s[i + 1] == 'x' && s[i + 2] == ' '
    requires i + 3 == |s| || !IsSpace(s[i + 3])
    ensures XMatcher(s, i) == Some(Rewrite(i + 3, TimesSign))
  {
    var p := SpacedX(" ", " ");
    assert s[i..i + 1] == " " && s[i + 2..i + 3] == " ";
    assert XAt(s, i, p);
    XMatcherAt(s, i, p);
  }

  // ---------------------------------------------------------------- concrete texts

  /**
   * `s` has the characters of `t`. This is `s == t` (SpellsIsEqual); the
   * examples take their text through it so that the solver reasons about the
   * characters the scan looks at instead of evaluating the scan on a literal.
   */
  predicate Spells(s: string, t: string) {
    |s| == |t| && forall k :: 0 <= k < |t| ==> s[k] == t[k]
  }

  lemma SpellsIsEqual(s: string, t: string)
    ensures Spells(s, t) <==> s == t
  {
  }

  /** A slice of a spelled text spells the same slice of the literal. */
  lemma SpellsSlice(s: string, t: string, i: nat, j: nat)
    requires Spells(s, t) && i <= j <= |t|
    ensures s[i..j] == t[i..j]
  {
  }

  /** A scan that matches once, at i up to j, copies the rest of the text around the replacement. */
  lemma {:induction false} OneMatchScan(s: string, f: Matcher, i: nat, j: nat, r: string)
    requires i < j <= |s|
    requires forall k :: 0 <= k < i ==> f(s, k).None?
    requires f(s, i) == Some(Rewrite(j, r))
    requires forall k :: j <= k < |s| ==> f(s, k).None?
    ensures ReplaceAll(s, f, 0) == s[..i] + r + s[j..]
  {
    ReplaceAllLeftmost(s, f, 0, i);
    ReplaceAllWithoutMatch(s, f, j);
    assert s[0..i] == s[..i];
  }

  // ---------------------------------------------------------------- "What is 1/2 + 1/4?"

  const Question: string := "What is 1/2 + 1/4?"

  /** Step 3 finds nothing in the stretches of the question without digits. */
  lemma QuestionGaps(s: string)
    requires Spells(s, Question)
    ensures forall k :: 0 <= k < 8 ==> PlainMatcher(s, k).None?
    ensures forall k :: 11 <= k < 14 ==> PlainMatcher(s, k).None?
    ensures PlainMatcher(s, 17).None?
  {
    SpellsSlice(s, Question, 0, 8);
    assert Question[0..8] == "What is ";
    PlainSkips(s, 0, 8);
    SpellsSlice(s, Question, 11, 14);
    assert Question[11..14] == " + ";
    PlainSkips(s, 11, 14);
    assert s[17] == Question[17];
    PlainNeedsDigit(s, 17);
  }

  /** Step 3 finds `1/2` at 8... */
  lemma QuestionHalf(s: string)
    requires Spells(s, Question)
    ensures PlainMatcher(s, 8) == Some(Rewrite(11, "\U{00BD}"))
  {
    assert s[7] == Question[7] && s[8] == Question[8] && s[9] == Question[9];
    assert s[10] == Question[10] && s[11] == Question[11];
    DigitFractionAt(s, 8);
    ReducedPairs();
    DigitsSimplify(s[8], s[10], 1, 2);
    TableGlyphs();
  }

  /** ...and `1/4` at 14. */
  lemma QuestionQuarter(s: string)
    requires Spells(s, Question)
    ensures PlainMatcher(s, 14) == Some(Rewrite(17, "\U{00BC}"))
  {
    assert s[13] == Question[13] && s[14] == Question[14] && s[15] == Question[15];
    assert s[16] == Question[16] && s[17] == Question[17];
    DigitFractionAt(s, 14);
    ReducedPairs();
    DigitsSimplify(s[14], s[16], 1, 4);
    TableGlyphs();
  }

  /** The scan of the question, for any matcher that decides its positions as step 3 does. */
  lemma QuestionScan(s: string, f: Matcher)
    requires Spells(s, Question)
    requires forall k :: 0 <= k < 8 ==> f(s, k).None?
    requires f(s, 8) == Some(Rewrite(11, "\U{00BD}"))
    requires forall k :: 11 <= k < 14 ==> f(s, k).None?
    requires f(s, 14) == Some(Rewrite(17, "\U{00BC}"))
    requires f(s, 17).None?
    ensures ReplaceAll(s, f, 0) == "What is \U{00BD} + \U{00BC}?"
  {
    ReplaceAllCopy(s, f, 0, 8);
    ReplaceAllCopy(s, f, 11, 14);
    ReplaceAllCopy(s, f, 17, 18);
    SpellsSlice(s, Question, 0, 8);
    SpellsSlice(s, Question, 11, 14);
    SpellsSlice(s, Question, 17, 18);
    assert Question[0..8] == "What is " && Question[11..14] == " + " && Question[17..18] == "?";
  }

  /** "What is 1/2 + 1/4?" becomes "What is ½ + ¼?" in step 3. */
  lemma QuestionFractionsReplaced(s: string)
    requires Spells(s, Question)
    ensures ReplacePlainFractions(s) == "What is \U{00BD} + \U{00BC}?"
  {
    QuestionGaps(s);
    QuestionHalf(s);
    QuestionQuarter(s);
    QuestionScan(s, PlainMatcher);
  }

  /** The whole pipeline turns "What is 1/2 + 1/4?" into "What is ½ + ¼?". */
  lemma QuestionPretty(s: string)
    requires Spells(s, Question)
    ensures ToPrettyMath(s) == "What is \U{00BD} + \U{00BC}?"
  {
    assert '\\' !in s && '$' !in s by { SpellsIsEqual(s, Question); }
    LatexKeepsTextWithoutBackslash(s);
    DollarsKeepTextWithout(s);
    QuestionFractionsReplaced(s);
    XKeepsTextWithoutX("What is \U{00BD} + \U{00BC}?");
  }

  // ---------------------------------------------------------------- dates and other near misses

  const Date: string := "2024/10/26"

  /** In "2024/10/26" step 3 finds nothing before the second group... */
  lemma DateMisses(s: string)
    requires Spells(s, Date)
    ensures forall k :: 0 <= k < 5 ==> PlainMatcher(s, k).None?
  {
    assert s[0] == '2' && s[1] == '0' && s[2] == '2' && s[3] == '4' && s[4] == '/';
    forall k | 0 <= k < 5
      ensures PlainMatcher(s, k).None?
    {
      if k == 0 {
        PlainNumeratorStops(s, 0);
      } else if k < 4 {
        PlainNeedsBoundary(s, k);
      } else {
        PlainNeedsDigit(s, k);
      }
    }
  }

  /** ...and `10/26` there. */
  lemma DateFraction(s: string)
    requires Spells(s, Date)
    ensures PlainMatcher(s, 5) == Some(Rewrite(10, "5\U{2044}13"))
  {
    assert s[4] == '/' && s[5] == '1' && s[6] == '0' && s[7] == '/' && s[8] == '2' && s[9] == '6';
    TwoDigitFractionAt(s, 5);
    ReducedPairs();
    TwoDigitsSimplify(s[5..7], s[8..10], 10, 26, 5, 13);
    SlashTexts();
  }

  lemma DateScan(s: string, f: Matcher)
    requires Spells(s, Date)
    requires forall k :: 0 <= k < 5 ==> f(s, k).None?
    requires f(s, 5) == Some(Rewrite(10, "5\U{2044}13"))
    ensures ReplaceAll(s, f, 0) == "2024/5\U{2044}13"
  {
    ReplaceAllCopy(s, f, 0, 5);
    SpellsSlice(s, Date, 0, 5);
    assert Date[0..5] == "2024/";
  }

  /** The tail `10/26` of a date is still rewritten, to 5⁄13. */
  lemma DateTailReplaced(s: string)
    requires Spells(s, Date)
    ensures ReplacePlainFractions(s) == "2024/5\U{2044}13"
  {
    DateMisses(s);
    DateFraction(s);
    DateScan(s, PlainMatcher);
  }

  /** A text where step 3 matches nowhere comes back unchanged. */
  lemma PlainNowhere(s: string)
    requires forall k :: 0 <= k < |s| ==> PlainMatcher(s, k).None?
    ensures ReplacePlainFractions(s) == s
  {
    ReplaceAllWithoutMatch(s, PlainMatcher, 0);
    assert s[0..] == s;
  }

  /** `24/10` inside "2024/10" has no word boundary in front: untouched. */
  lemma YearMonthUntouched(s: string)
    requires Spells(s, "2024/10")
    ensures ReplacePlainFractions(s) == s
  {
    assert s[0] == '2' && s[1] == '0' && s[2] == '2' && s[3] == '4' && s[4] == '/';
    assert s[5] == '1' && s[6] == '0';
    forall k | 0 <= k < |s|
      ensures PlainMatcher(s, k).None?
    {
      if k == 0 || k == 5 {
        PlainNumeratorStops(s, k);
      } else if k == 4 {
        PlainNeedsDigit(s, k);
      } else {
        PlainNeedsBoundary(s, k);
      }
    }
    PlainNowhere(s);
  }

  /** `1/234`: the denominator takes two digits and finds a digit, not a boundary, after them: untouched. */
  lemma LongDenominatorUntouched(s: string)
    requires Spells(s, "1/234")
    ensures ReplacePlainFractions(s) == s
  {
    assert s[0] == '1' && s[1] == '/' && s[2] == '2' && s[3] == '3' && s[4] == '4';
    forall k | 0 <= k < |s|
      ensures PlainMatcher(s, k).None?
    {
      if k == 0 {
        PlainDenominatorRunsOn(s, 0);
      } else if k == 1 {
        PlainNeedsDigit(s, k);
      } else if k == 2 {
        PlainNumeratorStops(s, k);
      } else {
        PlainNeedsBoundary(s, k);
      }
    }
    PlainNowhere(s);
  }

  /** `x/3`: a letter numerator is not a fraction: untouched. */
  lemma LetterNumeratorUntouched(s: string)
    requires Spells(s, "x/3")
    ensures ReplacePlainFractions(s) == s
  {
    assert s[0] == 'x' && s[1] == '/' && s[2] == '3';
    forall k | 0 <= k < |s|
      ensures PlainMatcher(s, k).None?
    {
      if k < 2 {
        PlainNeedsDigit(s, k);
      } else {
        PlainNumeratorStops(s, k);
      }
    }
    PlainNowhere(s);
  }

  // ---------------------------------------------------------------- the multiplication x

  const Prose: string := "as x approaches"

  lemma ProseMatches(s: string)
    requires Spells(s, Prose)
    ensures forall k :: 0 <= k < 2 ==> XMatcher(s, k).None?
    ensures XMatcher(s, 2) == Some(Rewrite(5, TimesSign))
    ensures forall k :: 5 <= k < 15 ==> XMatcher(s, k).None?
  {
    SpellsSlice(s, Prose, 0, 2);
    assert Prose[0..2] == "as";
    XSkips(s, 0, 2);
    assert s[2] == ' ' && s[3] == 'x' && s[4] == ' ' && s[5] == 'a';
    SpacedXAt(s, 2);
    SpellsSlice(s, Prose, 5, 15);
    assert Prose[5..15] == "approaches";
    XSkips(s, 5, 15);
  }

  lemma ProseScan(s: string, f: Matcher)
    requires Spells(s, Prose)
    requires forall k :: 0 <= k < 2 ==> f(s, k).None?
    requires f(s, 2) == Some(Rewrite(5, TimesSign))
    requires forall k :: 5 <= k < 15 ==> f(s, k).None?
    ensures ReplaceAll(s, f, 0) == "as \U{00D7} approaches"
  {
    OneMatchScan(s, f, 2, 5, TimesSign);
    assert s[..2] == "as" && s[5..] == "approaches" by {
      SpellsSlice(s, Prose, 0, 2);
      SpellsSlice(s, Prose, 5, 15);
      assert Prose[0..2] == "as" && Prose[5..15] == "approaches";
    }
    assert "as" + TimesSign + "approaches" == "as \U{00D7} approaches";
  }

  /** Step 4 also hits a variable x written between spaces in prose. */
  lemma ProseXReplaced(s: string)
    requires Spells(s, Prose)
    ensures ReplaceMultiplicationX(s) == "as \U{00D7} approaches"
  {
    ProseMatches(s);
    ProseScan(s, XMatcher);
  }

  /** An x touching a non-space is left alone. */
  lemma TouchingXUntouched(s: string)
    requires Spells(s, "2x")
    ensures ReplaceMultiplicationX(s) == s
  {
    assert s[0] == '2' && s[1] == 'x';
    XSkips(s, 0, 2);
    ReplaceAllWithoutMatch(s, XMatcher, 0);
    assert s[0..] == s;
  }

  const TwoXs: string := "a x x b"
  const OneXLeft: string := "a \U{00D7} x b"

  /** On "a x x b" the first match takes the space after the first x, so the second x is left. */
  lemma TwoXsMatches(s: string)
    requires Spells(s, TwoXs)
    ensures XMatcher(s, 0).None?
    ensures XMatcher(s, 1) == Some(Rewrite(4, TimesSign))
    ensures XMatcher(s, 4).None? && XMatcher(s, 5).None? && XMatcher(s, 6).None?
  {
    assert s[0] == 'a' && s[1] == ' ' && s[2] == 'x' && s[3] == ' ';
    assert s[4] == 'x' && s[5] == ' ' && s[6] == 'b';
    XNeedsSpace(s, 0);
    SpacedXAt(s, 1);
    XNeedsSpace(s, 4);
    XMissesBefore(s, 5);
    XNeedsSpace(s, 6);
  }

  lemma TwoXsScan(s: string, f: Matcher)
    requires Spells(s, TwoXs)
    requires f(s, 0).None? && f(s, 1) == Some(Rewrite(4, TimesSign))
    requires f(s, 4).None? && f(s, 5).None? && f(s, 6).None?
    ensures ReplaceAll(s, f, 0) == OneXLeft
  {
    ReplaceAllCopy(s, f, 0, 1);
    ReplaceAllCopy(s, f, 4, 7);
    SpellsSlice(s, TwoXs, 0, 1);
    SpellsSlice(s, TwoXs, 4, 7);
    assert TwoXs[0..1] == "a" && TwoXs[4..7] == "x b";
  }

  /** On the second pass the x that was left is replaced. */
  lemma OneXLeftMatches(s: string)
    requires Spells(s, OneXLeft)
    ensures XMatcher(s, 0).None? && XMatcher(s, 1).None? && XMatcher(s, 2).None?
    ensures XMatcher(s, 3) == Some(Rewrite(6, TimesSign))
    ensures XMatcher(s, 6).None?
  {
    assert s[0] == 'a' && s[1] == ' ' && s[2] == '\U{00D7}' && s[3] == ' ';
    assert s[4] == 'x' && s[5] == ' ' && s[6] == 'b';
    XNeedsSpace(s, 0);
    XMissesBefore(s, 1);
    XNeedsSpace(s, 2);
    SpacedXAt(s, 3);
    XNeedsSpace(s, 6);
  }

  lemma OneXLeftScan(s: string, f: Matcher)
    requires Spells(s, OneXLeft)
    requires f(s, 0).None? && f(s, 1).None? && f(s, 2).None?
    requires f(s, 3) == Some(Rewrite(6, TimesSign))
    requires f(s, 6).None?
    ensures ReplaceAll(s, f, 0) == "a \U{00D7} \U{00D7} b"
  {
    ReplaceAllCopy(s, f, 0, 3);
    ReplaceAllCopy(s, f, 6, 7);
    SpellsSlice(s, OneXLeft, 0, 3);
    SpellsSlice(s, OneXLeft, 6, 7);
    assert OneXLeft[0..3] == "a \U{00D7}" && OneXLeft[6..7] == "b";
  }

  /** The steps other than step 4 leave a text with no backslash, '$', digit or '-' alone. */
  lemma OnlyXStepActs(s: string)
    requires '\\' !in s && '$' !in s
    requires forall k :: 0 <= k < |s| ==> !IsDigit(s[k]) && s[k] != '-'
    ensures ToPrettyMath(s) == ReplaceMultiplicationX(s)
  {
    LatexKeepsTextWithoutBackslash(s);
    DollarsKeepTextWithout(s);
    PlainSkips(s, 0, |s|);
    PlainNowhere(s);
  }

  /**
   * toPrettyMath is not idempotent: "a x x b" gives "a × x b", and that
   * text gives "a × × b".
   */
  lemma PrettyNotIdempotent(s: string, t: string)
    requires Spells(s, TwoXs) && Spells(t, OneXLeft)
    ensures ToPrettyMath(s) == OneXLeft
    ensures ToPrettyMath(t) == "a \U{00D7} \U{00D7} b"
  {
    assert '\\' !in s && '$' !in s && (forall k :: 0 <= k < |s| ==> !IsDigit(s[k]) && s[k] != '-') by {
      SpellsIsEqual(s, TwoXs);
    }
    assert '\\' !in t && '$' !in t && (forall k :: 0 <= k < |t| ==> !IsDigit(t[k]) && t[k] != '-') by {
      SpellsIsEqual(t, OneXLeft);
    }
    OnlyXStepActs(s);
    OnlyXStepActs(t);
    TwoXsMatches(s);
    TwoXsScan(s, XMatcher);
    OneXLeftMatches(t);
    OneXLeftScan(t, XMatcher);
  }

  // ---------------------------------------------------------------- \frac with a zero denominator

  const ZeroFrac: string := "\\frac{3}{0}"

  /** The pattern's parts over `\frac{3}{0}`. */
  lemma ZeroFracLies(s: string)
    requires Spells(s, ZeroFrac)
    ensures LatexAt(s, 0, LatexFraction(Braced("", "3", ""), Braced("", "0", "")))
  {
    SpellsSlice(s, ZeroFrac, 0, 6);
    SpellsSlice(s, ZeroFrac, 6, 8);
    SpellsSlice(s, ZeroFrac, 9, 11);
    assert ZeroFrac[0..6] == "\\frac{" && ZeroFrac[6..8] == "3}" && ZeroFrac[9..11] == "0}";
    assert s[8] == '{';
  }

  lemma ZeroFracMatches(s: string)
    requires Spells(s, ZeroFrac)
    ensures LatexMatcher(s, 0) == Some(Rewrite(11, Simplify("3", "0")))
  {
    var p := LatexFraction(Braced("", "3", ""), Braced("", "0", ""));
    ZeroFracLies(s);
    LatexMatcherAt(s, 0, p);
    assert |LatexText(p)| == 11;
  }

  lemma ZeroFracScan(s: string, f: Matcher, r: string)
    requires |s| == 11 && f(s, 0) == Some(Rewrite(11, r))
    ensures ReplaceAll(s, f, 0) == r
  {
    assert ReplaceAll(s, f, 11) == "";
  }

  /** `\frac{3}{0}` becomes `3/0`: a zero denominator is not simplified. */
  lemma ZeroFracReplaced(s: string)
    requires Spells(s, ZeroFrac)
    ensures ReplaceLatexFractions(s) == "3/0"
  {
    ZeroFracMatches(s);
    ZeroFracScan(s, LatexMatcher, Simplify("3", "0"));
    SimplifyEdgeCases();
  }
}
