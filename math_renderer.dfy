/**
 * The text rewrites of the math renderer (components/ui/math-renderer.tsx).
 *
 * `toPrettyMath` runs four global regular-expression replacements in a fixed
 * order. Each `String.replace(/.../g, ...)` is modelled by one scanner,
 * `ReplaceAll`, driven by a matcher that says whether the pattern matches at a
 * given position and what replaces the match. Each matcher is greedy and never
 * backtracks; the `...MatchUnique` lemmas show that it finds a match exactly
 * when the pattern's parts can be laid over the text at that position, and
 * that the parts are then the only ones possible, so a backtracking engine
 * could not have chosen differently.
 */
module MathRenderer {
  import opened Wrappers
  import opened Decimal
  import opened Fractions

  // ---------------------------------------------------------------- character classes

  /** `\s`, over the ASCII whitespace characters. */
  predicate IsSpace(c: char) {
    c == ' ' || c == '\t' || c == '\n' || c == '\r' || c == '\U{000B}' || c == '\U{000C}'
  }

  /** A run of `\s`: every character of t is a space. */
  predicate AllSpaces(t: string) {
    |t| == 0 || (IsSpace(t[0]) && AllSpaces(t[1..]))
  }

  lemma {:induction false} AllSpacesAt(t: string, k: nat)
    requires AllSpaces(t) && k < |t|
    ensures IsSpace(t[k])
  {
    if k > 0 {
      AllSpacesAt(t[1..], k - 1);
    }
  }

  /** The characters of s between i and j, when all are spaces, form a run of spaces. */
  lemma {:induction false} SpacesAreAllSpaces(s: string, i: nat, j: nat)
    requires i <= j <= |s|
    requires forall k :: i <= k < j ==> IsSpace(s[k])
    ensures AllSpaces(s[i..j])
    decreases j - i
  {
    if i < j {
      SpacesAreAllSpaces(s, i + 1, j);
      assert s[i..j][1..] == s[i + 1..j];
    }
  }

  /** A character of `\w`: `[A-Za-z0-9_]`. */
  predicate IsWordChar(c: char) {
    'a' <= c <= 'z' || 'A' <= c <= 'Z' || IsDigit(c) || c == '_'
  }

  /** `\b` at position i: exactly one of the characters on either side is a word character. */
  predicate WordBoundary(s: string, i: nat)
    requires i <= |s|
  {
    (i > 0 && IsWordChar(s[i - 1])) != (i < |s| && IsWordChar(s[i]))
  }

  /** A capture of `\d{1,2}`. */
  predicate IsNumeral12(t: string) {
    (|t| == 1 && IsDigit(t[0])) || (|t| == 2 && IsDigit(t[0]) && IsDigit(t[1]))
  }

  /** A capture of `-?\d{1,2}`. */
  predicate IsSignedNumeral12(t: string) {
    IsNumeral12(t) || (|t| >= 2 && t[0] == '-' && IsNumeral12(t[1..]))
  }

  lemma SignedNumeral12IsNumeral(t: string)
    requires IsSignedNumeral12(t)
    ensures IsSignedNumeral(t) && |t| >= 1 && t[0] != '$'
  {
  }

  // ---------------------------------------------------------------- greedy runs

  /** End of the run of `\s` starting at i (what a greedy `\s*` consumes). */
  function SkipSpaces(s: string, i: nat): (j: nat)
    requires i <= |s|
    ensures i <= j <= |s|
    decreases |s| - i
  {
    if i < |s| && IsSpace(s[i]) then SkipSpaces(s, i + 1) else i
  }

  /** SkipSpaces stops at the first non-space: everything skipped is a space. */
  lemma {:induction false} SkipSpacesRun(s: string, i: nat)
    requires i <= |s|
    ensures forall k :: i <= k < SkipSpaces(s, i) ==> IsSpace(s[k])
    ensures SkipSpaces(s, i) == |s| || !IsSpace(s[SkipSpaces(s, i)])
    decreases |s| - i
  {
    if i < |s| && IsSpace(s[i]) {
      SkipSpacesRun(s, i + 1);
    }
  }

  /** End of what a greedy `\d{1,2}` takes at i (i itself when there is no digit). */
  function SkipDigits12(s: string, i: nat): (j: nat)
    requires i <= |s|
    ensures i <= j <= |s| && j <= i + 2
  {
    if i < |s| && IsDigit(s[i]) then
      if i + 1 < |s| && IsDigit(s[i + 1]) then i + 2 else i + 1
    else i
  }

  /** SkipDigits12 takes only digits, and stops early only before a non-digit. */
  lemma SkipDigitsRun(s: string, i: nat)
    requires i <= |s|
    ensures forall k :: i <= k < SkipDigits12(s, i) ==> IsDigit(s[k])
    ensures SkipDigits12(s, i) < i + 2 ==> SkipDigits12(s, i) == |s| || !IsDigit(s[SkipDigits12(s, i)])
  {
  }

  /** A run of spaces that ends before a non-space is exactly what SkipSpaces skips. */
  lemma {:induction false} SkipSpacesExact(s: string, i: nat, j: nat)
    requires i <= j <= |s|
    requires forall k :: i <= k < j ==> IsSpace(s[k])
    requires j == |s| || !IsSpace(s[j])
    ensures SkipSpaces(s, i) == j
    decreases j - i
  {
    if i < j {
      SkipSpacesExact(s, i + 1, j);
    }
  }

  /** One or two digits that end before a non-digit (or two digits) are exactly what SkipDigits12 takes. */
  lemma SkipDigitsExact(s: string, i: nat, j: nat)
    requires i < j <= |s| && j <= i + 2
    requires forall k :: i <= k < j ==> IsDigit(s[k])
    requires j < i + 2 ==> j == |s| || !IsDigit(s[j])
    ensures SkipDigits12(s, i) == j
  {
  }

  /** The characters a captured run of spaces covers are spaces. */
  lemma SpacesOver(s: string, i: nat, t: string)
    requires i + |t| <= |s| && s[i..i + |t|] == t && AllSpaces(t)
    ensures forall k :: i <= k < i + |t| ==> IsSpace(s[k])
  {
    forall k | i <= k < i + |t|
      ensures IsSpace(s[k])
    {
      AllSpacesAt(t, k - i);
      assert s[i..i + |t|][k - i] == s[k];
    }
  }

  /** The characters a captured run of digits covers are digits. */
  lemma DigitsOver(s: string, i: nat, t: string)
    requires i + |t| <= |s| && s[i..i + |t|] == t && AllDigits(t)
    ensures forall k :: i <= k < i + |t| ==> IsDigit(s[k])
  {
    forall k | i <= k < i + |t|
      ensures IsDigit(s[k])
    {
      assert s[i..i + |t|][k - i] == s[k];
    }
  }

  /** A captured run of spaces followed by a non-space is exactly what SkipSpaces skips. */
  lemma SkipOverSpaces(s: string, i: nat, t: string)
    requires i + |t| <= |s| && s[i..i + |t|] == t && AllSpaces(t)
    requires i + |t| == |s| || !IsSpace(s[i + |t|])
    ensures SkipSpaces(s, i) == i + |t|
  {
    SpacesOver(s, i, t);
    SkipSpacesExact(s, i, i + |t|);
  }

  /** A captured numeral followed by a non-digit is exactly what SkipDigits12 takes. */
  lemma SkipOverDigits(s: string, i: nat, t: string)
    requires i + |t| <= |s| && s[i..i + |t|] == t && IsNumeral12(t)
    requires i + |t| == |s| || !IsDigit(s[i + |t|])
    ensures SkipDigits12(s, i) == i + |t|
  {
    DigitsOver(s, i, t);
    SkipDigitsExact(s, i, i + |t|);
  }

  lemma SliceConcat(s: string, a: nat, b: nat, c: nat)
    requires a <= b <= c <= |s|
    ensures s[a..b] + s[b..c] == s[a..c]
  {
  }

  /** The pieces of a text laid over `s` at `lo`: each piece sits at its offset. */
  lemma PieceAt(s: string, lo: nat, pre: string, mid: string, post: string)
    requires lo + |pre + mid + post| <= |s|
    requires s[lo..lo + |pre + mid + post|] == pre + mid + post
    ensures s[lo + |pre|..lo + |pre| + |mid|] == mid
  {
    var t := pre + mid + post;
    forall k | 0 <= k < |mid|
      ensures s[lo + |pre| + k] == mid[k]
    {
      assert t[|pre| + k] == mid[k];
      assert s[lo..lo + |t|][|pre| + k] == s[lo + |pre| + k];
    }
  }

  // ---------------------------------------------------------------- String.replace(/.../g, fn)

  /** A match ending (exclusively) at `end`, to be replaced by `replacement`. */
  datatype Rewrite = Rewrite(end: nat, replacement: string)

  /** What a matcher says at position i of s: no match there, or a match and its replacement. */
  type MatchFunction = (string, nat) -> Option<Rewrite>

  /** Every match a matcher reports is non-empty and inside the string. */
  ghost predicate Progresses(f: MatchFunction) {
    forall s: string, i: nat :: i <= |s| && f(s, i).Some? ==> i < f(s, i).value.end <= |s|
  }

  /** A matcher whose matches are non-empty, so that scanning always moves forward. */
  type Matcher = f: MatchFunction | Progresses(f) witness (s: string, i: nat) => None

  /**
   * The global replace from position i: the leftmost match at or after i is
   * replaced, scanning resumes right after it; unmatched characters are copied.
   */
  function ReplaceAll(s: string, f: Matcher, i: nat): string
    requires i <= |s|
    decreases |s| - i
  {
    if i == |s| then []
    else
      match f(s, i)
      case Some(m) => m.replacement + ReplaceAll(s, f, m.end)
      case None => [s[i]] + ReplaceAll(s, f, i + 1)
  }

  /** Where the pattern matches nowhere, the replace returns the text unchanged. */
  lemma {:induction false} ReplaceAllWithoutMatch(s: string, f: Matcher, i: nat)
    requires i <= |s|
    requires forall k :: i <= k < |s| ==> f(s, k).None?
    ensures ReplaceAll(s, f, i) == s[i..]
    decreases |s| - i
  {
    if i < |s| {
      ReplaceAllWithoutMatch(s, f, i + 1);
      assert s[i..] == [s[i]] + s[i + 1..];
    }
  }

  /** A character absent from the text and from every replacement is absent from the result. */
  lemma {:induction false} ReplaceAllKeepsAbsent(s: string, f: Matcher, i: nat, c: char)
    requires i <= |s|
    requires forall k :: i <= k < |s| ==> s[k] != c
    requires forall k :: i <= k < |s| && f(s, k).Some? ==> c !in f(s, k).value.replacement
    ensures c !in ReplaceAll(s, f, i)
    decreases |s| - i
  {
    if i < |s| {
      match f(s, i)
      case Some(m) => ReplaceAllKeepsAbsent(s, f, m.end, c);
      case None => ReplaceAllKeepsAbsent(s, f, i + 1, c);
    }
  }

  // ---------------------------------------------------------------- step 1: \frac{a}{b}

  /**
   * One braced operand of `\frac`, as the pattern reads it after an opening
   * brace: `\s*(-?\d{1,2})\s*\}` for the numerator, `\s*(\d{1,2})\s*\}` for the
   * denominator.
   */
  datatype Braced = Braced(before: string, numeral: string, after: string)

  function BracedText(b: Braced): string {
    b.before + b.numeral + b.after + "}"
  }

  /** The parts are what the pattern allows: runs of spaces around a (signed, for the numerator) 1-2 digit numeral. */
  predicate BracedOperand(b: Braced, signed: bool) {
    && AllSpaces(b.before)
    && (if signed then IsSignedNumeral12(b.numeral) else IsNumeral12(b.numeral))
    && AllSpaces(b.after)
  }

  /** The operand, closing brace included, is spelled by s at i. */
  predicate BracedAt(s: string, i: nat, b: Braced, signed: bool) {
    && BracedOperand(b, signed)
    && i + |BracedText(b)| <= |s| && s[i..i + |BracedText(b)|] == BracedText(b)
  }

  /** Each part of the operand sits at its own offset from i. */
  predicate BracedPlaced(s: string, i: nat, b: Braced) {
    var a0 := i + |b.before|;
    var a2 := a0 + |b.numeral|;
    var a3 := a2 + |b.after|;
    a3 < |s| && s[i..a0] == b.before && s[a0..a2] == b.numeral && s[a2..a3] == b.after && s[a3] == '}'
  }

  /** Greedy match of one braced operand at i. */
  function MatchBraced(s: string, i: nat, signed: bool): Option<Braced>
    requires i <= |s|
  {
    var a0 := SkipSpaces(s, i);
    var a1 := if signed && a0 < |s| && s[a0] == '-' then a0 + 1 else a0;
    var a2 := SkipDigits12(s, a1);
    if a2 == a1 then None
    else
      var a3 := SkipSpaces(s, a2);
      if a3 < |s| && s[a3] == '}' then Some(Braced(s[i..a0], s[a0..a2], s[a2..a3])) else None
  }

  lemma BracedSound(s: string, i: nat, signed: bool, b: Braced)
    requires i <= |s| && MatchBraced(s, i, signed) == Some(b)
    ensures BracedAt(s, i, b, signed)
  {
    var a0 := SkipSpaces(s, i);
    var a1 := if signed && a0 < |s| && s[a0] == '-' then a0 + 1 else a0;
    var a2 := SkipDigits12(s, a1);
    var a3 := SkipSpaces(s, a2);
    BracedMatchParts(s, i, signed, b);
    BracedFromRuns(s, i, signed, a0, a1, a2, a3, b);
  }

  /** What a successful MatchBraced has found. */
  lemma BracedMatchParts(s: string, i: nat, signed: bool, b: Braced)
    requires i <= |s| && MatchBraced(s, i, signed) == Some(b)
    ensures var a0 := SkipSpaces(s, i);
      var a1 := if signed && a0 < |s| && s[a0] == '-' then a0 + 1 else a0;
      var a2 := SkipDigits12(s, a1);
      var a3 := SkipSpaces(s, a2);
      && a1 < a2 && a3 < |s| && s[a3] == '}'
      && b == Braced(s[i..a0], s[a0..a2], s[a2..a3])
  {
  }

  /** Runs found by SkipSpaces and SkipDigits12 form an operand. */
  lemma BracedFromRuns(s: string, i: nat, signed: bool, a0: nat, a1: nat, a2: nat, a3: nat, b: Braced)
    requires i <= a0 <= a1 < a2 <= a3 < |s| && s[a3] == '}' && a2 <= a1 + 2
    requires a0 == SkipSpaces(s, i) && a3 == SkipSpaces(s, a2) && a2 == SkipDigits12(s, a1)
    requires a1 == if signed && s[a0] == '-' then a0 + 1 else a0
    requires b == Braced(s[i..a0], s[a0..a2], s[a2..a3])
    ensures BracedAt(s, i, b, signed)
  {
    SkipSpacesRun(s, i);
    SkipSpacesRun(s, a2);
    SkipDigitsRun(s, a1);
    SpacesAreAllSpaces(s, i, a0);
    SpacesAreAllSpaces(s, a2, a3);
    if a1 == a0 + 1 {
      assert b.numeral[1..] == s[a1..a2];
    }
    BracedSpells(s, i, b);
  }

  lemma BracedComplete(s: string, i: nat, b: Braced, signed: bool)
    requires BracedAt(s, i, b, signed)
    ensures MatchBraced(s, i, signed) == Some(b)
  {
    var a0 := i + |b.before|;
    var a2 := a0 + |b.numeral|;
    var a3 := a2 + |b.after|;
    BracedPieces(s, i, b);
    BracedLeadingRun(s, i, b, signed);
    BracedDigitRun(s, i, b, signed);
    BracedTrailingRun(s, i, b, signed);
    BracedMatchFromSkips(s, i, signed, a0, a2, a3);
  }

  /** Over the parts of an operand, the leading `\s*` ends where the numeral starts. */
  lemma BracedLeadingRun(s: string, i: nat, b: Braced, signed: bool)
    requires BracedOperand(b, signed) && BracedPlaced(s, i, b)
    ensures SkipSpaces(s, i) == i + |b.before|
  {
    var a0 := i + |b.before|;
    assert s[a0] == b.numeral[0] by { assert s[a0..a0 + |b.numeral|][0] == s[a0]; }
    SkipOverSpaces(s, i, b.before);
  }

  /** Over the parts of an operand, `\d{1,2}` takes the numeral's digits. */
  lemma BracedDigitRun(s: string, i: nat, b: Braced, signed: bool)
    requires BracedOperand(b, signed) && BracedPlaced(s, i, b)
    ensures var a0 := i + |b.before|;
      var a1 := if signed && s[a0] == '-' then a0 + 1 else a0;
      a1 < a0 + |b.numeral| && SkipDigits12(s, a1) == a0 + |b.numeral|
  {
    var a0 := i + |b.before|;
    var a2 := a0 + |b.numeral|;
    var a3 := a2 + |b.after|;
    assert s[a0] == b.numeral[0] by { assert s[a0..a2][0] == s[a0]; }
    var a1 := if signed && s[a0] == '-' then a0 + 1 else a0;
    var digits := if a1 == a0 + 1 then b.numeral[1..] else b.numeral;
    assert s[a1..a2] == digits;
    assert !IsDigit(s[a2]) by {
      if |b.after| > 0 {
        assert s[a2..a3][0] == s[a2];
      }
    }
    SkipOverDigits(s, a1, digits);
  }

  /** Over the parts of an operand, the trailing `\s*` ends at the closing brace. */
  lemma BracedTrailingRun(s: string, i: nat, b: Braced, signed: bool)
    requires BracedOperand(b, signed) && BracedPlaced(s, i, b)
    ensures var a2 := i + |b.before| + |b.numeral|;
      SkipSpaces(s, a2) == a2 + |b.after|
  {
    SkipOverSpaces(s, i + |b.before| + |b.numeral|, b.after);
  }

  /** MatchBraced succeeds when the greedy runs end where the parts do. */
  lemma BracedMatchFromSkips(s: string, i: nat, signed: bool, a0: nat, a2: nat, a3: nat)
    requires i <= a0 <= a2 <= a3 < |s| && s[a3] == '}'
    requires SkipSpaces(s, i) == a0
    requires var a1 := if signed && s[a0] == '-' then a0 + 1 else a0;
      a1 < a2 && SkipDigits12(s, a1) == a2
    requires SkipSpaces(s, a2) == a3
    ensures MatchBraced(s, i, signed) == Some(Braced(s[i..a0], s[a0..a2], s[a2..a3]))
  {
  }

  /** Parts placed at their offsets spell the operand's text. */
  lemma BracedSpells(s: string, i: nat, b: Braced)
    requires BracedPlaced(s, i, b)
    ensures i + |BracedText(b)| <= |s| && s[i..i + |BracedText(b)|] == BracedText(b)
  {
    var a0 := i + |b.before|;
    var a2 := a0 + |b.numeral|;
    var a3 := a2 + |b.after|;
    assert s[a3..a3 + 1] == "}";
    SliceConcat(s, i, a0, a2);
    SliceConcat(s, i, a2, a3);
    SliceConcat(s, i, a3, a3 + 1);
  }

  /** The operand's text, spelled at i, puts each part at its offset. */
  lemma BracedPieces(s: string, i: nat, b: Braced)
    requires i + |BracedText(b)| <= |s| && s[i..i + |BracedText(b)|] == BracedText(b)
    ensures BracedPlaced(s, i, b)
  {
    var a3 := i + |b.before| + |b.numeral| + |b.after|;
    PieceAt(s, i, [], b.before, b.numeral + b.after + "}");
    PieceAt(s, i, b.before, b.numeral, b.after + "}");
    PieceAt(s, i, b.before + b.numeral, b.after, "}");
    PieceAt(s, i, b.before + b.numeral + b.after, "}", []);
    assert s[a3..a3 + 1][0] == s[a3];
  }

  /** The parts of a match of `\\frac\{\s*(-?\d{1,2})\s*\}\{\s*(\d{1,2})\s*\}`. */
  datatype LatexFraction = LatexFraction(num: Braced, den: Braced)

  function LatexText(p: LatexFraction): string {
    "\\frac{" + BracedText(p.num) + "{" + BracedText(p.den)
  }

  /** The pattern's parts `p` lie over `s` starting at i. */
  predicate LatexAt(s: string, i: nat, p: LatexFraction) {
    && i + 6 <= |s| && s[i..i + 6] == "\\frac{"
    && BracedAt(s, i + 6, p.num, true)
    && var e := i + 6 + |BracedText(p.num)|;
    && e < |s| && s[e] == '{'
    && BracedAt(s, e + 1, p.den, false)
  }

  /** The greedy matcher for `\frac{a}{b}` at position i. */
  function MatchLatexAt(s: string, i: nat): Option<LatexFraction>
    requires i <= |s|
  {
    if !(i + 6 <= |s| && s[i..i + 6] == "\\frac{") then None
    else
      match MatchBraced(s, i + 6, true)
      case None => None
      case Some(num) =>
        match MatchLatexDenominator(s, i + 6 + |BracedText(num)|)
        case None => None
        case Some(den) => Some(LatexFraction(num, den))
  }

  /** The second braced group, `\{\s*(\d{1,2})\s*\}`, at position e. */
  function MatchLatexDenominator(s: string, e: nat): Option<Braced>
    requires e <= |s|
  {
    if e < |s| && s[e] == '{' then MatchBraced(s, e + 1, false) else None
  }

  /** The parts found by the matcher are where LatexAt says; the text they spell is what the match covers. */
  lemma LatexAtSpells(s: string, i: nat, p: LatexFraction)
    requires LatexAt(s, i, p)
    ensures i + |LatexText(p)| <= |s| && s[i..i + |LatexText(p)|] == LatexText(p)
  {
    var e := i + 6 + |BracedText(p.num)|;
    var f := e + 1 + |BracedText(p.den)|;
    LatexSpelled(s, i, e, f, p);
  }

  lemma LatexSpelled(s: string, i: nat, e: nat, f: nat, p: LatexFraction)
    requires i + 6 <= e < f <= |s| && e == i + 6 + |BracedText(p.num)| && f == e + 1 + |BracedText(p.den)|
    requires s[i..i + 6] == "\\frac{" && s[i + 6..e] == BracedText(p.num)
    requires s[e] == '{' && s[e + 1..f] == BracedText(p.den)
    ensures s[i..f] == LatexText(p)
  {
    assert s[e..e + 1] == "{";
    SliceConcat(s, i, i + 6, e);
    SliceConcat(s, i, e, e + 1);
    SliceConcat(s, i, e + 1, f);
  }

  lemma LatexDenominatorSound(s: string, e: nat, b: Braced)
    requires e <= |s| && MatchLatexDenominator(s, e) == Some(b)
    ensures e < |s| && s[e] == '{' && BracedAt(s, e + 1, b, false)
  {
    BracedSound(s, e + 1, false, b);
  }

  /** What a successful MatchLatexAt has checked. */
  lemma LatexSteps(s: string, i: nat, p: LatexFraction)
    requires i <= |s| && MatchLatexAt(s, i) == Some(p)
    ensures i + 6 <= |s| && s[i..i + 6] == "\\frac{"
    ensures MatchBraced(s, i + 6, true) == Some(p.num)
    ensures i + 6 + |BracedText(p.num)| <= |s|
    ensures MatchLatexDenominator(s, i + 6 + |BracedText(p.num)|) == Some(p.den)
  {
  }

  lemma LatexSound(s: string, i: nat, p: LatexFraction)
    requires i <= |s| && MatchLatexAt(s, i) == Some(p)
    ensures LatexAt(s, i, p)
  {
    LatexSteps(s, i, p);
    LatexFromSteps(s, i, p);
  }

  lemma LatexFromSteps(s: string, i: nat, p: LatexFraction)
    requires i + 6 <= |s| && s[i..i + 6] == "\\frac{"
    requires MatchBraced(s, i + 6, true) == Some(p.num)
    requires i + 6 + |BracedText(p.num)| <= |s|
    requires MatchLatexDenominator(s, i + 6 + |BracedText(p.num)|) == Some(p.den)
    ensures LatexAt(s, i, p)
  {
    LatexDenominatorSound(s, i + 6 + |BracedText(p.num)|, p.den);
    BracedSound(s, i + 6, true, p.num);
    LatexFromParts(s, i, p);
  }

  lemma LatexFromParts(s: string, i: nat, p: LatexFraction)
    requires i + 6 <= |s| && s[i..i + 6] == "\\frac{"
    requires BracedAt(s, i + 6, p.num, true)
    requires var e := i + 6 + |BracedText(p.num)|;
      e < |s| && s[e] == '{' && BracedAt(s, e + 1, p.den, false)
    ensures LatexAt(s, i, p)
  {
  }

  lemma LatexDenominatorComplete(s: string, e: nat, b: Braced)
    requires e < |s| && s[e] == '{' && BracedAt(s, e + 1, b, false)
    ensures MatchLatexDenominator(s, e) == Some(b)
  {
    BracedComplete(s, e + 1, b, false);
  }

  lemma LatexComplete(s: string, i: nat, p: LatexFraction)
    requires LatexAt(s, i, p)
    ensures MatchLatexAt(s, i) == Some(p)
  {
    BracedComplete(s, i + 6, p.num, true);
    LatexDenominatorComplete(s, i + 6 + |BracedText(p.num)|, p.den);
    LatexMatchFromSteps(s, i, p);
  }

  /** MatchLatexAt succeeds when each of its steps does. */
  lemma LatexMatchFromSteps(s: string, i: nat, p: LatexFraction)
    requires i + 6 <= |s| && s[i..i + 6] == "\\frac{"
    requires MatchBraced(s, i + 6, true) == Some(p.num)
    requires i + 6 + |BracedText(p.num)| <= |s|
    requires MatchLatexDenominator(s, i + 6 + |BracedText(p.num)|) == Some(p.den)
    ensures MatchLatexAt(s, i) == Some(p)
  {
  }

  /**
   * The matcher for `\frac{a}{b}` succeeds with parts p exactly when p (a
   * `\frac` with an optionally negative 1-2 digit numerator and an unsigned
   * 1-2 digit denominator, whitespace allowed inside the braces) lies over the
   * text at i.
   */
  lemma LatexMatchUnique(s: string, i: nat, p: LatexFraction)
    requires i <= |s|
    ensures MatchLatexAt(s, i) == Some(p) <==> LatexAt(s, i, p)
  {
    if MatchLatexAt(s, i) == Some(p) {
      LatexSound(s, i, p);
    }
    if LatexAt(s, i, p) {
      LatexComplete(s, i, p);
    }
  }

  /** replaceLatexFractions at i: a match is replaced by simplifyToUnicode of its two captures. */
  function LatexRewriteAt(s: string, i: nat): (r: Option<Rewrite>)
    requires i <= |s|
    ensures r.Some? ==> i < r.value.end <= |s|
  {
    match MatchLatexAt(s, i)
    case None => None
    case Some(p) =>
      LatexMatchFacts(s, i, p);
      Some(Rewrite(i + |LatexText(p)|, Simplify(p.num.numeral, p.den.numeral)))
  }

  /** What replacing a found `\frac{a}{b}` needs: it lies inside the text and its captures are numerals. */
  lemma LatexMatchFacts(s: string, i: nat, p: LatexFraction)
    requires i <= |s| && MatchLatexAt(s, i) == Some(p)
    ensures i < i + |LatexText(p)| <= |s|
    ensures IsSignedNumeral(p.num.numeral) && IsSignedNumeral(p.den.numeral)
  {
    LatexSound(s, i, p);
    LatexAtSpells(s, i, p);
    SignedNumeral12IsNumeral(p.num.numeral);
    SignedNumeral12IsNumeral(p.den.numeral);
  }

  const LatexMatcher: Matcher := (s: string, i: nat) => if i <= |s| then LatexRewriteAt(s, i) else None

  /** replaceLatexFractions (math-renderer.tsx:62-64). */
  function ReplaceLatexFractions(s: string): string {
    ReplaceAll(s, LatexMatcher, 0)
  }

  // ---------------------------------------------------------------- step 2: delete every '$'

  /** normalizeDollarDelimiters at i: a '$' is replaced by nothing. */
  function DollarRewriteAt(s: string, i: nat): Option<Rewrite> {
    if i < |s| && s[i] == '$' then Some(Rewrite(i + 1, "")) else None
  }

  const DollarMatcher: Matcher := (s: string, i: nat) => DollarRewriteAt(s, i)

  /** normalizeDollarDelimiters (math-renderer.tsx:33-36). */
  function StripDollars(s: string): string {
    ReplaceAll(s, DollarMatcher, 0)
  }

  /** The reference: `t` with every occurrence of `c` removed, keeping the order of the rest. */
  function Without(t: string, c: char): (r: string)
    ensures c !in r && |r| <= |t|
  {
    if t == [] then []
    else if t[0] == c then Without(t[1..], c)
    else [t[0]] + Without(t[1..], c)
  }

  lemma {:induction false} StripDollarsFrom(s: string, i: nat)
    requires i <= |s|
    ensures ReplaceAll(s, DollarMatcher, i) == Without(s[i..], '$')
    decreases |s| - i
  {
    if i < |s| {
      StripDollarsFrom(s, i + 1);
      assert s[i..][1..] == s[i + 1..];
    }
  }

  /** Step 2 deletes exactly the '$' characters and keeps everything else in order. */
  lemma StripDollarsIsWithout(s: string)
    ensures StripDollars(s) == Without(s, '$')
    ensures '$' !in StripDollars(s)
  {
    StripDollarsFrom(s, 0);
    assert s[0..] == s;
  }

  // ---------------------------------------------------------------- step 3: a/b

  /** The parts of a match of `\b(-?\d{1,2})\s*\/\s*(\d{1,2})\b`: the two captures and the runs around the slash. */
  datatype PlainFraction = PlainFraction(num: string, before: string, after: string, den: string)

  function PlainText(p: PlainFraction): string {
    p.num + p.before + "/" + p.after + p.den
  }

  /** `(-?\d{1,2})\s*\/` lies over s at i: the numerator capture, the run of spaces, then the slash. */
  predicate NumeratorAt(s: string, i: nat, num: string, before: string) {
    var a2 := i + |num|;
    var a3 := a2 + |before|;
    && IsSignedNumeral12(num) && AllSpaces(before)
    && a3 < |s| && s[i..a2] == num && s[a2..a3] == before && s[a3] == '/'
  }

  /** `\s*(\d{1,2})\b` lies over s at j: a run of spaces, the denominator capture, then a word boundary. */
  predicate DenominatorAt(s: string, j: nat, after: string, den: string) {
    var a4 := j + |after|;
    var a5 := a4 + |den|;
    && AllSpaces(after) && IsNumeral12(den)
    && a5 <= |s| && s[j..a4] == after && s[a4..a5] == den
    && WordBoundary(s, a5)
  }

  /** The whole pattern lies over s at i, with a word boundary in front. */
  predicate PlainAt(s: string, i: nat, p: PlainFraction) {
    && i <= |s| && WordBoundary(s, i)
    && NumeratorAt(s, i, p.num, p.before)
    && DenominatorAt(s, i + |p.num| + |p.before| + 1, p.after, p.den)
  }

  /** Greedy match of `(-?\d{1,2})\s*\/` at i. */
  function MatchNumerator(s: string, i: nat): Option<(string, string)>
    requires i <= |s|
  {
    var a1 := if i < |s| && s[i] == '-' then i + 1 else i;
    var a2 := SkipDigits12(s, a1);
    if a2 == a1 then None
    else
      var a3 := SkipSpaces(s, a2);
      if a3 < |s| && s[a3] == '/' then Some((s[i..a2], s[a2..a3])) else None
  }

  /** Greedy match of `\s*(\d{1,2})\b` at j. */
  function MatchDenominator(s: string, j: nat): Option<(string, string)>
    requires j <= |s|
  {
    var a4 := SkipSpaces(s, j);
    var a5 := SkipDigits12(s, a4);
    if a5 == a4 || !WordBoundary(s, a5) then None else Some((s[j..a4], s[a4..a5]))
  }

  /** The greedy matcher for a plain fraction at position i. */
  function MatchPlainAt(s: string, i: nat): Option<PlainFraction>
    requires i <= |s|
  {
    if !WordBoundary(s, i) then None
    else
      match MatchNumerator(s, i)
      case None => None
      case Some((num, before)) =>
        match MatchDenominator(s, i + |num| + |before| + 1)
        case None => None
        case Some((after, den)) => Some(PlainFraction(num, before, after, den))
  }

  lemma NumeratorSound(s: string, i: nat)
    requires i <= |s| && MatchNumerator(s, i).Some?
    ensures NumeratorAt(s, i, MatchNumerator(s, i).value.0, MatchNumerator(s, i).value.1)
  {
    var a1 := if i < |s| && s[i] == '-' then i + 1 else i;
    var a2 := SkipDigits12(s, a1);
    var a3 := SkipSpaces(s, a2);
    SkipDigitsRun(s, a1);
    SkipSpacesRun(s, a2);
    SpacesAreAllSpaces(s, a2, a3);
    var num := s[i..a2];
    if a1 == i + 1 {
      assert num[1..] == s[a1..a2];
    }
  }

  lemma NumeratorComplete(s: string, i: nat, num: string, before: string)
    requires NumeratorAt(s, i, num, before)
    ensures MatchNumerator(s, i) == Some((num, before))
  {
    var a2 := i + |num|;
    var a3 := a2 + |before|;
    assert s[i] == num[0] by { assert s[i..a2][0] == s[i]; }
    var a1 := if s[i] == '-' then i + 1 else i;
    var digits := if a1 == i + 1 then num[1..] else num;
    assert s[a1..a2] == digits;
    assert !IsDigit(s[a2]) by {
      if |before| > 0 {
        assert s[a2..a3][0] == s[a2];
      }
    }
    SkipOverDigits(s, a1, digits);
    SkipOverSpaces(s, a2, before);
  }

  lemma DenominatorSound(s: string, j: nat)
    requires j <= |s| && MatchDenominator(s, j).Some?
    ensures DenominatorAt(s, j, MatchDenominator(s, j).value.0, MatchDenominator(s, j).value.1)
  {
    SkipSpacesRun(s, j);
    SkipDigitsRun(s, SkipSpaces(s, j));
    SpacesAreAllSpaces(s, j, SkipSpaces(s, j));
  }

  lemma DenominatorComplete(s: string, j: nat, after: string, den: string)
    requires DenominatorAt(s, j, after, den)
    ensures MatchDenominator(s, j) == Some((after, den))
  {
    var a4 := j + |after|;
    var a5 := a4 + |den|;
    assert s[a4] == den[0] by { assert s[a4..a5][0] == s[a4]; }
    SkipOverSpaces(s, j, after);
    assert s[a5 - 1] == den[|den| - 1] by { assert s[a4..a5][|den| - 1] == s[a5 - 1]; }
    SkipOverDigits(s, a4, den);
  }

  /** What a successful MatchPlainAt has checked. */
  lemma PlainSteps(s: string, i: nat, p: PlainFraction)
    requires i <= |s| && MatchPlainAt(s, i) == Some(p)
    ensures WordBoundary(s, i)
    ensures MatchNumerator(s, i) == Some((p.num, p.before))
    ensures i + |p.num| + |p.before| + 1 <= |s|
    ensures MatchDenominator(s, i + |p.num| + |p.before| + 1) == Some((p.after, p.den))
  {
    NumeratorSound(s, i);
  }

  lemma PlainFromSteps(s: string, i: nat, p: PlainFraction)
    requires i <= |s| && WordBoundary(s, i)
    requires MatchNumerator(s, i) == Some((p.num, p.before))
    requires i + |p.num| + |p.before| + 1 <= |s|
    requires MatchDenominator(s, i + |p.num| + |p.before| + 1) == Some((p.after, p.den))
    ensures PlainAt(s, i, p)
  {
    NumeratorSound(s, i);
    DenominatorSound(s, i + |p.num| + |p.before| + 1);
  }

  /** MatchPlainAt succeeds when each of its steps does. */
  lemma PlainMatchFromSteps(s: string, i: nat, p: PlainFraction)
    requires i <= |s| && WordBoundary(s, i)
    requires MatchNumerator(s, i) == Some((p.num, p.before))
    requires i + |p.num| + |p.before| + 1 <= |s|
    requires MatchDenominator(s, i + |p.num| + |p.before| + 1) == Some((p.after, p.den))
    ensures MatchPlainAt(s, i) == Some(p)
  {
  }

  /**
   * The matcher for a plain fraction succeeds with parts p exactly when p (an
   * optionally negative 1-2 digit numerator, a slash with spaces allowed
   * around it, an unsigned 1-2 digit denominator) lies over the text at i
   * with a word boundary on either side.
   */
  lemma PlainMatchUnique(s: string, i: nat, p: PlainFraction)
    requires i <= |s|
    ensures MatchPlainAt(s, i) == Some(p) <==> PlainAt(s, i, p)
  {
    if MatchPlainAt(s, i) == Some(p) {
      PlainSound(s, i, p);
    }
    if PlainAt(s, i, p) {
      PlainComplete(s, i, p);
    }
  }

  lemma PlainSound(s: string, i: nat, p: PlainFraction)
    requires i <= |s| && MatchPlainAt(s, i) == Some(p)
    ensures PlainAt(s, i, p)
  {
    PlainSteps(s, i, p);
    PlainFromSteps(s, i, p);
  }

  lemma PlainComplete(s: string, i: nat, p: PlainFraction)
    requires PlainAt(s, i, p)
    ensures MatchPlainAt(s, i) == Some(p)
  {
    NumeratorComplete(s, i, p.num, p.before);
    DenominatorComplete(s, i + |p.num| + |p.before| + 1, p.after, p.den);
    PlainMatchFromSteps(s, i, p);
  }

  /** The parts found by the matcher spell the text they cover. */
  lemma PlainAtSpells(s: string, i: nat, p: PlainFraction)
    requires PlainAt(s, i, p)
    ensures i + |PlainText(p)| <= |s| && s[i..i + |PlainText(p)|] == PlainText(p)
  {
    var a2 := i + |p.num|;
    var a3 := a2 + |p.before|;
    var a4 := a3 + 1 + |p.after|;
    var a5 := a4 + |p.den|;
    assert s[a3..a3 + 1] == "/";
    SliceConcat5(s, i, a2, a3, a4, a5, p);
  }

  lemma SliceConcat5(s: string, i: nat, a2: nat, a3: nat, a4: nat, a5: nat, p: PlainFraction)
    requires i <= a2 <= a3 && a3 + 1 <= a4 <= a5 <= |s|
    requires s[i..a2] == p.num && s[a2..a3] == p.before && s[a3..a3 + 1] == "/"
    requires s[a3 + 1..a4] == p.after && s[a4..a5] == p.den
    ensures s[i..a5] == PlainText(p)
  {
    SliceConcat(s, i, a2, a3);
    SliceConcat(s, i, a3, a3 + 1);
    SliceConcat(s, i, a3 + 1, a4);
    SliceConcat(s, i, a4, a5);
  }

  /** replacePlainFractions at i: a match is replaced by simplifyToUnicode of its two captures. */
  function PlainRewriteAt(s: string, i: nat): (r: Option<Rewrite>)
    requires i <= |s|
    ensures r.Some? ==> i < r.value.end <= |s|
  {
    match MatchPlainAt(s, i)
    case None => None
    case Some(p) =>
      PlainMatchFacts(s, i, p);
      Some(Rewrite(i + |PlainText(p)|, Simplify(p.num, p.den)))
  }

  /** What replacing a found plain fraction needs: it lies inside the text and its captures are numerals. */
  lemma PlainMatchFacts(s: string, i: nat, p: PlainFraction)
    requires i <= |s| && MatchPlainAt(s, i) == Some(p)
    ensures i < i + |PlainText(p)| <= |s|
    ensures IsSignedNumeral(p.num) && IsSignedNumeral(p.den)
  {
    PlainMatchUnique(s, i, p);
    PlainAtSpells(s, i, p);
    SignedNumeral12IsNumeral(p.num);
    SignedNumeral12IsNumeral(p.den);
  }

  const PlainMatcher: Matcher := (s: string, i: nat) => if i <= |s| then PlainRewriteAt(s, i) else None

  /** replacePlainFractions (math-renderer.tsx:66-69). */
  function ReplacePlainFractions(s: string): string {
    ReplaceAll(s, PlainMatcher, 0)
  }

  // ---------------------------------------------------------------- step 4: \s+x\s+

  /** The two whitespace runs of a match of `\s+x\s+`. */
  datatype SpacedX = SpacedX(before: string, after: string)

  function XText(p: SpacedX): string {
    p.before + "x" + p.after
  }

  /**
   * The match the regular-expression engine reports at i: a non-empty run of
   * spaces, `x`, and the whole non-empty run of spaces after it (`\s+` is
   * greedy, so the trailing run is taken up to the first non-space).
   */
  predicate XAt(s: string, i: nat, p: SpacedX) {
    var a1 := i + |p.before|;
    var a2 := a1 + 1 + |p.after|;
    && |p.before| >= 1 && AllSpaces(p.before)
    && |p.after| >= 1 && AllSpaces(p.after)
    && a2 <= |s| && s[i..a1] == p.before && s[a1] == 'x' && s[a1 + 1..a2] == p.after
    && (a2 == |s| || !IsSpace(s[a2]))
  }

  /** The greedy matcher for `\s+x\s+` at position i. */
  function MatchXAt(s: string, i: nat): Option<SpacedX>
    requires i <= |s|
  {
    var a1 := SkipSpaces(s, i);
    if a1 == i || !(a1 < |s| && s[a1] == 'x') then None
    else
      var a2 := SkipSpaces(s, a1 + 1);
      if a2 == a1 + 1 then None else Some(SpacedX(s[i..a1], s[a1 + 1..a2]))
  }

  lemma XSound(s: string, i: nat, p: SpacedX)
    requires i <= |s| && MatchXAt(s, i) == Some(p)
    ensures XAt(s, i, p)
  {
    var a1 := SkipSpaces(s, i);
    SkipSpacesRun(s, i);
    SkipSpacesRun(s, a1 + 1);
    SpacesAreAllSpaces(s, i, a1);
    SpacesAreAllSpaces(s, a1 + 1, SkipSpaces(s, a1 + 1));
  }

  lemma XComplete(s: string, i: nat, p: SpacedX)
    requires XAt(s, i, p)
    ensures MatchXAt(s, i) == Some(p)
  {
    SkipOverSpaces(s, i, p.before);
    SkipOverSpaces(s, i + |p.before| + 1, p.after);
  }

  /**
   * The matcher for `\s+x\s+` succeeds with runs p exactly when a run of
   * spaces, `x` and a maximal run of spaces lie over the text at i.
   */
  lemma XMatchUnique(s: string, i: nat, p: SpacedX)
    requires i <= |s|
    ensures MatchXAt(s, i) == Some(p) <==> XAt(s, i, p)
  {
    if MatchXAt(s, i) == Some(p) {
      XSound(s, i, p);
    }
    if XAt(s, i, p) {
      XComplete(s, i, p);
    }
  }

  /** replaceMultiplicationX at i: a match is replaced by `" × "`. */
  function XRewriteAt(s: string, i: nat): (r: Option<Rewrite>)
    requires i <= |s|
    ensures r.Some? ==> i < r.value.end <= |s|
  {
    match MatchXAt(s, i)
    case None => None
    case Some(p) => Some(Rewrite(i + |XText(p)|, TimesSign))
  }

  const TimesSign: string := " \U{00D7} "

  const XMatcher: Matcher := (s: string, i: nat) => if i <= |s| then XRewriteAt(s, i) else None

  /** replaceMultiplicationX (math-renderer.tsx:71-74). */
  function ReplaceMultiplicationX(s: string): string {
    ReplaceAll(s, XMatcher, 0)
  }

  // ---------------------------------------------------------------- the pipeline

  /** toPrettyMath (math-renderer.tsx:76-87): the four rewrites in order. */
  function ToPrettyMath(input: string): string {
    ReplaceMultiplicationX(ReplacePlainFractions(StripDollars(ReplaceLatexFractions(input))))
  }

  // ---------------------------------------------------------------- what the pipeline guarantees

  /**
   * The global replace finds the leftmost match: when nothing matches in
   * [i, j) and the pattern matches at j, the text before j is copied and the
   * match is replaced.
   */
  lemma {:induction false} ReplaceAllLeftmost(s: string, f: Matcher, i: nat, j: nat)
    requires i <= j < |s|
    requires forall k :: i <= k < j ==> f(s, k).None?
    requires f(s, j).Some?
    ensures ReplaceAll(s, f, i) == s[i..j] + f(s, j).value.replacement + ReplaceAll(s, f, f(s, j).value.end)
  {
    ReplaceAllCopy(s, f, i, j);
    var m := f(s, j).value;
    assert ReplaceAll(s, f, j) == m.replacement + ReplaceAll(s, f, m.end);
  }

  lemma NumeralNoDollar(t: string)
    requires IsSignedNumeral(t)
    ensures '$' !in t
  {
    forall k | 0 <= k < |t|
      ensures t[k] != '$'
    {
      if k > 0 && t[0] == '-' {
        assert t[k] == t[1..][k - 1];
      }
    }
  }

  /** simplifyToUnicode never writes a '$'. */
  lemma SimplifyNoDollar(aStr: string, bStr: string)
    requires IsSignedNumeral(aStr) && IsSignedNumeral(bStr)
    ensures '$' !in Simplify(aStr, bStr)
  {
    NumeralNoDollar(aStr);
    NumeralNoDollar(bStr);
    var a, b := ParseInt(aStr), ParseInt(bStr);
    if b != 0 {
      var (na, nb) := Reduce(a, b);
      if (na, nb) !in FractionMap {
        var d1, d2 := NatToString(na), NatToString(nb);
        NumeralNoDollar(d1);
        NumeralNoDollar(d2);
      }
    }
  }

  lemma PlainReplacementsNoDollar(s: string)
    ensures forall k :: 0 <= k <= |s| && PlainMatcher(s, k).Some? ==> '$' !in PlainMatcher(s, k).value.replacement
  {
    forall k | 0 <= k <= |s| && PlainMatcher(s, k).Some?
      ensures '$' !in PlainMatcher(s, k).value.replacement
    {
      var p := MatchPlainAt(s, k).value;
      PlainSound(s, k, p);
      SignedNumeral12IsNumeral(p.num);
      SignedNumeral12IsNumeral(p.den);
      SimplifyNoDollar(p.num, p.den);
    }
  }

  /** The result of toPrettyMath never contains a '$'. */
  lemma ToPrettyMathHasNoDollar(input: string)
    ensures '$' !in ToPrettyMath(input)
  {
    var t2 := StripDollars(ReplaceLatexFractions(input));
    StripDollarsIsWithout(ReplaceLatexFractions(input));
    PlainReplacementsNoDollar(t2);
    ReplaceAllKeepsAbsent(t2, PlainMatcher, 0, '$');
    var t3 := ReplacePlainFractions(t2);
    ReplaceAllKeepsAbsent(t3, XMatcher, 0, '$');
  }

  /** A text where no `\frac{a}{b}` of the pattern occurs leaves step 1 unchanged. */
  lemma LatexUntouched(s: string)
    requires forall k: nat, p :: k <= |s| ==> !LatexAt(s, k, p)
    ensures ReplaceLatexFractions(s) == s
  {
    forall k | 0 <= k < |s|
      ensures LatexMatcher(s, k).None?
    {
      if MatchLatexAt(s, k).Some? {
        LatexSound(s, k, MatchLatexAt(s, k).value);
      }
    }
    ReplaceAllWithoutMatch(s, LatexMatcher, 0);
  }

  /** A text where no plain fraction of the pattern occurs leaves step 3 unchanged. */
  lemma PlainUntouched(s: string)
    requires forall k: nat, p :: k <= |s| ==> !PlainAt(s, k, p)
    ensures ReplacePlainFractions(s) == s
  {
    forall k | 0 <= k < |s|
      ensures PlainMatcher(s, k).None?
    {
      if MatchPlainAt(s, k).Some? {
        PlainSound(s, k, MatchPlainAt(s, k).value);
      }
    }
    ReplaceAllWithoutMatch(s, PlainMatcher, 0);
  }

  /** A text where no `x` stands between whitespace leaves step 4 unchanged. */
  lemma XUntouched(s: string)
    requires forall k: nat, p :: k <= |s| ==> !XAt(s, k, p)
    ensures ReplaceMultiplicationX(s) == s
  {
    forall k | 0 <= k < |s|
      ensures XMatcher(s, k).None?
    {
      if MatchXAt(s, k).Some? {
        XSound(s, k, MatchXAt(s, k).value);
      }
    }
    ReplaceAllWithoutMatch(s, XMatcher, 0);
  }

  // ---------------------------------------------------------------- stepping the scanner

  /** Where nothing matches in [i, j), the replace copies s[i..j] and resumes at j. */
  lemma {:induction false} ReplaceAllCopy(s: string, f: Matcher, i: nat, j: nat)
    requires i <= j <= |s|
    requires forall k :: i <= k < j ==> f(s, k).None?
    ensures ReplaceAll(s, f, i) == s[i..j] + ReplaceAll(s, f, j)
    decreases j - i
  {
    if i < j {
      ReplaceAllCopy(s, f, i + 1, j);
      calc {
        ReplaceAll(s, f, i);
        [s[i]] + ReplaceAll(s, f, i + 1);
        [s[i]] + (s[i + 1..j] + ReplaceAll(s, f, j));
        ([s[i]] + s[i + 1..j]) + ReplaceAll(s, f, j);
        { assert [s[i]] + s[i + 1..j] == s[i..j]; }
        s[i..j] + ReplaceAll(s, f, j);
      }
    } else {
      assert s[i..j] == [];
    }
  }

  /** A plain fraction starts with a digit or '-'. */
  lemma PlainNeedsDigit(s: string, k: nat)
    requires k <= |s| && (k == |s| || (!IsDigit(s[k]) && s[k] != '-'))
    ensures PlainMatcher(s, k).None?
  {
    assert SkipDigits12(s, k) == k;
  }

  /** A stretch without digits and '-' is copied by step 3. */
  lemma PlainCopiesText(s: string, i: nat, j: nat)
    requires i <= j <= |s|
    requires forall c :: c in s[i..j] ==> !IsDigit(c) && c != '-'
    ensures ReplaceAll(s, PlainMatcher, i) == s[i..j] + ReplaceAll(s, PlainMatcher, j)
  {
    forall k | i <= k < j
      ensures PlainMatcher(s, k).None?
    {
      assert s[k] == s[i..j][k - i];
      PlainNeedsDigit(s, k);
    }
    ReplaceAllCopy(s, PlainMatcher, i, j);
  }

  /** A match of `\s+x\s+` starts with a space. */
  lemma XNeedsSpace(s: string, k: nat)
    requires k <= |s| && (k == |s| || !IsSpace(s[k]))
    ensures XMatcher(s, k).None?
  {
    assert SkipSpaces(s, k) == k;
  }

  /** A stretch without spaces is copied by step 4. */
  lemma XCopiesText(s: string, i: nat, j: nat)
    requires i <= j <= |s|
    requires forall c :: c in s[i..j] ==> !IsSpace(c)
    ensures ReplaceAll(s, XMatcher, i) == s[i..j] + ReplaceAll(s, XMatcher, j)
  {
    forall k | i <= k < j
      ensures XMatcher(s, k).None?
    {
      assert s[k] == s[i..j][k - i];
      XNeedsSpace(s, k);
    }
    ReplaceAllCopy(s, XMatcher, i, j);
  }

  /** Where a plain fraction lies over the text, step 3 replaces it by simplifyToUnicode of its captures. */
  lemma PlainMatcherAt(s: string, i: nat, p: PlainFraction)
    requires PlainAt(s, i, p)
    ensures PlainMatcher(s, i) == Some(Rewrite(i + |PlainText(p)|, Simplify(p.num, p.den)))
  {
    SignedNumeral12IsNumeral(p.num);
    SignedNumeral12IsNumeral(p.den);
    PlainComplete(s, i, p);
    PlainRewriteOfMatch(s, i, p);
    PlainMatcherApplies(s, i);
  }

  lemma PlainRewriteOfMatch(s: string, i: nat, p: PlainFraction)
    requires i <= |s| && MatchPlainAt(s, i) == Some(p)
    requires IsSignedNumeral(p.num) && IsSignedNumeral(p.den)
    ensures PlainRewriteAt(s, i) == Some(Rewrite(i + |PlainText(p)|, Simplify(p.num, p.den)))
  {
  }

  lemma PlainMatcherApplies(s: string, i: nat)
    requires i <= |s|
    ensures PlainMatcher(s, i) == PlainRewriteAt(s, i)
  {
  }

  /** Where a match of `\s+x\s+` lies over the text, step 4 replaces it by " × ". */
  lemma XMatcherAt(s: string, i: nat, p: SpacedX)
    requires XAt(s, i, p)
    ensures XMatcher(s, i) == Some(Rewrite(i + |XText(p)|, TimesSign))
  {
    XComplete(s, i, p);
  }

  /** Where a `\frac{a}{b}` of the pattern lies over the text, step 1 replaces it by simplifyToUnicode of its captures. */
  lemma LatexMatcherAt(s: string, i: nat, p: LatexFraction)
    requires LatexAt(s, i, p)
    ensures LatexMatcher(s, i) == Some(Rewrite(i + |LatexText(p)|, Simplify(p.num.numeral, p.den.numeral)))
  {
    SignedNumeral12IsNumeral(p.num.numeral);
    SignedNumeral12IsNumeral(p.den.numeral);
    LatexComplete(s, i, p);
    LatexRewriteOfMatch(s, i, p);
    LatexMatcherApplies(s, i);
  }

  lemma LatexRewriteOfMatch(s: string, i: nat, p: LatexFraction)
    requires i <= |s| && MatchLatexAt(s, i) == Some(p)
    requires IsSignedNumeral(p.num.numeral) && IsSignedNumeral(p.den.numeral)
    ensures LatexRewriteAt(s, i) == Some(Rewrite(i + |LatexText(p)|, Simplify(p.num.numeral, p.den.numeral)))
  {
    match MatchLatexAt(s, i)
    case Some(q) =>
      assert q == p;
  }

  lemma LatexMatcherApplies(s: string, i: nat)
    requires i <= |s|
    ensures LatexMatcher(s, i) == LatexRewriteAt(s, i)
  {
  }

  /** A text without a backslash passes step 1 unchanged. */
  lemma LatexKeepsTextWithoutBackslash(s: string)
    requires '\\' !in s
    ensures ReplaceLatexFractions(s) == s
  {
    forall k | 0 <= k < |s|
      ensures LatexMatcher(s, k).None?
    {
      if k + 6 <= |s| {
        assert s[k..k + 6][0] == s[k];
        assert s[k] in s;
      }
    }
    ReplaceAllWithoutMatch(s, LatexMatcher, 0);
    assert s[0..] == s;
  }

  lemma {:induction false} WithoutAbsent(t: string, c: char)
    requires c !in t
    ensures Without(t, c) == t
  {
    if t != [] {
      WithoutAbsent(t[1..], c);
      assert [t[0]] + t[1..] == t;
    }
  }

  /** A text without '$' passes step 2 unchanged. */
  lemma DollarsKeepTextWithout(s: string)
    requires '$' !in s
    ensures StripDollars(s) == s
  {
    StripDollarsIsWithout(s);
    WithoutAbsent(s, '$');
  }

  /** A text without the letter x passes step 4 unchanged. */
  lemma XKeepsTextWithoutX(s: string)
    requires 'x' !in s
    ensures ReplaceMultiplicationX(s) == s
  {
    forall k | 0 <= k < |s|
      ensures XMatcher(s, k).None?
    {
      var a1 := SkipSpaces(s, k);
      if a1 < |s| {
        assert s[a1] in s;
      }
    }
    ReplaceAllWithoutMatch(s, XMatcher, 0);
    assert s[0..] == s;
  }
}
