/**
 * Fraction simplification of the math renderer (components/ui/math-renderer.tsx):
 * the table of precomposed vulgar-fraction glyphs, Euclid's gcd, and
 * `simplifyToUnicode`, which reduces a captured numerator/denominator pair and
 * writes it either as a glyph or as `num U+2044 den`.
 */
module Fractions {
  import opened Wrappers
  import opened Decimal

  /** U+2044 FRACTION SLASH, written between the two numerals of a generic fraction. */
  const FractionSlash: char := '\U{2044}'

  /** FRACTION_MAP: reduced pair (numerator, denominator) to its precomposed glyph. */
  const FractionMap: map<(nat, nat), char> := map[
    (1, 2) := '\U{00BD}',   // ½
    (1, 3) := '\U{2153}',   // ⅓
    (2, 3) := '\U{2154}',   // ⅔
    (1, 4) := '\U{00BC}',   // ¼
    (3, 4) := '\U{00BE}',   // ¾
    (1, 5) := '\U{2155}',   // ⅕
    (2, 5) := '\U{2156}',   // ⅖
    (3, 5) := '\U{2157}',   // ⅗
    (4, 5) := '\U{2158}',   // ⅘
    (1, 6) := '\U{2159}',   // ⅙
    (5, 6) := '\U{215A}',   // ⅚
    (1, 7) := '\U{2150}',   // ⅐
    (1, 8) := '\U{215B}',   // ⅛
    (3, 8) := '\U{215C}',   // ⅜
    (5, 8) := '\U{215D}',   // ⅝
    (7, 8) := '\U{215E}',   // ⅞
    (1, 9) := '\U{2151}',   // ⅑
    (1, 10) := '\U{2152}'   // ⅒
  ]

  function Abs(x: int): nat {
    if x < 0 then -x else x
  }

  // ---------------------------------------------------------------- gcd

  ghost predicate Divides(d: nat, n: nat) {
    exists k: nat :: n == k * d
  }

  /** Euclid's algorithm, the recursion the `while (b !== 0)` loop of `gcd` runs. */
  function Euclid(a: nat, b: nat): nat
    decreases b
  {
    if b == 0 then a else Euclid(b, a % b)
  }

  /** What `gcd(a, b)` returns: Euclid on the absolute values, and 1 in place of 0 (`return a || 1`). */
  function GcdOf(a: int, b: int): (g: nat)
    ensures g >= 1
  {
    var e := Euclid(Abs(a), Abs(b));
    if e == 0 then 1 else e
  }

  /** The loop of `gcd`, step by step. */
  method Gcd(a: int, b: int) returns (g: nat)
    ensures g == GcdOf(a, b)
  {
    var x: nat, y: nat := Abs(a), Abs(b);
    while y != 0
      invariant Euclid(x, y) == Euclid(Abs(a), Abs(b))
      decreases y
    {
      var t := y;
      y := x % y;
      x := t;
    }
    g := if x == 0 then 1 else x;
  }

  lemma MulMonotone(c: int, d: int)
    requires c >= 1 && d >= 0
    ensures c * d >= d
  {
  }

  /** A common divisor of `b` and `a % b` divides `a`. */
  lemma DividesFromMod(d: nat, a: nat, b: nat)
    requires b > 0 && Divides(d, b) && Divides(d, a % b)
    ensures Divides(d, a)
  {
    var kb: nat :| b == kb * d;
    var km: nat :| a % b == km * d;
    var q: nat := a / b;
    assert a == q * b + a % b;
    assert q * b == (q * kb) * d;
    assert a == (q * kb + km) * d;
  }

  /** A common divisor of `a` and `b` divides `a % b`. */
  lemma DividesMod(d: nat, a: nat, b: nat)
    requires b > 0 && Divides(d, a) && Divides(d, b)
    ensures Divides(d, a % b)
  {
    var ka: nat :| a == ka * d;
    var kb: nat :| b == kb * d;
    var q: nat := a / b;
    assert a % b == a - q * b;
    assert q * b == (q * kb) * d;
    var c: int := ka - q * kb;
    assert a % b == c * d;
    assert a % b == (c as nat) * d;
  }

  /** Euclid's result divides both of its arguments. */
  lemma {:induction false} EuclidDividesBoth(a: nat, b: nat)
    ensures Divides(Euclid(a, b), a) && Divides(Euclid(a, b), b)
    decreases b
  {
    var g := Euclid(a, b);
    if b == 0 {
      assert a == 1 * g;
      assert b == 0 * g;
    } else {
      EuclidDividesBoth(b, a % b);
      DividesFromMod(g, a, b);
    }
  }

  /** Every common divisor of `a` and `b` divides Euclid's result: it is the greatest. */
  lemma {:induction false} EuclidGreatest(a: nat, b: nat, d: nat)
    requires Divides(d, a) && Divides(d, b)
    ensures Divides(d, Euclid(a, b))
    decreases b
  {
    if b > 0 {
      DividesMod(d, a, b);
      EuclidGreatest(b, a % b, d);
    }
  }

  /** `gcd` returns at least 1; for (0, 0) exactly 1, otherwise a common divisor of |a| and |b| that every common divisor divides. */
  lemma GcdIsGreatestCommonDivisor(a: int, b: int)
    ensures GcdOf(a, b) >= 1
    ensures a == 0 && b == 0 ==> GcdOf(a, b) == 1
    ensures a != 0 || b != 0 ==>
      Divides(GcdOf(a, b), Abs(a)) && Divides(GcdOf(a, b), Abs(b)) &&
      forall d: nat :: Divides(d, Abs(a)) && Divides(d, Abs(b)) ==> Divides(d, GcdOf(a, b))
  {
    EuclidDividesBoth(Abs(a), Abs(b));
    var e := Euclid(Abs(a), Abs(b));
    if e == 0 {
      var ka: nat :| Abs(a) == ka * e;
      var kb: nat :| Abs(b) == kb * e;
    }
    forall d: nat | Divides(d, Abs(a)) && Divides(d, Abs(b))
      ensures Divides(d, Euclid(Abs(a), Abs(b)))
    {
      EuclidGreatest(Abs(a), Abs(b), d);
    }
  }

  // ---------------------------------------------------------------- reduction

  lemma DivExact(k: nat, g: nat)
    requires g > 0
    ensures (k * g) / g == k
  {
    var q := (k * g) / g;
    var r := (k * g) % g;
    assert k * g == q * g + r && 0 <= r < g;
    assert (k - q) * g == r;
    if k - q >= 1 {
      MulMonotone(k - q, g);
    } else if k - q <= -1 {
      MulMonotone(q - k, g);
    }
  }

  /** A positive number is no smaller than any of its divisors. */
  lemma DivisorBounded(d: nat, n: nat)
    requires n > 0 && Divides(d, n)
    ensures d <= n
  {
    var k: nat :| n == k * d;
    MulMonotone(k, d);
  }

  function Quotient(x: nat, g: nat): nat
    requires g >= 1
  {
    x / g
  }

  /** The pair `simplifyToUnicode` builds: |a| / g and |b| / g with g = gcd(a, b). */
  function Reduce(a: int, b: int): (nat, nat)
    requires b != 0
  {
    var g := GcdOf(a, b);
    (Quotient(Abs(a), g), Quotient(Abs(b), g))
  }

  lemma ScaledWitness(k: nat, i: nat, e: nat, g: nat)
    requires k == i * e
    ensures k * g == i * (e * g)
  {
  }

  lemma FactorAtMostOne(e: nat, g: nat)
    requires g >= 1 && e * g <= g
    ensures e <= 1
  {
    if e >= 2 {
      MulMonotone(e - 1, g);
    }
  }

  /** Dividing both members of a pair by their gcd leaves a pair whose gcd is 1. */
  lemma {:induction false} QuotientsCoprime(x: nat, y: nat, g: nat, kx: nat, ky: nat)
    requires g == Euclid(x, y) && g >= 1 && x == kx * g && y == ky * g && ky >= 1
    ensures Euclid(kx, ky) == 1
  {
    var e := Euclid(kx, ky);
    EuclidDividesBoth(kx, ky);
    var ix: nat :| kx == ix * e;
    var iy: nat :| ky == iy * e;
    assert e != 0;
    ScaledWitness(kx, ix, e, g);
    ScaledWitness(ky, iy, e, g);
    assert Divides(e * g, x) && Divides(e * g, y);
    EuclidGreatest(x, y, e * g);
    DivisorBounded(e * g, g);
    FactorAtMostOne(e, g);
  }

  /** Euclid's result is positive once one member is. */
  lemma {:induction false} EuclidPositive(x: nat, y: nat)
    requires y >= 1
    ensures Euclid(x, y) >= 1
    decreases y
  {
    if x % y != 0 {
      EuclidPositive(y, x % y);
    }
  }

  lemma ZeroTimes(g: nat)
    ensures 0 * g == 0
  {
  }

  lemma CrossMultiply(x: nat, y: nat, g: nat, kx: nat, ky: nat)
    requires x == kx * g && y == ky * g
    ensures kx * y == x * ky
  {
    calc {
      kx * y;
      kx * (ky * g);
      (kx * g) * ky;
      x * ky;
    }
  }

  /** The reduced pair is the pair of cofactors of the gcd. */
  lemma ReduceCofactors(a: int, b: int) returns (kx: nat, ky: nat)
    requires b != 0
    ensures Euclid(Abs(a), Abs(b)) >= 1
    ensures Abs(a) == kx * Euclid(Abs(a), Abs(b)) && Abs(b) == ky * Euclid(Abs(a), Abs(b))
    ensures Reduce(a, b) == (kx, ky)
  {
    var x, y := Abs(a), Abs(b);
    var g := Euclid(x, y);
    EuclidPositive(x, y);
    EuclidDividesBoth(x, y);
    kx :| x == kx * g;
    ky :| y == ky * g;
    DivExact(kx, g);
    DivExact(ky, g);
  }

  /**
   * Reduction keeps the value (na * |b| == |a| * nb), gives a positive
   * denominator, and leaves a pair in lowest terms.
   */
  lemma ReduceCorrect(a: int, b: int)
    requires b != 0
    ensures var (na, nb) := Reduce(a, b);
      nb >= 1 && na * Abs(b) == Abs(a) * nb && Euclid(na, nb) == 1
  {
    var x, y := Abs(a), Abs(b);
    var kx, ky := ReduceCofactors(a, b);
    var g := Euclid(x, y);
    ZeroTimes(g);
    assert ky >= 1;
    CrossMultiply(x, y, g, kx, ky);
    QuotientsCoprime(x, y, g, kx, ky);
  }

  // ---------------------------------------------------------------- simplifyToUnicode

  /** A capture of `-?\d+`. */
  predicate IsSignedNumeral(s: string) {
    (|s| >= 1 && AllDigits(s)) || (|s| >= 2 && s[0] == '-' && AllDigits(s[1..]))
  }

  /** `parseInt(s, 10)` on a captured numeral: the sign, then the digits. */
  function ParseInt(s: string): int
    requires IsSignedNumeral(s)
  {
    if s[0] == '-' then -(ParseNat(s[1..]) as int) else ParseNat(s)
  }

  /** How the reduced pair is written: its glyph when FRACTION_MAP has one, otherwise `na U+2044 nb`. */
  function FractionText(na: nat, nb: nat): string {
    if (na, nb) in FractionMap then [FractionMap[(na, nb)]]
    else NatToString(na) + [FractionSlash] + NatToString(nb)
  }

  /**
   * simplifyToUnicode(aStr, bStr). A zero denominator gives the two captures
   * joined by '/'; otherwise the sign ('-' when exactly one operand is negative)
   * followed by the reduced pair's text.
   */
  function Simplify(aStr: string, bStr: string): (r: string)
    requires IsSignedNumeral(aStr) && IsSignedNumeral(bStr)
    ensures ParseInt(bStr) == 0 ==> r == aStr + "/" + bStr
  {
    var a, b := ParseInt(aStr), ParseInt(bStr);
    if b == 0 then aStr + "/" + bStr
    else
      var sign := if (a < 0) != (b < 0) then "-" else "";
      var (na, nb) := Reduce(a, b);
      sign + FractionText(na, nb)
  }

  // ---------------------------------------------------------------- reading a fraction back

  /** Index of the first FRACTION SLASH in `t`, or |t| when there is none. */
  function SlashIndex(t: string): (j: nat)
    ensures j <= |t|
    ensures forall k :: 0 <= k < j ==> t[k] != FractionSlash
    ensures j < |t| ==> t[j] == FractionSlash
  {
    if t == [] then 0
    else if t[0] == FractionSlash then 0
    else 1 + SlashIndex(t[1..])
  }

  /** The reduced pair a rendered unsigned fraction stands for: a table glyph, or `digits U+2044 digits`. */
  ghost function ReadUnsigned(t: string): Option<(nat, nat)> {
    if |t| == 1 && exists k :: k in FractionMap && FractionMap[k] == t[0] then
      var k :| k in FractionMap && FractionMap[k] == t[0]; Some(k)
    else
      var j := SlashIndex(t);
      if 0 < j < |t| - 1 && AllDigits(t[..j]) && AllDigits(t[j + 1..])
      then Some((ParseNat(t[..j]), ParseNat(t[j + 1..])))
      else None
  }

  /** The signed fraction (numerator, denominator) a rendered fraction stands for. */
  ghost function ReadFraction(t: string): Option<(int, nat)> {
    if |t| > 0 && t[0] == '-' then
      match ReadUnsigned(t[1..])
      case Some((n, d)) => Some((-(n as int), d))
      case None => None
    else
      match ReadUnsigned(t)
      case Some((n, d)) => Some((n as int, d))
      case None => None
  }

  /** No two table entries share a glyph. */
  lemma FractionMapInjective(k1: (nat, nat), k2: (nat, nat))
    requires k1 in FractionMap && k2 in FractionMap && FractionMap[k1] == FractionMap[k2]
    ensures k1 == k2
  {
  }

  /** Every key of FRACTION_MAP is in lowest terms, so each glyph can be produced. */
  lemma FractionMapKeysReduced(k: (nat, nat))
    requires k in FractionMap
    ensures k.1 >= 1 && Euclid(k.0, k.1) == 1
  {
    HalvesToFifthsReduced();
    SixthsToTenthsReduced();
  }

  lemma HalvesToFifthsReduced()
    ensures Euclid(1, 2) == 1 && Euclid(1, 3) == 1 && Euclid(2, 3) == 1
    ensures Euclid(1, 4) == 1 && Euclid(3, 4) == 1
    ensures Euclid(1, 5) == 1 && Euclid(2, 5) == 1 && Euclid(3, 5) == 1 && Euclid(4, 5) == 1
  {
    assert Euclid(1, 2) == 1 && Euclid(1, 3) == 1 && Euclid(2, 3) == 1;
    assert Euclid(1, 4) == 1 && Euclid(3, 4) == 1;
    assert Euclid(1, 5) == 1 && Euclid(2, 5) == 1 && Euclid(3, 5) == 1 && Euclid(4, 5) == 1;
  }

  lemma SixthsToTenthsReduced()
    ensures Euclid(1, 6) == 1 && Euclid(5, 6) == 1 && Euclid(1, 7) == 1
    ensures Euclid(1, 8) == 1 && Euclid(3, 8) == 1 && Euclid(5, 8) == 1 && Euclid(7, 8) == 1
    ensures Euclid(1, 9) == 1 && Euclid(1, 10) == 1
  {
    assert Euclid(1, 6) == 1 && Euclid(5, 6) == 1 && Euclid(1, 7) == 1;
    assert Euclid(1, 8) == 1 && Euclid(3, 8) == 1 && Euclid(5, 8) == 1 && Euclid(7, 8) == 1;
    assert Euclid(1, 9) == 1 && Euclid(1, 10) == 1;
  }

  /** The text written for a reduced pair reads back as that pair. */
  lemma FractionTextRoundTrip(na: nat, nb: nat)
    ensures ReadUnsigned(FractionText(na, nb)) == Some((na, nb))
  {
    var t := FractionText(na, nb);
    if (na, nb) in FractionMap {
      assert exists k :: k in FractionMap && FractionMap[k] == t[0] by {
        assert FractionMap[(na, nb)] == t[0];
      }
      var k :| k in FractionMap && FractionMap[k] == t[0];
      FractionMapInjective(k, (na, nb));
    } else {
      var d1, d2 := NatToString(na), NatToString(nb);
      assert t == d1 + [FractionSlash] + d2;
      assert |t| >= 3;
      SlashIndexAfterDigits(d1, d2);
      assert t[..|d1|] == d1;
      assert t[|d1| + 1..] == d2;
      ParseNatToString(na);
      ParseNatToString(nb);
    }
  }

  lemma {:induction false} SlashIndexAfterDigits(d1: string, d2: string)
    requires AllDigits(d1)
    ensures SlashIndex(d1 + [FractionSlash] + d2) == |d1|
  {
    var t := d1 + [FractionSlash] + d2;
    if d1 != [] {
      assert IsDigit(d1[0]);
      assert t[1..] == d1[1..] + [FractionSlash] + d2;
      SlashIndexAfterDigits(d1[1..], d2);
    }
  }

  /** The sign rule of simplifyToUnicode turns the unsigned cross-multiplication into the signed one. */
  lemma SignedCrossProduct(a: int, b: int, na: nat, nb: nat)
    requires na * Abs(b) == Abs(a) * nb
    ensures (if (a < 0) != (b < 0) then -(na as int) else na as int) * b == a * nb
  {
    if b < 0 {
      assert na * b == -(na * Abs(b));
    }
    if a < 0 {
      assert a * nb == -(Abs(a) * nb);
    }
  }

  /** The text of a reduced pair is not empty and does not start with '-'. */
  lemma FractionTextUnsigned(na: nat, nb: nat)
    ensures |FractionText(na, nb)| >= 1 && FractionText(na, nb)[0] != '-'
  {
    if (na, nb) !in FractionMap {
      assert FractionText(na, nb)[0] == NatToString(na)[0];
    }
  }

  /**
   * Fraction correctness of simplifyToUnicode for a nonzero denominator: the
   * output reads back as a pair (p, q) with p/q == a/b, q >= 1, in lowest
   * terms, and the output starts with '-' exactly when the operands differ in sign.
   */
  /** The output reads back as the signed reduced pair. */
  lemma SimplifyReadsBack(aStr: string, bStr: string)
    requires IsSignedNumeral(aStr) && IsSignedNumeral(bStr) && ParseInt(bStr) != 0
    ensures var a, b, r := ParseInt(aStr), ParseInt(bStr), Simplify(aStr, bStr);
      var (na, nb) := Reduce(a, b);
      && |r| >= 1 && (r[0] == '-' <==> (a < 0) != (b < 0))
      && ReadFraction(r) == Some((if (a < 0) != (b < 0) then -(na as int) else na as int, nb))
  {
    var a, b := ParseInt(aStr), ParseInt(bStr);
    var r := Simplify(aStr, bStr);
    var (na, nb) := Reduce(a, b);
    ReduceCorrect(a, b);
    FractionTextRoundTrip(na, nb);
    FractionTextUnsigned(na, nb);
    var t := FractionText(na, nb);
    if (a < 0) != (b < 0) {
      assert r == "-" + t;
      assert r[1..] == t;
    } else {
      assert r == t;
    }
  }

  lemma SimplifyCorrect(aStr: string, bStr: string)
    requires IsSignedNumeral(aStr) && IsSignedNumeral(bStr) && ParseInt(bStr) != 0
    ensures var a, b, r := ParseInt(aStr), ParseInt(bStr), Simplify(aStr, bStr);
      && ReadFraction(r).Some?
      && var (p, q) := ReadFraction(r).value;
      && q >= 1 && p * b == a * q && Euclid(Abs(p), q) == 1
      && (r[0] == '-' <==> (a < 0) != (b < 0))
  {
    var a, b, r := ParseInt(aStr), ParseInt(bStr), Simplify(aStr, bStr);
    var (na, nb) := Reduce(a, b);
    var p := if (a < 0) != (b < 0) then -(na as int) else na as int;
    assert ReadFraction(r) == Some((p, nb)) && (r[0] == '-' <==> (a < 0) != (b < 0)) by {
      SimplifyReadsBack(aStr, bStr);
    }
    assert nb >= 1 && Euclid(na, nb) == 1 && na * Abs(b) == Abs(a) * nb by {
      ReduceCorrect(a, b);
    }
    assert p * b == a * nb by {
      SignedCrossProduct(a, b, na, nb);
    }
    assert Abs(p) == na;
  }
}
