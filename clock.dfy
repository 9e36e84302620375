/**
 * The `m:ss` clock shown by both quiz screens and the time strings of the
 * results and history screens: `${Math.floor(t / 60)}:${(t % 60).toString().padStart(2, "0")}`.
 */
module Clock {
  import opened Wrappers
  import opened Decimal

  /** `n.toString().padStart(2, "0")`: a zero is put in front of a single digit. */
  function Pad2(n: nat): (r: string)
    ensures AllDigits(r) && ParseNat(r) == n
    ensures 2 <= |r| && (n < 100 ==> |r| == 2)
  {
    ParseNatToString(n);
    if n < 10 then
      ParseNatLeadingZero(NatToString(n));
      "0" + NatToString(n)
    else
      assert n < 100 ==> |NatToString(n / 10)| == 1;
      NatToString(n)
  }

  /** The clock for t seconds: whole minutes, a colon, then the seconds in two digits. */
  function FormatClock(t: nat): (r: string)
    ensures 4 <= |r| && r[|r| - 3] == ':'
  {
    NatToString(t / 60) + ":" + Pad2(t % 60)
  }

  /** Reads a clock back as the (minutes, seconds) it shows; None for anything that is not `m:ss`. */
  function ReadClock(s: string): (r: Option<(nat, nat)>)
    ensures r.Some? ==> r.value.1 < 60
  {
    if |s| < 4 || s[|s| - 3] != ':' then None
    else
      var m, ss := s[..|s| - 3], s[|s| - 2..];
      if AllDigits(m) && AllDigits(ss) && ParseNat(ss) < 60 then Some((ParseNat(m), ParseNat(ss))) else None
  }

  /** The clock shows minutes and seconds that add up to t, with the seconds below 60. */
  lemma ClockShowsTime(t: nat)
    ensures var c := ReadClock(FormatClock(t));
            c.Some? && c.value.0 * 60 + c.value.1 == t && c.value.1 < 60
  {
    var m, p := NatToString(t / 60), Pad2(t % 60);
    var r := FormatClock(t);
    assert r[..|r| - 3] == m;
    assert r[|r| - 2..] == p;
    ParseNatToString(t / 60);
  }

  /** Two different times never show the same clock. */
  lemma ClockInjective(s: nat, t: nat)
    requires FormatClock(s) == FormatClock(t)
    ensures s == t
  {
    ClockShowsTime(s);
    ClockShowsTime(t);
  }
}
