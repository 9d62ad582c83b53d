/** Wall-clock times as the booking page handles them: "HH:MM" texts, read
    with `split(':').map(Number)`, compared as strings, and an end time formed
    by adding a duration in minutes. */
module Clock {
  import opened Wrappers
  import opened Decimal
  import opened Text

  /** Exactly five characters: two digits, a colon, two digits. */
  predicate IsClock(t: string) {
    |t| == 5 && IsDigit(t[0]) && IsDigit(t[1]) && t[2] == ':' && IsDigit(t[3]) && IsDigit(t[4])
  }

  /** An "HH:MM" text whose minutes are below 60. */
  predicate IsWallClock(t: string) {
    IsClock(t) && 10 * DigitValue(t[3]) + DigitValue(t[4]) < 60
  }

  /** Minutes since midnight of an "HH:MM" text. */
  function ClockMinutes(t: string): (m: nat)
    requires IsClock(t)
  {
    60 * (10 * DigitValue(t[0]) + DigitValue(t[1])) + 10 * DigitValue(t[3]) + DigitValue(t[4])
  }

  /** `const [hours, minutes] = t.split(':').map(Number)` when the first two
      pieces are runs of digits; None stands for every text on which `Number`
      would produce something else (NaN, or a value read from signs, spaces
      or exponents), which this model does not follow. */
  function ReadClock(t: string): Option<(nat, nat)> {
    var parts := Split(t, ':');
    if |parts| >= 2 && AllDigits(parts[0]) && AllDigits(parts[1])
    then Some((DigitsValue(parts[0]), DigitsValue(parts[1])))
    else None
  }

  /** On an "HH:MM" text, reading hours and minutes gives the two digit pairs. */
  lemma ReadClockOfClock(t: string)
    requires IsClock(t)
    ensures ReadClock(t) == Some((10 * DigitValue(t[0]) + DigitValue(t[1]), 10 * DigitValue(t[3]) + DigitValue(t[4])))
    ensures ReadClock(t).value.0 * 60 + ReadClock(t).value.1 == ClockMinutes(t)
  {
    var a, b := t[..2], t[3..];
    assert t == a + [':'] + b;
    assert ':' !in a by { assert a == [t[0], t[1]]; }
    assert ':' !in b by { assert b == [t[3], t[4]]; }
    SplitAtFirst(a, ':', b);
    assert Split(t, ':') == [a, b];
    TwoDigitsValue(a);
    TwoDigitsValue(b);
  }

  /** `Math.trunc(a / b)` for a positive `b`: the quotient rounded towards zero. */
  function TruncQuot(a: int, b: int): int
    requires b > 0
  {
    if a >= 0 then a / b else -((-a) / b)
  }

  /** JavaScript's `a % b` for a positive `b`: what is left of `a` after
      taking the quotient rounded towards zero, so the remainder takes the
      sign of `a`. */
  function JsRem(a: int, b: int): (r: int)
    requires b > 0
    ensures a == b * TruncQuot(a, b) + r
    ensures a >= 0 ==> 0 <= r < b
    ensures a < 0 ==> -b < r <= 0
  {
    var n := if a >= 0 then a else -a;
    var q, m := n / b, n % b;
    assert n == b * q + m;
    if a >= 0 then m
    else
      assert b * -q == -(b * q);
      -m
  }

  /** Minutes `total` spelled the way the booking page spells an end time:
      `Math.floor(total / 60)` and `total % 60`, each padded to two
      characters, joined by a colon. Hours are not reduced modulo 24. */
  function FormatClock(total: int): string {
    PadTwo(IntToString(total / 60)) + ":" + PadTwo(IntToString(JsRem(total, 60)))
  }

  /** Start read as hours and minutes, plus the duration. */
  function EndTotal(start: string, duration: int): int
    requires ReadClock(start).Some?
  {
    ReadClock(start).value.0 * 60 + ReadClock(start).value.1 + duration
  }

  /** The end time the booking page stores for a start and a duration: when
      the total is not negative, it reads back with the same `split`/`Number`
      rule as hours and minutes below 60 that add up to start plus duration. */
  function EndTime(start: string, duration: int): (end: string)
    requires ReadClock(start).Some?
    ensures EndTotal(start, duration) >= 0 ==>
      && ReadClock(end).Some?
      && ReadClock(end).value.1 < 60
      && ReadClock(end).value.0 * 60 + ReadClock(end).value.1 == EndTotal(start, duration)
  {
    var total := EndTotal(start, duration);
    if total >= 0 then
      FormatClockReadsBack(total);
      FormatClock(total)
    else FormatClock(total)
  }

  /** Two digit runs joined by a colon read back as their two values. */
  lemma ReadJoined(a: string, b: string)
    requires AllDigits(a) && AllDigits(b)
    ensures ReadClock(a + ":" + b) == Some((DigitsValue(a), DigitsValue(b)))
  {
    assert ':' !in a && ':' !in b by {
      assert forall i | 0 <= i < |a| :: IsDigit(a[i]);
      assert forall i | 0 <= i < |b| :: IsDigit(b[i]);
    }
    SplitAtFirst(a, ':', b);
    assert a + ":" + b == a + [':'] + b;
    assert Split(a + ":" + b, ':') == [a, b];
  }

  /** Reading a formatted non-negative total back with the `split`/`Number`
      rule gives its hours and its minutes below 60. */
  lemma FormatClockReadsBack(total: int)
    requires total >= 0
    ensures ReadClock(FormatClock(total)) == Some((total / 60, total % 60))
  {
    var h, m := total / 60, total % 60;
    assert JsRem(total, 60) == m;
    var a := PadTwo(NatToString(h));
    var b := PadTwo(NatToString(m));
    assert FormatClock(total) == a + ":" + b;
    PadTwoValue(h);
    PadTwoValue(m);
    ReadJoined(a, b);
  }

  /** Reading the end time back with the same `split`/`Number` rule gives
      hours and minutes below 60 that add up to start plus duration, for any
      non-negative total; nothing bounds the hours. */
  lemma EndTimeReadsBack(start: string, duration: int)
    requires ReadClock(start).Some?
    requires EndTotal(start, duration) >= 0
    ensures ReadClock(EndTime(start, duration)).Some?
    ensures var hm := ReadClock(EndTime(start, duration)).value;
      hm.1 < 60 && hm.0 * 60 + hm.1 == EndTotal(start, duration)
  {
    FormatClockReadsBack(EndTotal(start, duration));
  }

  /** While the end stays below hour 100 it is again an "HH:MM" text, and
      its minute count is start plus duration. */
  lemma EndTimeIsClock(start: string, duration: int)
    requires ReadClock(start).Some?
    requires 0 <= EndTotal(start, duration) < 100 * 60
    ensures IsWallClock(EndTime(start, duration))
    ensures ClockMinutes(EndTime(start, duration)) == EndTotal(start, duration)
  {
    var total := EndTotal(start, duration);
    var e := FormatClock(total);
    FormatClockShape(total);
    FormatClockReadsBack(total);
    ReadClockOfClock(e);
  }

  /** Below hour 100 the formatted total has the "HH:MM" shape. */
  lemma FormatClockShape(total: int)
    requires 0 <= total < 100 * 60
    ensures IsClock(FormatClock(total))
  {
    var h, m := total / 60, total % 60;
    assert JsRem(total, 60) == m;
    var a := PadTwo(NatToString(h));
    var b := PadTwo(NatToString(m));
    PadTwoShape(h);
    PadTwoShape(m);
    JoinedIsClock(a, b);
    assert FormatClock(total) == a + ":" + b;
  }

  /** A number below 100, spelled and padded, is two digits. */
  lemma PadTwoShape(n: nat)
    requires n < 100
    ensures |PadTwo(NatToString(n))| == 2 && AllDigits(PadTwo(NatToString(n)))
  {
    PadTwoValue(n);
    if n >= 10 {
      SpellTwoDigits(n);
    }
  }

  /** Two pairs of digits joined by a colon. */
  lemma JoinedIsClock(a: string, b: string)
    requires |a| == 2 && AllDigits(a)
    requires |b| == 2 && AllDigits(b)
    ensures IsClock(a + ":" + b)
  {
    var t := a + ":" + b;
    assert t[0] == a[0] && t[1] == a[1] && t[2] == ':' && t[3] == b[0] && t[4] == b[1];
  }

  /** The end is not wrapped at midnight: 17:00 plus eight hours is "25:00". */
  lemma EndTimePastMidnight()
    ensures ReadClock("17:00").Some?
    ensures EndTime("17:00", 480) == "25:00"
  {
    ReadClockOfClock("17:00");
    assert EndTotal("17:00", 480) == 1500;
    TwentyFiveHours();
  }

  /** 1500 minutes are spelled "25:00". */
  lemma TwentyFiveHours()
    ensures FormatClock(1500) == "25:00"
  {
    assert 1500 / 60 == 25 && JsRem(1500, 60) == 0;
    assert IntToString(25) == "25" by { SpellTwoDigits(25); }
    assert IntToString(0) == "0";
  }

  /** For a negative total the floor/truncation mix gives a negative hour and
      a negative minute part: 08:00 with a duration of -500 ends at "-1:-20",
      which does not denote the -20 minutes it stands for. */
  lemma EndTimeNegativeTotal()
    ensures ReadClock("08:00").Some?
    ensures EndTime("08:00", -500) == "-1:-20"
    ensures EndTotal("08:00", -500) == -20 != -1 * 60 + -20
  {
    ReadClockOfClock("08:00");
    assert EndTotal("08:00", -500) == -20;
    assert -20 / 60 == -1;
    assert 20 % 60 == 20;
    assert JsRem(-20, 60) == -20;
    assert IntToString(-1) == "-1";
    SpellTwoDigits(20);
    assert IntToString(-20) == "-20";
    assert FormatClock(-20) == "-1" + ":" + "-20";
  }

  /** String order on two "HH:MM" texts is the order of their digit pairs. */
  lemma LexLessOnClocks(a: string, b: string)
    requires IsClock(a) && IsClock(b)
    ensures LexLess(a, b) <==>
      (a[0] < b[0] || (a[0] == b[0] && (a[1] < b[1] || (a[1] == b[1] &&
        (a[3] < b[3] || (a[3] == b[3] && a[4] < b[4]))))))
  {
    assert a[1..][1..] == a[2..] && b[1..][1..] == b[2..];
    assert a[2..][1..] == a[3..] && b[2..][1..] == b[3..];
    assert a[3..][1..] == a[4..] && b[3..][1..] == b[4..];
    assert a[4..][1..] == [] && b[4..][1..] == [];
    assert !LexLess(a[5..], b[5..]);
    assert LexLess(a[4..], b[4..]) == (a[4] < b[4]);
    assert LexLess(a[3..], b[3..]) == (if a[3] != b[3] then a[3] < b[3] else LexLess(a[4..], b[4..]));
    assert LexLess(a[2..], b[2..]) == LexLess(a[3..], b[3..]);
    assert LexLess(a[1..], b[1..]) == (if a[1] != b[1] then a[1] < b[1] else LexLess(a[2..], b[2..]));
    assert LexLess(a, b) == (if a[0] != b[0] then a[0] < b[0] else LexLess(a[1..], b[1..]));
  }

  /** On well-formed "HH:MM" texts string comparison, as the blocked-interval
      test uses it, agrees with comparing minutes since midnight. */
  lemma ClockOrderAgrees(a: string, b: string)
    requires IsWallClock(a) && IsWallClock(b)
    ensures LexLess(a, b) <==> ClockMinutes(a) < ClockMinutes(b)
  {
    LexLessOnClocks(a, b);
  }
}
