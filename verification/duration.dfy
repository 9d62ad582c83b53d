/** The duration text the catalogue pages and the booking page print for a
    service: "<m> min" below an hour, otherwise "<h>h" or "<h>h <m>min". The
    same rule is written out in src/pages/Servicos.tsx,
    src/components/landing/Services.tsx and src/pages/Agendar.tsx. */
module Duration {
  import opened Wrappers
  import opened Decimal
  import opened Text

  /** `s` ends with `suffix`. */
  predicate EndsWith(s: string, suffix: string) {
    |s| >= |suffix| && s[|s| - |suffix|..] == suffix
  }

  /** The text of a duration in minutes. Below 60 (negative values
      included) the number is printed as is; from 60 on, whole hours and the
      remaining minutes, the minutes only when there are some. */
  function FormatDuration(minutes: int): (text: string)
    ensures minutes < 60 <==> EndsWith(text, " min")
    ensures minutes < 60 <==> 'h' !in text
    ensures minutes >= 60 ==> (EndsWith(text, "h") <==> minutes % 60 == 0)
  {
    if minutes < 60 then
      var digits := IntToString(minutes);
      assert 'h' !in digits by { DigitsNoLetters(digits); }
      digits + " min"
    else
      var hours := minutes / 60;
      var mins := minutes % 60;
      var hs := NatToString(hours);
      assert 'h' in hs + "h" by { assert (hs + "h")[|hs|] == 'h'; }
      if mins > 0 then
        var text := hs + "h " + NatToString(mins) + "min";
        assert (hs + "h ")[|hs|] == 'h';
        assert text == (hs + "h ") + (NatToString(mins) + "min");
        assert text[|text| - 4] == NatToString(mins)[|NatToString(mins)| - 1];
        text
      else hs + "h"
  }

  /** An optionally signed digit run contains no letters or spaces. */
  lemma DigitsNoLetters(s: string)
    requires (|s| > 0 && s[0] == '-' && AllDigits(s[1..])) || AllDigits(s)
    ensures 'h' !in s && ' ' !in s && 'm' !in s
  {
    if !AllDigits(s) {
      assert forall i | 1 <= i < |s| :: s[i] == s[1..][i - 1];
    }
  }

  /** Reads a duration label back into minutes; None for any text that is not one. */
  function ParseDuration(text: string): (r: Option<int>)
    ensures r.Some? && EndsWith(text, " min") ==> r.value < 60
    ensures r.Some? && !EndsWith(text, " min") ==> r.value >= 60
  {
    if EndsWith(text, " min") then ParseShort(text[..|text| - 4]) else ParseLong(text)
  }

  /** The number in front of " min": any integer below 60. */
  function ParseShort(number: string): (r: Option<int>)
    ensures r.Some? ==> r.value < 60
  {
    match ParseInt(number)
    case Some(m) => if m < 60 then Some(m) else None
    case None => None
  }

  /** "<h>h" and what follows it, with at least one hour. */
  function ParseLong(text: string): (r: Option<int>)
    ensures r.Some? ==> r.value >= 60
  {
    ParsePieces(Split(text, 'h'))
  }

  /** The pieces around the one 'h': the hours, then what follows them. */
  function ParsePieces(parts: seq<string>): (r: Option<int>)
    ensures r.Some? ==> r.value >= 60
  {
    if |parts| != 2 then None
    else
      match ParseNat(parts[0])
      case None => None
      case Some(h) => if h < 1 then None else ParseAfterHours(h, parts[1])
  }

  /** What may follow "<h>h": nothing, or " <m>min" with 1 <= m < 60. */
  function ParseAfterHours(h: nat, rest: string): (r: Option<int>)
    requires h >= 1
    ensures r.Some? ==> h * 60 <= r.value < h * 60 + 60
  {
    if rest == "" then Some(h * 60)
    else if |rest| >= 4 && rest[0] == ' ' && EndsWith(rest, "min") then
      match ParseNat(rest[1..|rest| - 3])
      case Some(m) => if 1 <= m < 60 then Some(h * 60 + m) else None
      case None => None
    else None
  }

  /** Every label reads back as the duration it was printed from, so no two
      durations share a label. */
  lemma DurationRoundTrip(minutes: int)
    ensures ParseDuration(FormatDuration(minutes)) == Some(minutes)
  {
    if minutes < 60 {
      ShortRoundTrip(minutes);
    } else if minutes % 60 == 0 {
      WholeHoursRoundTrip(minutes);
    } else {
      MixedRoundTrip(minutes);
    }
  }

  lemma ShortRoundTrip(minutes: int)
    requires minutes < 60
    ensures ParseDuration(FormatDuration(minutes)) == Some(minutes)
  {
    var text := FormatDuration(minutes);
    var digits := IntToString(minutes);
    assert text == digits + " min";
    assert EndsWith(text, " min");
    assert text[..|text| - 4] == digits;
    ParseIntRoundTrip(minutes);
  }

  lemma WholeHoursRoundTrip(minutes: int)
    requires minutes >= 60 && minutes % 60 == 0
    ensures ParseDuration(FormatDuration(minutes)) == Some(minutes)
  {
    var text := FormatDuration(minutes);
    var hs := NatToString(minutes / 60);
    assert text == hs + "h";
    DigitsNoLetters(hs);
    assert text == hs + ['h'] + "";
    SplitAtFirst(hs, 'h', "");
    assert Split(text, 'h') == [hs, ""];
  }

  lemma MixedRoundTrip(minutes: int)
    requires minutes >= 60 && minutes % 60 != 0
    ensures ParseDuration(FormatDuration(minutes)) == Some(minutes)
  {
    var hs := NatToString(minutes / 60);
    var ms := NatToString(minutes % 60);
    assert FormatDuration(minutes) == hs + "h " + ms + "min";
    ReadHoursAndMinutes(hs, ms);
  }

  /** "<h>h <m>min" reads back as h hours and m minutes. */
  lemma ReadHoursAndMinutes(hs: string, ms: string)
    requires |hs| > 0 && AllDigits(hs) && DigitsValue(hs) >= 1
    requires |ms| > 0 && AllDigits(ms) && 1 <= DigitsValue(ms) < 60
    ensures ParseDuration(hs + "h " + ms + "min") == Some(DigitsValue(hs) * 60 + DigitsValue(ms))
  {
    MixedNotShort(hs, ms);
    ReadLongForm(hs, ms);
  }

  lemma ReadLongForm(hs: string, ms: string)
    requires |hs| > 0 && AllDigits(hs) && DigitsValue(hs) >= 1
    requires |ms| > 0 && AllDigits(ms) && 1 <= DigitsValue(ms) < 60
    ensures ParseLong(hs + "h " + ms + "min") == Some(DigitsValue(hs) * 60 + DigitsValue(ms))
  {
    MixedSplit(hs, ms);
    ReadPieces(hs, ms);
  }

  lemma ReadPieces(hs: string, ms: string)
    requires |hs| > 0 && AllDigits(hs) && DigitsValue(hs) >= 1
    requires |ms| > 0 && AllDigits(ms) && 1 <= DigitsValue(ms) < 60
    ensures ParsePieces([hs, " " + ms + "min"]) == Some(DigitsValue(hs) * 60 + DigitsValue(ms))
  {
    var h: nat := DigitsValue(hs);
    MinutesPart(h, ms);
    assert ParseNat(hs) == Some(h);
  }

  lemma MixedNotShort(hs: string, ms: string)
    requires |ms| > 0 && AllDigits(ms)
    ensures !EndsWith(hs + "h " + ms + "min", " min")
  {
    var text := hs + "h " + ms + "min";
    assert text == (hs + "h " + ms) + "min";
    assert text[|text| - 4] == ms[|ms| - 1];
  }

  lemma MixedSplit(hs: string, ms: string)
    requires AllDigits(hs) && AllDigits(ms)
    ensures Split(hs + "h " + ms + "min", 'h') == [hs, " " + ms + "min"]
  {
    var text := hs + "h " + ms + "min";
    var rest := " " + ms + "min";
    assert text == hs + ['h'] + rest;
    DigitsNoLetters(hs);
    DigitsNoLetters(ms);
    assert 'h' !in rest by {
      assert forall i | 0 <= i < |rest| :: rest[i] == ' ' || rest[i] in ms || rest[i] in "min";
    }
    SplitAtFirst(hs, 'h', rest);
  }

  lemma MinutesPart(h: nat, ms: string)
    requires h >= 1
    requires |ms| > 0 && AllDigits(ms) && 1 <= DigitsValue(ms) < 60
    ensures ParseAfterHours(h, " " + ms + "min") == Some(h * 60 + DigitsValue(ms))
  {
    var rest := " " + ms + "min";
    assert rest[1..|rest| - 3] == ms;
    assert rest[|rest| - 3..] == "min";
  }

  /** Below an hour the number is printed with its sign: "45 min", "-5 min". */
  lemma ShortExamples()
    ensures FormatDuration(45) == "45 min"
    ensures FormatDuration(-5) == "-5 min"
  {
    SpellTwoDigits(45);
  }

  /** Whole hours print without minutes: "1h", "2h". */
  lemma WholeHourExamples()
    ensures FormatDuration(60) == "1h"
    ensures FormatDuration(120) == "2h"
  {
  }

  /** Hours and minutes: 90 minutes is "1h 30min". */
  lemma MixedExample()
    ensures FormatDuration(90) == "1h 30min"
  {
    assert 90 / 60 == 1 && 90 % 60 == 30;
    assert NatToString(1) == "1";
    SpellTwoDigits(30);
  }
}
