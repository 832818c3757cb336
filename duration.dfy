/** The duration parser (`parse_duration_str`) for the route site's
    "<H>時間<M>分" and "<M>分" texts, with the duration kept as whole minutes,
    and the text `str()` gives the resulting `timedelta` (`str(timedelta)`),
    with a reader that takes that text back to minutes. */
module Durations {
  import opened Text

  /** The separators: "時間" (hours) and "分" (minutes). */
  const HoursMark := "時間"
  const MinutesMark := "分"

  /** What a call of `parse_duration_str` ends in: a `timedelta` of `total`
      minutes, `None`, or an `OverflowError` from the `timedelta` constructor,
      which escapes because only `ValueError` and `IndexError` are caught. */
  datatype Parsed = Minutes(total: int) | NoDuration | TooLarge

  /** `timedelta` keeps its day count within plus or minus this. */
  const MaxDays := 999999999

  /** `timedelta(minutes=total)` does not overflow: its day count, the floor of
      `total / 1440` (1440 minutes a day), is within `MaxDays` of zero. */
  predicate InTimedeltaRange(total: int) {
    -MaxDays <= total / 1440 <= MaxDays
  }

  /** `timedelta(hours=h, minutes=m)` for a total of `total = 60 * h + m`. */
  function MakeTimedelta(total: int): (r: Parsed)
    ensures r.Minutes? <==> InTimedeltaRange(total)
    ensures r.Minutes? ==> r.total == total
    ensures !r.NoDuration?
  {
    if InTimedeltaRange(total) then Minutes(total) else TooLarge
  }

  /** The range in minutes: a `timedelta` of `total` minutes exists exactly
      from -999999999 whole days up to, but not including, 1000000000 days. */
  lemma TimedeltaRangeInMinutes(total: int)
    ensures MakeTimedelta(total).Minutes? <==> -1440 * MaxDays <= total < 1440 * (MaxDays + 1)
  {
    var days := total / 1440;
    assert total == 1440 * days + total % 1440 && 0 <= total % 1440 < 1440;
    if days > MaxDays {
      assert total >= 1440 * (MaxDays + 1);
    } else if days < -MaxDays {
      assert total < 1440 * -MaxDays;
    }
  }

  /** `int(segment.strip())`, `None` standing for the `ValueError`. */
  function ReadSegment(segment: string): Option<int> {
    ParseInt(Strip(segment))
  }

  /** The hours segment: the text before the first "時間". */
  function HoursSegment(s: string): string {
    Before(s, HoursMark)
  }

  /** The minutes segment after "時間": the second piece of splitting at
      "時間", cut at its first "分". */
  function MinutesAfterHours(s: string): string
    requires Contains(s, HoursMark)
  {
    Before(Before(After(s, HoursMark), HoursMark), MinutesMark)
  }

  /** The minutes segment when there is no "時間": the text before the first "分". */
  function MinutesOnly(s: string): string {
    Before(s, MinutesMark)
  }

  /** `parse_duration_str`: with "時間" present, the text before its first
      occurrence is the hours and the text between it and the next "時間", cut
      at the first "分", is the minutes; otherwise the text before the first
      "分" (all of it when there is none) is the minutes. Each segment is
      stripped and read as an integer; a segment that is not an integer gives
      `None`. Minutes are not range-checked. */
  function ParseDuration(s: string): Parsed {
    if Contains(s, HoursMark) then
      match (ReadSegment(HoursSegment(s)), ReadSegment(MinutesAfterHours(s)))
      case (Some(hours), Some(minutes)) => MakeTimedelta(hours * 60 + minutes)
      case _ => NoDuration
    else
      match ReadSegment(MinutesOnly(s))
      case Some(minutes) => MakeTimedelta(minutes)
      case None => NoDuration
  }

  // ---------------------------------------------------------------------
  // What the parser accepts
  // ---------------------------------------------------------------------

  /** Text in which no separator can begin. */
  predicate Unmarked(s: string) {
    HoursMark[0] !in s && MinutesMark[0] !in s
  }

  /** A digit run with whitespace around it holds no separator. */
  lemma {:induction false} PaddedUnmarked(w1: string, ds: string, w2: string)
    requires AllSpace(w1) && AllSpace(w2) && IsDigits(ds)
    ensures Unmarked(w1 + ds + w2)
  {
  }

  /** A digit run with whitespace around it strips to the digits and reads as
      their value. */
  lemma {:induction false} PaddedNumber(w1: string, ds: string, w2: string)
    requires AllSpace(w1) && AllSpace(w2) && IsDigits(ds)
    ensures ReadSegment(w1 + ds + w2) == Some(DigitsValue(ds) as int)
  {
    assert forall i :: 0 <= i < |ds| ==> !IsSpace(ds[i]);
    StripPadded(w1, ds, w2);
  }

  /** The separators of "a時間m分rest" fall where they are written. */
  lemma {:induction false} HoursFormSegments(a: string, m: string, rest: string)
    requires Unmarked(a) && Unmarked(m)
    ensures Contains(a + HoursMark + (m + MinutesMark + rest), HoursMark)
    ensures HoursSegment(a + HoursMark + (m + MinutesMark + rest)) == a
    ensures MinutesAfterHours(a + HoursMark + (m + MinutesMark + rest)) == m
  {
    var b := m + MinutesMark + rest;
    assert HoursMark[0] !in a;
    BeforeAtSeparator(a, HoursMark, b);
    assert After(a + HoursMark + b, HoursMark) == b;
    // The second "時間"-piece still starts with the minutes and their "分".
    assert HoursMark[0] !in m + MinutesMark;
    BeforeKeepsPrefix(m + MinutesMark, rest, HoursMark);
    var t :| Before(b, HoursMark) == m + MinutesMark + t;
    assert MinutesMark[0] !in m;
    BeforeAtSeparator(m, MinutesMark, t);
  }

  /** "H時間M分": hours and minutes spelled in decimal, each with any
      whitespace around it, and anything at all after the "分", give
      `60 * H + M` minutes. */
  lemma {:induction false} ParseHoursAndMinutes(w1: string, hs: string, w2: string, w3: string, ms: string, w4: string, rest: string, h: nat, m: nat)
    requires AllSpace(w1) && AllSpace(w2) && AllSpace(w3) && AllSpace(w4)
    requires IsDigits(hs) && DigitsValue(hs) == h
    requires IsDigits(ms) && DigitsValue(ms) == m
    ensures ParseDuration((w1 + hs + w2) + HoursMark + ((w3 + ms + w4) + MinutesMark + rest)) == MakeTimedelta(h * 60 + m)
  {
    PaddedUnmarked(w1, hs, w2);
    PaddedUnmarked(w3, ms, w4);
    PaddedNumber(w1, hs, w2);
    PaddedNumber(w3, ms, w4);
    ParseHoursForm(w1 + hs + w2, w3 + ms + w4, rest);
  }

  /** The hours form parses its two segments. */
  lemma {:induction false} ParseHoursForm(a: string, m: string, rest: string)
    requires Unmarked(a) && Unmarked(m)
    ensures ParseDuration(a + HoursMark + (m + MinutesMark + rest)) ==
      match (ReadSegment(a), ReadSegment(m))
      case (Some(hours), Some(minutes)) => MakeTimedelta(hours * 60 + minutes)
      case _ => NoDuration
  {
    HoursFormSegments(a, m, rest);
  }

  /** Without "時間" anywhere, the text before the first "分" is the minutes. */
  lemma {:induction false} ParseMinutesForm(m: string, rest: string)
    requires Unmarked(m) && !Contains(rest, HoursMark)
    ensures ParseDuration(m + MinutesMark + rest) ==
      match ReadSegment(m)
      case Some(minutes) => MakeTimedelta(minutes)
      case None => NoDuration
  {
    assert HoursMark[0] !in m + MinutesMark;
    IndexOfSkip(m + MinutesMark, rest, HoursMark);
    BeforeAtSeparator(m, MinutesMark, rest);
  }

  /** "M分" without "時間" anywhere gives M minutes, whatever follows the "分". */
  lemma {:induction false} ParseMinutesOnly(w1: string, ms: string, w2: string, rest: string, m: nat)
    requires AllSpace(w1) && AllSpace(w2) && IsDigits(ms) && DigitsValue(ms) == m
    requires !Contains(rest, HoursMark)
    ensures ParseDuration(w1 + ms + w2 + MinutesMark + rest) == MakeTimedelta(m)
  {
    PaddedUnmarked(w1, ms, w2);
    PaddedNumber(w1, ms, w2);
    ParseMinutesForm(w1 + ms + w2, rest);
  }

  /** Text with neither separator is read whole as minutes. */
  lemma {:induction false} NoMarksSegments(s: string)
    requires Unmarked(s)
    ensures !Contains(s, HoursMark) && MinutesOnly(s) == s
  {
    assert HoursMark[0] !in s && MinutesMark[0] !in s;
    IndexOfSkip(s, [], HoursMark);
    IndexOfSkip(s, [], MinutesMark);
    assert s + [] == s;
  }

  /** A bare number, with no separator at all, is read as minutes. */
  lemma {:induction false} ParseBareNumber(w1: string, ms: string, w2: string, m: nat)
    requires AllSpace(w1) && AllSpace(w2) && IsDigits(ms) && DigitsValue(ms) == m
    ensures ParseDuration(w1 + ms + w2) == MakeTimedelta(m)
  {
    PaddedUnmarked(w1, ms, w2);
    PaddedNumber(w1, ms, w2);
    NoMarksSegments(w1 + ms + w2);
  }

  /** Empty whitespace around a segment leaves the text as written. */
  lemma {:induction false} EmptyPadding(a: string, b: string, c: string, d: string)
    ensures ("" + a + "") + b + (("" + c + "") + d + "") == a + b + c + d
    ensures "" + c + "" + d + "" == c + d
    ensures "" + c + "" == c
  {
  }

  /** The shapes the site writes parse to the durations they spell. */
  lemma {:induction false} ParseRoundTrip(h: nat, m: nat)
    ensures ParseDuration(NatToStr(h) + HoursMark + NatToStr(m) + MinutesMark) == MakeTimedelta(h * 60 + m)
    ensures ParseDuration(NatToStr(m) + MinutesMark) == MakeTimedelta(m)
  {
    var hs, ms := NatToStr(h), NatToStr(m);
    NatToStrValue(h);
    NatToStrValue(m);
    EmptyPadding(hs, HoursMark, ms, MinutesMark);
    ParseHoursAndMinutes("", hs, "", "", ms, "", "", h, m);
    IndexOfSkip("", "", HoursMark);
    ParseMinutesOnly("", ms, "", "", m);
  }

  /** A duration of a billion days or more, its numbers spelled within the
      digit limit of `int()`, is not `None` but an `OverflowError` that
      escapes the parser. */
  lemma {:induction false} ParseOverflow(h: nat, m: nat)
    requires h * 60 + m >= 1440 * (MaxDays + 1)
    ensures ParseDuration(NatToStr(h) + HoursMark + NatToStr(m) + MinutesMark) == TooLarge
  {
    ParseRoundTrip(h, m);
  }

  /** A signed decimal number, with no whitespace around it, is a segment
      `int()` reads as that number. */
  lemma {:induction false} SignedSegment(h: int)
    ensures Unmarked(IntToStr(h)) && ReadSegment(IntToStr(h)) == Some(h)
  {
    var hs := IntToStr(h);
    assert Unmarked(hs) && !IsSpace(hs[0]) && !IsSpace(hs[|hs| - 1]) by {
      if h < 0 {
        assert hs == "-" + NatToStr(-h);
      }
    }
    StripPadded("", hs, "");
    assert "" + hs + "" == hs;
    ParseIntRoundTrip(h);
  }

  /** Nothing written after the "分". */
  lemma {:induction false} NothingAfter(a: string, b: string, c: string, d: string)
    ensures a + b + c + d == a + b + (c + d + "")
  {
  }

  /** "a時間m分" with two segments `int()` reads. */
  lemma {:induction false} ParseReadSegments(a: string, ms: string, h: int, m: int)
    requires Unmarked(a) && ReadSegment(a) == Some(h)
    requires Unmarked(ms) && ReadSegment(ms) == Some(m)
    ensures ParseDuration(a + HoursMark + ms + MinutesMark) == MakeTimedelta(h * 60 + m)
  {
    NothingAfter(a, HoursMark, ms, MinutesMark);
    ParseHoursForm(a, ms, "");
  }

  /** A decimal number, with no whitespace around it, is a segment `int()`
      reads as that number. */
  lemma {:induction false} NaturalSegment(m: nat)
    ensures Unmarked(NatToStr(m)) && ReadSegment(NatToStr(m)) == Some(m)
  {
    assert IntToStr(m) == NatToStr(m);
    SignedSegment(m);
  }

  /** "-H時間M分": a signed hours count is read by `int()` as well, so the
      text parses to `60 * H + M` minutes with `H` negative. */
  lemma {:induction false} ParseSignedHours(h: int, m: nat)
    ensures ParseDuration(IntToStr(h) + HoursMark + NatToStr(m) + MinutesMark) == MakeTimedelta(h * 60 + m)
  {
    SignedSegment(h);
    NaturalSegment(m);
    ParseReadSegments(IntToStr(h), NatToStr(m), h, m);
  }

  /** Below -999999999 days the overflow escapes as well: a negative
      duration, its numbers spelled within the digit limit of `int()`, is
      never read as `None` either. */
  lemma {:induction false} ParseOverflowNegative(h: int, m: nat)
    requires h * 60 + m < -1440 * MaxDays
    ensures ParseDuration(IntToStr(h) + HoursMark + NatToStr(m) + MinutesMark) == TooLarge
  {
    TimedeltaRangeInMinutes(h * 60 + m);
    ParseSignedHours(h, m);
  }

  // ---------------------------------------------------------------------
  // What the parser rejects
  // ---------------------------------------------------------------------

  /** A segment `int()` accepts holds a digit. */
  lemma {:induction false} SegmentDigit(segment: string)
    requires ReadSegment(segment).Some?
    ensures HasDigit(segment)
  {
    ParseIntHasDigit(Strip(segment));
    StripHasDigit(segment);
  }

  /** Text with no ASCII decimal digit never yields a duration: "" and "abc分" give
      `None`. */
  lemma {:induction false} NoDigitNoDuration(s: string)
    requires !HasDigit(s)
    ensures ParseDuration(s) == NoDuration
  {
    if Contains(s, HoursMark) {
      if ReadSegment(HoursSegment(s)).Some? {
        SegmentDigit(HoursSegment(s));
        BeforeHasDigit(s, HoursMark);
      }
      var after := After(s, HoursMark);
      var piece := Before(after, HoursMark);
      if ReadSegment(MinutesAfterHours(s)).Some? {
        SegmentDigit(MinutesAfterHours(s));
        BeforeHasDigit(piece, MinutesMark);
        BeforeHasDigit(after, HoursMark);
        AfterHasDigit(s, HoursMark);
      }
    } else {
      if ReadSegment(MinutesOnly(s)).Some? {
        SegmentDigit(MinutesOnly(s));
        BeforeHasDigit(s, MinutesMark);
      }
    }
  }

  /** An empty hours segment gives `None`: "時間30分". */
  lemma {:induction false} MissingHours(w: string, rest: string)
    requires AllSpace(w)
    ensures ParseDuration(w + HoursMark + rest) == NoDuration
  {
    assert HoursMark[0] !in w;
    BeforeAtSeparator(w, HoursMark, rest);
    StripLeftPadded(w, "");
    assert w + "" == w;
  }

  /** A blank minutes piece is no integer. */
  lemma {:induction false} BlankSegment(w: string)
    requires AllSpace(w)
    ensures ReadSegment(Before(Before(w, HoursMark), MinutesMark)) == None
  {
    assert Unmarked(w);
    NoMarksSegments(w);
    assert Before(w, HoursMark) == w by {
      IndexOfSkip(w, [], HoursMark);
      assert w + [] == w;
    }
    StripLeftPadded(w, "");
    assert w + "" == w;
  }

  /** An empty minutes segment gives `None`: "1時間". */
  lemma {:induction false} MissingMinutes(w1: string, hs: string, w2: string, w3: string)
    requires AllSpace(w1) && AllSpace(w2) && AllSpace(w3) && IsDigits(hs)
    ensures ParseDuration(w1 + hs + w2 + HoursMark + w3) == NoDuration
  {
    var a := w1 + hs + w2;
    assert w1 + hs + w2 + HoursMark + w3 == a + HoursMark + w3;
    assert Contains(a + HoursMark + w3, HoursMark) && After(a + HoursMark + w3, HoursMark) == w3 by {
      PaddedUnmarked(w1, hs, w2);
      BeforeAtSeparator(a, HoursMark, w3);
    }
    BlankSegment(w3);
  }

  /** Minutes past 59 are taken as they are: "1時間90分" is 150 minutes. */
  lemma {:induction false} ParseExampleLongMinutes()
    ensures ParseDuration("1時間90分") == Minutes(150)
  {
    assert DigitsValue("1") == 1;
    assert DigitsValue("90") == 90 by {
      assert "90"[..1] == "9";
    }
    EmptyPadding("1", HoursMark, "90", MinutesMark);
    assert "1" + HoursMark + "90" + MinutesMark == "1時間90分";
    ParseHoursAndMinutes("", "1", "", "", "90", "", "", 1, 90);
  }

  /** A bare "45" is 45 minutes. */
  lemma {:induction false} ParseExampleBare()
    ensures ParseDuration("45") == Minutes(45)
  {
    assert DigitsValue("45") == 45 by {
      assert "45"[..1] == "4";
    }
    EmptyPadding("", "", "45", "");
    ParseBareNumber("", "45", "", 45);
  }

  /** Text without digits gives `None`: "" and "abc分". */
  lemma {:induction false} ParseExamplesNoDigits()
    ensures ParseDuration("") == NoDuration
    ensures ParseDuration("abc分") == NoDuration
  {
    NoDigitNoDuration("");
    assert !HasDigit("abc分") by {
      assert forall i :: 0 <= i < |"abc分"| ==> !IsDigit("abc分"[i]);
    }
    NoDigitNoDuration("abc分");
  }

  /** Hours without minutes give `None`: "1時間". */
  lemma {:induction false} ParseExampleNoMinutes()
    ensures ParseDuration("1時間") == NoDuration
  {
    assert "" + "1" + "" + HoursMark + "" == "1時間";
    MissingMinutes("", "1", "", "");
  }

  /** Minutes after an empty hours segment give `None`: "時間30分". */
  lemma {:induction false} ParseExampleNoHours()
    ensures ParseDuration("時間30分") == NoDuration
  {
    assert "" + HoursMark + "30分" == "時間30分";
    MissingHours("", "30分");
  }

  // ---------------------------------------------------------------------
  // str(timedelta) and its reader
  // ---------------------------------------------------------------------

  /** `'%02d' % n` for `n < 100`. */
  function Pad2(n: nat): string
    requires n < 100
  {
    if n < 10 then "0" + NatToStr(n) else NatToStr(n)
  }

  /** "H:MM:00" for `rem` minutes within one day: `'%d:%02d:%02d'` of the
      hours, minutes and (always zero) seconds. */
  function Clock(rem: nat): string
    requires rem < 1440
  {
    NatToStr(rem / 60) + ":" + Pad2(rem % 60) + ":00"
  }

  /** "D day, " or "D days, ": the day count, with "s" unless it is 1 or -1. */
  function DayPrefix(days: int): string {
    IntToStr(days) + (if days == 1 || days == -1 then " day" else " days") + ", "
  }

  /** `str(timedelta(minutes=total))`: the clock of what is left after whole
      days, preceded by the day prefix when the day count (the floor of
      `total / 1440`, negative for negative durations) is not zero. */
  function Render(total: int): string {
    var days := total / 1440;
    var rem := total % 1440;
    if days == 0 then Clock(rem) else DayPrefix(days) + Clock(rem)
  }

  /** Reads "H:MM:SS" back as minutes, the seconds being zero. */
  function ReadClock(clock: string): Option<int> {
    var parts := Split(clock, ':');
    if |parts| != 3 || parts[2] != "00" then None
    else match (ParseInt(parts[0]), ParseInt(parts[1]))
      case (Some(h), Some(m)) => Some(h * 60 + m)
      case _ => None
  }

  /** Reads `str(timedelta)` of whole minutes back as minutes: the day count
      is the first word before the ",", the clock follows the ", ". */
  function ReadRendered(text: string): Option<int> {
    if Contains(text, ",") then
      var after := After(text, ",");
      match (ParseInt(Before(Before(text, ","), " ")), ReadClock(if |after| > 0 then after[1..] else after))
      case (Some(d), Some(m)) => Some(d * 1440 + m)
      case _ => None
    else ReadClock(text)
  }

  lemma {:induction false} SmallNumbers()
    ensures NatToStr(0) == "0" && NatToStr(1) == "1" && NatToStr(2) == "2"
    ensures NatToStr(23) == "23" && NatToStr(30) == "30" && NatToStr(55) == "55"
  {
    assert NatToStr(3) == "3" && NatToStr(5) == "5";
  }

  /** Within a day `str()` gives "H:MM:00": 90 minutes are "1:30:00". */
  lemma {:induction false} RenderExampleClock()
    ensures Render(90) == "1:30:00"
  {
    SmallNumbers();
    assert Render(90) == Clock(90);
    assert Clock(90) == NatToStr(1) + ":" + Pad2(30) + ":00";
  }

  /** Whole days come first, "day" or "days" after the count: one day is
      "1 day, 0:00:00", 2881 minutes are "2 days, 0:01:00". */
  lemma {:induction false} RenderExampleDays()
    ensures Render(1440) == "1 day, 0:00:00"
    ensures Render(2881) == "2 days, 0:01:00"
  {
    SmallNumbers();
    assert Render(1440) == DayPrefix(1) + Clock(0);
    assert Clock(0) == NatToStr(0) + ":" + Pad2(0) + ":00";
    assert Render(2881) == DayPrefix(2) + Clock(1);
    assert Clock(1) == NatToStr(0) + ":" + Pad2(1) + ":00";
  }

  /** A negative duration counts days down and the clock up: minus five
      minutes are "-1 day, 23:55:00". */
  lemma {:induction false} RenderExampleNegative()
    ensures Render(-5) == "-1 day, 23:55:00"
  {
    assert -5 / 1440 == -1 && -5 % 1440 == 1435;
    assert Render(-5) == DayPrefix(-1) + Clock(1435);
    ClockBeforeMidnight();
    DayBefore();
  }

  lemma {:induction false} ClockBeforeMidnight()
    ensures Clock(1435) == "23:55:00"
  {
    SmallNumbers();
    assert Clock(1435) == NatToStr(23) + ":" + Pad2(55) + ":00";
  }

  lemma {:induction false} DayBefore()
    ensures DayPrefix(-1) == "-1 day, "
  {
    SmallNumbers();
    assert IntToStr(-1) == "-1";
  }

  lemma {:induction false} Pad2Value(n: nat)
    requires n < 100
    ensures ParseInt(Pad2(n)) == Some(n)
    ensures ':' !in Pad2(n) && ',' !in Pad2(n)
  {
    NatToStrValue(n);
    if n < 10 {
      var p := Pad2(n);
      assert p[..|p| - 1] == "0";
      assert DigitsValue("0") == 0;
    }
  }

  lemma {:induction false} NatToStrIsNumber(n: nat)
    ensures ParseInt(NatToStr(n)) == Some(n)
    ensures ':' !in NatToStr(n) && ',' !in NatToStr(n) && ' ' !in NatToStr(n)
  {
    NatToStrValue(n);
  }

  lemma {:induction false} SplitClock(hs: string, ms: string)
    requires ':' !in hs && ':' !in ms
    ensures Split(hs + ":" + ms + ":00", ':') == [hs, ms, "00"]
  {
    assert hs + ":" + ms + ":00" == hs + [':'] + (ms + [':'] + "00");
    SplitCons(hs, ':', ms + [':'] + "00");
    SplitCons(ms, ':', "00");
    SplitWhole("00", ':');
  }

  /** "H:MM:00" reads back as H hours and MM minutes. */
  lemma {:induction false} ReadClockParts(hs: string, ms: string, h: int, m: int)
    requires ':' !in hs && ':' !in ms
    requires ParseInt(hs) == Some(h) && ParseInt(ms) == Some(m)
    ensures ReadClock(hs + ":" + ms + ":00") == Some(h * 60 + m)
  {
    SplitClock(hs, ms);
  }

  /** The clock reads back as the minutes it shows, and holds no ",". */
  lemma {:induction false} ReadClockOf(rem: nat)
    requires rem < 1440
    ensures ReadClock(Clock(rem)) == Some(rem)
    ensures ',' !in Clock(rem)
  {
    var h, m := rem / 60, rem % 60;
    var hs, ms := NatToStr(h), Pad2(m);
    assert Clock(rem) == hs + ":" + ms + ":00";
    NatToStrIsNumber(h);
    Pad2Value(m);
    ReadClockParts(hs, ms, h, m);
    assert h * 60 + m == rem;
  }

  /** A day prefix is read back as its day count. */
  lemma {:induction false} ReadWithDays(days: int, clock: string, c: int, total: int)
    requires ',' !in clock && ReadClock(clock) == Some(c) && total == days * 1440 + c
    ensures ReadRendered(DayPrefix(days) + clock) == Some(total)
  {
    var ds := IntToStr(days);
    var word := if days == 1 || days == -1 then "day" else "days";
    assert ',' !in ds && ' ' !in ds by {
      NatToStrIsNumber(if days < 0 then -days else days);
    }
    assert DayPrefix(days) + clock == (ds + " " + word) + "," + (" " + clock);
    assert ParseInt(ds) == Some(days) by {
      ParseIntRoundTrip(days);
    }
    ReadDayForm(ds, word, clock, days, c, total);
  }

  /** The day count is the first word before the ",", the clock follows the ", ". */
  lemma {:induction false} ReadDayForm(ds: string, word: string, clock: string, d: int, c: int, total: int)
    requires ',' !in ds && ' ' !in ds && ',' !in word && ',' !in clock
    requires ParseInt(ds) == Some(d) && ReadClock(clock) == Some(c) && total == d * 1440 + c
    ensures ReadRendered((ds + " " + word) + "," + (" " + clock)) == Some(total)
  {
    var head := ds + " " + word;
    var text := head + "," + (" " + clock);
    assert Contains(text, ",") && Before(text, ",") == head && After(text, ",") == " " + clock by {
      assert ',' !in head;
      BeforeAtSeparator(head, ",", " " + clock);
    }
    assert Before(head, " ") == ds by {
      BeforeAtSeparator(ds, " ", word);
    }
    assert (" " + clock)[1..] == clock;
  }

  lemma {:induction false} ReadWithoutDays(clock: string, c: int)
    requires ',' !in clock && ReadClock(clock) == Some(c)
    ensures ReadRendered(clock) == Some(c)
  {
    IndexOfSkip(clock, [], ",");
    assert clock + [] == clock;
  }

  lemma {:induction false} ReadRenderedWithinDay(total: int)
    requires total / 1440 == 0
    ensures ReadRendered(Render(total)) == Some(total)
  {
    var rem := total % 1440;
    ReadClockOf(rem);
    assert Render(total) == Clock(rem);
    ReadWithoutDays(Clock(rem), rem);
  }

  lemma {:induction false} ReadRenderedWithDays(total: int)
    requires total / 1440 != 0
    ensures ReadRendered(Render(total)) == Some(total)
  {
    var days := total / 1440;
    var rem := total % 1440;
    ReadClockOf(rem);
    assert Render(total) == DayPrefix(days) + Clock(rem);
    ReadWithDays(days, Clock(rem), rem, total);
  }

  /** Reading the text of a duration gives the duration back, so two different
      durations never render alike. */
  lemma {:induction false} ReadRenderedRoundTrip(total: int)
    ensures ReadRendered(Render(total)) == Some(total)
  {
    if total / 1440 == 0 {
      ReadRenderedWithinDay(total);
    } else {
      ReadRenderedWithDays(total);
    }
  }

  lemma {:induction false} RenderInjective(a: int, b: int)
    requires Render(a) == Render(b)
    ensures a == b
  {
    ReadRenderedRoundTrip(a);
    ReadRenderedRoundTrip(b);
  }
}
