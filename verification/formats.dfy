/** The clock texts the program shows: the player's `Formatted` (short form
    under an hour of the day), the controls' `Formatted` (always three
    fields), `ToDurationText` (whole hours, not wrapped at a day) and
    `DurationExtensions.Formatted` (which reads its value as ticks). */
module Formats {
  import opened Common
  import opened Text
  import opened Clock
  import opened Time

  // ------------------------------------------------------------ clock texts

  /** "hh:mm:ss", each field formatted with "00". */
  function Clock3(h: int, m: int, s: int): string
  {
    Format00(h) + ":" + Format00(m) + ":" + Format00(s)
  }

  /** "mm:ss", each field formatted with "00". */
  function Clock2(m: int, s: int): string
  {
    Format00(m) + ":" + Format00(s)
  }

  lemma Format00HasNoColon(n: int)
    ensures ':' !in Format00(n)
  {
    DigitsHaveNoColon(Pad2(if n < 0 then -n else n));
  }

  /** A three-field clock text has exactly three fields, whatever the signs. */
  lemma Clock3Fields(h: int, m: int, s: int)
    ensures |Split(Clock3(h, m, s), ':')| == 3
  {
    var a := Format00(h);
    Format00HasNoColon(h);
    assert Clock3(h, m, s) == a + [':'] + Clock2(m, s);
    SplitAt(a, Clock2(m, s), ':');
    Clock2Fields(m, s);
  }

  /** A two-field clock text has exactly two fields, whatever the signs. */
  lemma Clock2Fields(m: int, s: int)
    ensures |Split(Clock2(m, s), ':')| == 2
  {
    var b, c := Format00(m), Format00(s);
    Format00HasNoColon(m);
    Format00HasNoColon(s);
    assert b + ":" + c == b + [':'] + c;
    SplitAt(b, c, ':');
    SplitWithout(c, ':');
  }

  /** Non-negative fields read back, and fields below 100 give eight characters. */
  lemma Clock3Reads(h: int, m: int, s: int)
    ensures h >= 0 && m >= 0 && s >= 0 ==> ReadClock(Clock3(h, m, s)) == Some([h, m, s])
    ensures 0 <= h < 100 && 0 <= m < 100 && 0 <= s < 100 ==> |Clock3(h, m, s)| == 8
  {
    if h >= 0 && m >= 0 && s >= 0 {
      ReadThreeFields(h, m, s);
    }
  }

  lemma Clock2Reads(m: int, s: int)
    ensures m >= 0 && s >= 0 ==> ReadClock(Clock2(m, s)) == Some([m, s])
    ensures 0 <= m < 100 && 0 <= s < 100 ==> |Clock2(m, s)| == 5
  {
    if m >= 0 && s >= 0 {
      ReadTwoFields(m, s);
    }
  }

  // ------------------------------------------------------------ the formatters

  /** The hour of the day, minute and second of a non-negative millisecond count. */
  function HourOfDay(ms: nat): nat { (ms / 3_600_000) % 24 }
  function MinuteOfHour(ms: nat): nat { (ms / 60_000) % 60 }
  function SecondOfMinute(ms: nat): nat { (ms / 1000) % 60 }

  lemma ComponentsOfMilliseconds(ms: int)
    ensures ms >= 0 ==> FromMilliseconds(ms).Hours() == HourOfDay(ms)
    ensures ms >= 0 ==> FromMilliseconds(ms).Minutes() == MinuteOfHour(ms)
    ensures ms >= 0 ==> FromMilliseconds(ms).Seconds() == SecondOfMinute(ms)
    ensures ms >= 0 ==> FromMilliseconds(ms).WholeHours() == ms / 3_600_000
  {
    if ms >= 0 {
      Components(ms);
    }
  }

  lemma Components(ms: nat)
    ensures FromMilliseconds(ms).Hours() == HourOfDay(ms)
    ensures FromMilliseconds(ms).Minutes() == MinuteOfHour(ms)
    ensures FromMilliseconds(ms).Seconds() == SecondOfMinute(ms)
    ensures FromMilliseconds(ms).WholeHours() == ms / 3_600_000
  {
    ClockParts(FromMilliseconds(ms));
    MillisecondParts(ms);
    TruncOfNonNegative(ms, 3_600_000);
    TruncOfNonNegative(ms, 60_000);
    TruncOfNonNegative(ms, 1000);
    TruncOfNonNegative(ms / 3_600_000, 24);
    TruncOfNonNegative(ms / 60_000, 60);
    TruncOfNonNegative(ms / 1000, 60);
  }

  /** The player's `Formatted` (and `NewFormatted`, whose body is the same):
      "mm:ss" while the hour-of-day component is 0, "hh:mm:ss" otherwise;
      milliseconds are dropped. For a non-negative time the text reads back
      as exactly the components it shows. */
  function PlayerFormatted(t: TimeMs): (r: string)
    ensures |Split(r, ':')| == (if ToTimeSpan(t).Hours() == 0 then 2 else 3)
    ensures t.value >= 0 ==>
              var ms: nat := t.value;
              && ReadClock(r) == Some(if HourOfDay(ms) == 0 then [MinuteOfHour(ms) as int, SecondOfMinute(ms) as int]
                                      else [HourOfDay(ms) as int, MinuteOfHour(ms) as int, SecondOfMinute(ms) as int])
              && |r| == (if HourOfDay(ms) == 0 then 5 else 8)
  {
    var ts := ToTimeSpan(t);
    Clock2Fields(ts.Minutes(), ts.Seconds());
    Clock3Fields(ts.Hours(), ts.Minutes(), ts.Seconds());
    ComponentsOfMilliseconds(t.value);
    Clock2Reads(ts.Minutes(), ts.Seconds());
    Clock3Reads(ts.Hours(), ts.Minutes(), ts.Seconds());
    if ts.Hours() == 0 then Clock2(ts.Minutes(), ts.Seconds())
    else Clock3(ts.Hours(), ts.Minutes(), ts.Seconds())
  }

  /** The controls' `Formatted`: always "hh:mm:ss" with the hour of the day. */
  function ControlsFormatted(t: TimeMs): (r: string)
    ensures |Split(r, ':')| == 3
    ensures t.value >= 0 ==>
              var ms: nat := t.value;
              && ReadClock(r) == Some([HourOfDay(ms) as int, MinuteOfHour(ms) as int, SecondOfMinute(ms) as int])
              && |r| == 8
  {
    var ts := ToTimeSpan(t);
    Clock3Fields(ts.Hours(), ts.Minutes(), ts.Seconds());
    ComponentsOfMilliseconds(t.value);
    Clock3Reads(ts.Hours(), ts.Minutes(), ts.Seconds());
    Clock3(ts.Hours(), ts.Minutes(), ts.Seconds())
  }

  /** `ToDurationText`: whole hours (not wrapped at a day), then minutes and
      seconds. For a non-negative count it reads back as those numbers, and
      below 100 hours it is eight characters. */
  function DurationText(ms: int): (r: string)
    ensures |Split(r, ':')| == 3
    ensures ms >= 0 ==>
              var n: nat := ms;
              && ReadClock(r) == Some([n / 3_600_000, MinuteOfHour(n) as int, SecondOfMinute(n) as int])
              && (n < 360_000_000 ==> |r| == 8)
  {
    var ts := FromMilliseconds(ms);
    Clock3Fields(ts.WholeHours(), ts.Minutes(), ts.Seconds());
    ComponentsOfMilliseconds(ms);
    Clock3Reads(ts.WholeHours(), ts.Minutes(), ts.Seconds());
    Clock3(ts.WholeHours(), ts.Minutes(), ts.Seconds())
  }

  /** `DurationExtensions.Formatted`: the value is handed to `new TimeSpan(long)`,
      so it is read as 100-ns ticks, and the day part is dropped. */
  function TickFormatted(d: TimeMs): (r: string)
    ensures |Split(r, ':')| == 3
    ensures d.value >= 0 ==>
              && ReadClock(r) == Some([(d.value / TicksPerHour) % 24, (d.value / TicksPerMinute) % 60,
                                      (d.value / TicksPerSecond) % 60])
              && |r| == 8
  {
    var ts := TimeSpan(d.value);
    Clock3Fields(ts.Hours(), ts.Minutes(), ts.Seconds());
    NonNegativeClockParts(ts);
    Clock3Reads(ts.Hours(), ts.Minutes(), ts.Seconds());
    Clock3(ts.Hours(), ts.Minutes(), ts.Seconds())
  }

  lemma NonNegativeClockParts(ts: TimeSpan)
    ensures ts.ticks >= 0 ==> ts.Hours() == (ts.ticks / TicksPerHour) % 24
    ensures ts.ticks >= 0 ==> ts.Minutes() == (ts.ticks / TicksPerMinute) % 60
    ensures ts.ticks >= 0 ==> ts.Seconds() == (ts.ticks / TicksPerSecond) % 60
  {
    if ts.ticks >= 0 {
      ClockParts(ts);
    }
  }

  // ------------------------------------------------------------ properties

  lemma {:induction false} WholeSecondsOnly(t: TimeMs)
    ensures var w := TimeMs(TruncDiv(t.value, 1000) * 1000);
            && ControlsFormatted(w) == ControlsFormatted(t)
            && PlayerFormatted(w) == PlayerFormatted(t)
            && DurationText(w.value) == DurationText(t.value)
  {
    var w := TruncDiv(t.value, 1000) * 1000;
    WholeSecondParts(t.value);
    MillisecondParts(t.value);
    MillisecondParts(w);
  }

  /** The player shows the short form exactly when the hour of the day is 0,
      so a time of exactly one day shows as "00:00". */
  lemma ShortFormIffNoHour(t: TimeMs)
    requires t.value >= 0
    ensures |PlayerFormatted(t)| == 5 <==> HourOfDay(t.value) == 0
  {
  }

  lemma ZeroClocks()
    ensures Clock3(0, 0, 0) == "00:00:00" && Clock2(0, 0) == "00:00"
  {
    assert Pad2(0) == "00";
  }

  lemma PlayerFormattedParts(t: TimeMs)
    ensures var ts := ToTimeSpan(t);
            PlayerFormatted(t) == if ts.Hours() == 0 then Clock2(ts.Minutes(), ts.Seconds())
                                  else Clock3(ts.Hours(), ts.Minutes(), ts.Seconds())
  {
  }

  lemma ControlsFormattedParts(t: TimeMs)
    ensures var ts := ToTimeSpan(t); ControlsFormatted(t) == Clock3(ts.Hours(), ts.Minutes(), ts.Seconds())
  {
  }

  lemma DurationTextParts(ms: int)
    ensures var ts := FromMilliseconds(ms); DurationText(ms) == Clock3(ts.WholeHours(), ts.Minutes(), ts.Seconds())
  {
  }

  lemma TickFormattedParts(d: TimeMs)
    ensures var ts := TimeSpan(d.value); TickFormatted(d) == Clock3(ts.Hours(), ts.Minutes(), ts.Seconds())
  {
  }

  /** A time whose clock components are all 0 shows as zero in both forms. */
  lemma ShowsZero(t: TimeMs)
    requires ToTimeSpan(t).Hours() == 0 && ToTimeSpan(t).Minutes() == 0 && ToTimeSpan(t).Seconds() == 0
    ensures PlayerFormatted(t) == "00:00" && ControlsFormatted(t) == "00:00:00"
  {
    ZeroClocks();
    PlayerFormattedParts(t);
    ControlsFormattedParts(t);
  }

  lemma WholeDaysHaveNoParts(t: TimeMs)
    requires t.value == 0 || t.value == 86_400_000
    ensures ToTimeSpan(t).Hours() == 0 && ToTimeSpan(t).Minutes() == 0 && ToTimeSpan(t).Seconds() == 0
  {
    Components(t.value);
    if t.value != 0 {
      OneDayParts();
    }
  }

  /** One day is 24 hours, 1440 minutes and 86 400 seconds: every part is 0. */
  lemma OneDayParts()
    ensures HourOfDay(86_400_000) == 0 && MinuteOfHour(86_400_000) == 0 && SecondOfMinute(86_400_000) == 0
  {
    DivPlusMultiple(0, 3_600_000, 24, 24);
    DivPlusMultiple(0, 60_000, 1440, 60);
    DivPlusMultiple(0, 1000, 86_400, 60);
  }

  /** The short form is driven by the hour of the day: exactly one day shows as "00:00". */
  lemma OneDayLooksLikeZero()
    ensures PlayerFormatted(TimeMs(86_400_000)) == "00:00"
    ensures PlayerFormatted(TimeMs(0)) == "00:00"
    ensures ControlsFormatted(TimeMs(86_400_000)) == "00:00:00"
  {
    WholeDaysHaveNoParts(TimeMs(86_400_000));
    ShowsZero(TimeMs(86_400_000));
    WholeDaysHaveNoParts(TimeMs(0));
    ShowsZero(TimeMs(0));
  }

  lemma DurationTextOf(ms: nat)
    ensures DurationText(ms) == Clock3(ms / 3_600_000, MinuteOfHour(ms), SecondOfMinute(ms))
  {
    Components(ms);
    DurationTextParts(ms);
  }

  lemma TwentyFiveHours()
    ensures Clock3(25, 1, 1) == "25:01:01"
  {
    assert Pad2(1) == "01";
    assert NatText(25) == "25" by {
      assert NatText(2) == "2" && NatText(25) == NatText(2) + [DigitChar(5)];
    }
  }

  /** Zero renders as "00:00:00", and a day and an hour shows 25 hours. */
  lemma DurationTextExamples()
    ensures DurationText(0) == "00:00:00"
    ensures DurationText(90_061_000) == "25:01:01"
  {
    ZeroClocks();
    DurationTextOf(0);
    DurationTextOf(90_061_000);
    TwentyFiveHours();
  }

  lemma ZeroParts(v: int)
    requires -TicksPerSecond < v < TicksPerSecond
    ensures TimeSpan(v).Hours() == 0 && TimeSpan(v).Minutes() == 0 && TimeSpan(v).Seconds() == 0
  {
    assert TruncDiv(v, TicksPerSecond) == 0;
    assert TruncDiv(v, TicksPerMinute) == 0;
    assert TruncDiv(v, TicksPerHour) == 0;
  }

  /** Anything below one second's worth of ticks, on either side of zero, shows as zero. */
  lemma BelowOneSecondOfTicks(d: TimeMs)
    requires -TicksPerSecond < d.value < TicksPerSecond
    ensures TickFormatted(d) == "00:00:00"
  {
    ZeroClocks();
    ZeroParts(d.value);
    TickFormattedParts(d);
  }

  /** The tick reading in action: one minute in milliseconds shows as zero, and the day is dropped. */
  lemma TicksNotMilliseconds(d: TimeMs)
    requires d.value >= 0
    ensures TickFormatted(TimeMs(60_000)) == "00:00:00"
    ensures TickFormatted(TimeMs(d.value + TicksPerDay)) == TickFormatted(d)
  {
    BelowOneSecondOfTicks(TimeMs(60_000));
    DayDropped(d.value);
    TickFormattedParts(d);
    TickFormattedParts(TimeMs(d.value + TicksPerDay));
  }

  lemma DayDropped(v: nat)
    ensures var a, b := TimeSpan(v), TimeSpan(v + TicksPerDay);
            a.Hours() == b.Hours() && a.Minutes() == b.Minutes() && a.Seconds() == b.Seconds()
  {
    ClockParts(TimeSpan(v));
    ClockParts(TimeSpan(v + TicksPerDay));
    DivPlusMultiple(v, TicksPerSecond, 86_400, 60);
    DivPlusMultiple(v, TicksPerMinute, 1440, 60);
    DivPlusMultiple(v, TicksPerHour, 24, 24);
  }

  /** Adding a whole number of periods c of b does not move (a / b) % m when m divides c. */
  lemma DivPlusMultiple(a: nat, b: int, k: int, m: int)
    requires b > 0 && k > 0 && m > 0 && k % m == 0
    ensures ((a + b * k) / b) % m == (a / b) % m
  {
    assert a + b * k == (a / b + k) * b + a % b;
    DivUnique(a + b * k, b, a / b + k, a % b);
    var j := k / m;
    assert k == j * m;
    DivUnique(a / b + j * m, m, (a / b) / m + j, (a / b) % m);
  }
}
