/** `MediaRange`, the trim range handed to the encoder. Processing/MediaRange.cs
    and the copy at the top of Processing/VideoProcessor.cs are the same
    definition; the model has one. */
module Ranges {
  import opened Common
  import opened Exceptions
  import opened Time
  import Clock

  datatype MediaRange = MediaRange(start: TimeMs, end: TimeMs)

  /** `MediaRange.Create`: refuses a range whose end lies before its start,
      and puts no other bound on either end (a negative start is accepted). */
  function Create(start: TimeMs, end: TimeMs): (r: Result<MediaRange, Fault>)
    ensures r.Failure? <==> Less(end, start)
    ensures r.Failure? ==> r.error.ArgumentError?
    ensures r.Success? ==> r.value.start == start && r.value.end == end
  {
    if Less(end, start) then Failure(ArgumentError("end must be greater than start", ""))
    else Success(MediaRange(start, end))
  }

  /** `GetDuration`: the tick difference rounded to milliseconds as
      `(ticks + 5000) / 10000` with C#'s truncating division. The tick
      difference is a whole number of milliseconds, so an ordered range gets
      its exact length, and an inverted one (only the positional constructor
      builds those) comes out one millisecond too long. */
  function GetDuration(range: MediaRange): (d: TimeMs)
    ensures AtMost(range.start, range.end) ==> d.value == range.end.value - range.start.value
    ensures Less(range.end, range.start) ==> d.value == range.end.value - range.start.value + 1
  {
    var ticks := ToTimeSpan(range.end).ticks - ToTimeSpan(range.start).ticks;
    RoundedDifference(range.end.value - range.start.value);
    TimeMs(TruncDiv(ticks + 5_000, Clock.TicksPerMillisecond))
  }

  /** The rounding step on a tick difference of k whole milliseconds. */
  lemma RoundedDifference(k: int)
    ensures k >= 0 ==> TruncDiv(k * 10_000 + 5_000, 10_000) == k
    ensures k < 0 ==> TruncDiv(k * 10_000 + 5_000, 10_000) == k + 1
  {
    if k >= 0 {
      DivUnique(k * 10_000 + 5_000, 10_000, k, 5_000);
    } else {
      var j := -k - 1;
      assert -(k * 10_000 + 5_000) == j * 10_000 + 5_000;
      DivUnique(j * 10_000 + 5_000, 10_000, j, 5_000);
    }
  }

  /** A range that Create accepts has exactly the length between its ends. */
  lemma CreatedDuration(start: TimeMs, end: TimeMs)
    requires Create(start, end).Success?
    ensures GetDuration(Create(start, end).value).value == end.value - start.value
  {
  }

  /** The empty range is accepted and lasts nothing. */
  lemma EmptyRange(t: TimeMs)
    ensures Create(t, t) == Success(MediaRange(t, t))
    ensures GetDuration(MediaRange(t, t)) == TimeMs(0)
  {
  }
}
