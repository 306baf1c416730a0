/** `TimeMs`, the millisecond timestamp of the player and the controls, and
    the conversion between a time and a horizontal position in device
    independent pixels (DIP) on a strip `width` DIP wide that shows
    `duration` milliseconds.

    Player/TimeMs.cs and Controls/TimeMs.cs declare two record types of the
    same shape with the same `FromDip` body; the model has one of each. */
module Time {
  import opened Common
  import Clock

  /** A signed count of milliseconds. */
  datatype TimeMs = TimeMs(value: int)

  /** `TimeMs.TimeSpan()`, taken to be `TimeSpan.FromMilliseconds(Value)`. */
  function ToTimeSpan(t: TimeMs): Clock.TimeSpan
  {
    Clock.FromMilliseconds(t.value)
  }

  /** The time under position `dip`: the position's share of the width,
      clamped to [0, 1], scaled to the duration and rounded half to even.
      A negative duration counts as zero; an empty strip or an empty
      duration maps every position to 0. */
  function FromDip(dip: real, width: real, duration: TimeMs): (r: TimeMs)
    ensures 0 <= r.value <= Max(0, duration.value)
    ensures width <= 0.0 || duration.value <= 0 ==> r.value == 0
    ensures width > 0.0 && dip <= 0.0 ==> r.value == 0
    ensures width > 0.0 && dip >= width ==> r.value == Max(0, duration.value)
  {
    var totalMs := Max(0, duration.value);
    if width <= 0.0 || totalMs == 0 then TimeMs(0)
    else
      RatioBounds(dip, width);
      ShareOfBounds(ClampReal(dip / width, 0.0, 1.0), totalMs);
      TimeMs(ShareOf(ClampReal(dip / width, 0.0, 1.0), totalMs as real))
  }

  lemma RatioBounds(dip: real, width: real)
    requires width > 0.0
    ensures dip <= 0.0 ==> dip / width <= 0.0
    ensures dip >= width ==> dip / width >= 1.0
  {
  }

  /** `Math.Round(share * total)`, the milliseconds a share of the duration stands for. */
  function ShareOf(share: real, total: real): int
  {
    RoundHalfEven(share * total)
  }

  /** A share of a whole number of milliseconds rounds into [0, total], and
      the ends of the range are exact. */
  lemma ShareOfBounds(share: real, total: int)
    requires 0.0 <= share <= 1.0 && total >= 0
    ensures 0 <= ShareOf(share, total as real) <= total
    ensures share == 0.0 ==> ShareOf(share, total as real) == 0
    ensures share == 1.0 ==> ShareOf(share, total as real) == total
  {
    var ms := share * total as real;
    ScaledShareBounds(share, total as real);
    RoundBetween(ms, total);
    if share == 0.0 {
      assert ms == 0.0;
      RoundOfInteger(0);
    }
    if share == 1.0 {
      assert ms == total as real;
      RoundOfInteger(total);
    }
  }

  lemma RoundBetween(ms: real, total: int)
    requires 0.0 <= ms <= total as real
    ensures 0 <= RoundHalfEven(ms) <= total
  {
    RoundMonotone(0.0, ms);
    RoundMonotone(ms, total as real);
    RoundOfInteger(0);
    RoundOfInteger(total);
  }

  lemma ScaledShareBounds(share: real, total: real)
    requires 0.0 <= share <= 1.0 && total >= 0.0
    ensures 0.0 <= share * total <= total
  {
    assert share * total <= 1.0 * total;
  }

  /** The position of time t: t scaled by width / duration, where a
      duration below 1 counts as 1. Multiplied back by that duration it
      gives t * width, and a time inside the duration lies on the strip. */
  function ToDip(t: TimeMs, duration: TimeMs, width: real): (x: real)
    ensures duration.value >= 1 ==> x * duration.value as real == t.value as real * width
    ensures duration.value < 1 ==> x == t.value as real * width
    ensures 0 <= t.value && 0.0 <= width ==> 0.0 <= x
    ensures 0 <= t.value <= duration.value && 0.0 <= width ==> x <= width
  {
    if duration.value < 1 then t.value as real * width / 1.0
    else
      ShareOfWidth(t.value as real, width, duration.value as real);
      t.value as real * width / duration.value as real
  }

  /** t * w / d undoes the division by d, is not negative for t, w >= 0,
      and is at most w for 0 <= t <= d. */
  lemma ShareOfWidth(t: real, w: real, d: real)
    requires d > 0.0
    ensures (t * w / d) * d == t * w
    ensures 0.0 <= t && 0.0 <= w ==> 0.0 <= t * w / d
    ensures 0.0 <= t <= d && 0.0 <= w ==> t * w / d <= w
  {
    assert t * w / d == (t / d) * w;
    if 0.0 <= t <= d && 0.0 <= w {
      RatioAtMostOne(t, d);
      assert (t / d) * w <= 1.0 * w;
    }
  }

  // ------------------------------------------------------------ ordering

  predicate Less(a: TimeMs, b: TimeMs)
  {
    a.value < b.value
  }

  predicate Greater(a: TimeMs, b: TimeMs)
  {
    a.value > b.value
  }

  predicate AtMost(a: TimeMs, b: TimeMs)
  {
    a.value <= b.value
  }

  predicate AtLeast(a: TimeMs, b: TimeMs)
  {
    a.value >= b.value
  }

  /** `CompareTo`, which is `long.CompareTo` on the values: its sign agrees
      with the four comparison operators, and those are the total order of
      the values. */
  function CompareTo(a: TimeMs, b: TimeMs): (r: int)
    ensures -1 <= r <= 1
    ensures r < 0 <==> Less(a, b)
    ensures r == 0 <==> a == b
    ensures r > 0 <==> Greater(a, b)
    ensures r <= 0 <==> AtMost(a, b)
    ensures r >= 0 <==> AtLeast(a, b)
  {
    if a.value < b.value then -1 else if a.value > b.value then 1 else 0
  }

  // ------------------------------------------------------------ properties

  /** FromDip away from the degenerate cases, unfolded once. */
  lemma FromDipUnfold(dip: real, width: real, duration: TimeMs)
    requires width > 0.0 && duration.value > 0
    ensures FromDip(dip, width, duration)
            == TimeMs(ShareOf(ClampReal(dip / width, 0.0, 1.0), duration.value as real))
  {
  }

  /** FromDip never decreases when the position moves right. */
  lemma FromDipMonotone(dip1: real, dip2: real, width: real, duration: TimeMs)
    requires dip1 <= dip2
    ensures FromDip(dip1, width, duration).value <= FromDip(dip2, width, duration).value
  {
    if width > 0.0 && duration.value > 0 {
      FromDipUnfold(dip1, width, duration);
      FromDipUnfold(dip2, width, duration);
      DivMonotone(dip1, dip2, width);
      ClampMonotone(dip1 / width, dip2 / width);
      ShareMonotone(ClampReal(dip1 / width, 0.0, 1.0), ClampReal(dip2 / width, 0.0, 1.0), duration.value as real);
    } else {
      assert FromDip(dip1, width, duration).value == 0;
    }
  }

  lemma ClampMonotone(v1: real, v2: real)
    requires v1 <= v2
    ensures ClampReal(v1, 0.0, 1.0) <= ClampReal(v2, 0.0, 1.0)
  {
  }

  lemma ShareMonotone(s1: real, s2: real, total: real)
    requires 0.0 <= s1 <= s2 <= 1.0 && total >= 0.0
    ensures ShareOf(s1, total) <= ShareOf(s2, total)
  {
    var a, b := s1 * total, s2 * total;
    assert a <= b by { MulMonotoneReal(s1, s2, total); }
    RoundMonotone(a, b);
  }

  lemma DivMonotone(a: real, b: real, w: real)
    requires a <= b && w > 0.0
    ensures a / w <= b / w
  {
  }

  lemma MulMonotoneReal(a: real, b: real, k: real)
    requires a <= b && k >= 0.0
    ensures a * k <= b * k
  {
  }

  /** Scaling by width / d and dividing by width again is dividing by d. */
  lemma ScaleThenUnscale(t: real, w: real, d: real)
    requires w > 0.0 && d > 0.0
    ensures (t * w / d) / w == t / d
  {
    assert t * w / d == (t / d) * w;
  }

  lemma RatioAtMostOne(t: real, d: real)
    requires 0.0 <= t <= d && d > 0.0
    ensures 0.0 <= t / d <= 1.0
  {
    assert t / d * d == t;
  }

  lemma RatioTimes(t: real, d: real)
    requires d > 0.0
    ensures (t / d) * d == t
  {
  }

  /** A time inside the duration survives the trip to a position and back exactly. */
  lemma ToDipThenFromDip(t: TimeMs, duration: TimeMs, width: real)
    requires duration.value > 0 && width > 0.0 && 0 <= t.value <= duration.value
    ensures FromDip(ToDip(t, duration, width), width, duration) == t
  {
    var T, D := t.value as real, duration.value as real;
    var dip := ToDip(t, duration, width);
    assert dip == T * width / D;
    FromDipUnfold(dip, width, duration);
    ScaleThenUnscale(T, width, D);
    RatioAtMostOne(T, D);
    RatioTimes(T, D);
    RoundOfInteger(t.value);
  }

  /** a is at most e away from b. */
  predicate Within(a: real, b: real, e: real)
  {
    -e <= a - b <= e
  }

  /** The distance between a rounded time and the exact one, as a distance on the strip. */
  lemma RoundingOnStrip(y: real, r: real, w: real, d: real)
    requires w > 0.0 && d > 0.0 && -0.5 <= r - y <= 0.5
    ensures -w / (2.0 * d) <= r * w / d - y * w / d <= w / (2.0 * d)
  {
    var k := w / d;
    assert r * w / d - y * w / d == (r - y) * k;
    assert w / (2.0 * d) == k / 2.0;
    ErrorScale(r - y, k);
  }

  /** A position on the strip survives the trip to a time and back up to
      half a millisecond's width (so within the one millisecond width the
      program's tests allow). */
  lemma FromDipThenToDip(x: real, width: real, duration: TimeMs)
    requires duration.value > 0 && width > 0.0 && 0.0 <= x <= width
    ensures var back := ToDip(FromDip(x, width, duration), duration, width);
            Within(back, x, width / (2.0 * duration.value as real)) && Within(back, x, width / duration.value as real)
  {
    FromDipError(x, width, duration);
    BackOnStrip(x, width, duration, FromDip(x, width, duration));
  }

  /** Any time within half a millisecond of the exact share maps back near x. */
  lemma BackOnStrip(x: real, width: real, duration: TimeMs, t: TimeMs)
    requires duration.value > 0 && width > 0.0
    requires -0.5 <= t.value as real - (x / width) * duration.value as real <= 0.5
    ensures Within(ToDip(t, duration, width), x, width / (2.0 * duration.value as real))
    ensures Within(ToDip(t, duration, width), x, width / duration.value as real)
  {
    ToDipExact(t, duration, width);
    StripBack(x, width, duration.value as real, t.value as real, ToDip(t, duration, width));
  }

  lemma StripBack(x: real, w: real, d: real, r: real, back: real)
    requires w > 0.0 && d > 0.0 && -0.5 <= r - (x / w) * d <= 0.5 && back == r * w / d
    ensures Within(back, x, w / (2.0 * d)) && Within(back, x, w / d)
  {
    StripError(x, w, d, r);
  }

  lemma ToDipExact(t: TimeMs, duration: TimeMs, width: real)
    requires duration.value > 0
    ensures ToDip(t, duration, width) == t.value as real * width / duration.value as real
  {
  }

  /** Away from the ends, FromDip is within half a millisecond of the exact share. */
  lemma FromDipError(x: real, width: real, duration: TimeMs)
    requires duration.value > 0 && width > 0.0 && 0.0 <= x <= width
    ensures -0.5 <= FromDip(x, width, duration).value as real - (x / width) * duration.value as real <= 0.5
  {
    var s, D := x / width, duration.value as real;
    assert 0.0 <= s <= 1.0 by { RatioAtMostOne(x, width); }
    assert ClampReal(s, 0.0, 1.0) == s;
    FromDipUnfold(x, width, duration);
    assert FromDip(x, width, duration).value == ShareOf(s, D);
    ShareOfError(s, D);
  }

  lemma ShareOfError(share: real, total: real)
    ensures -0.5 <= ShareOf(share, total) as real - share * total <= 0.5
  {
  }

  lemma StripError(x: real, w: real, d: real, r: real)
    requires w > 0.0 && d > 0.0 && -0.5 <= r - (x / w) * d <= 0.5
    ensures Within(r * w / d, x, w / (2.0 * d))
    ensures Within(r * w / d, x, w / d)
  {
    var y := (x / w) * d;
    UnscaleRatio(x, w, d);
    RoundingOnStrip(y, r, w, d);
    HalfBelowWhole(w, d);
  }

  lemma UnscaleRatio(x: real, w: real, d: real)
    requires w > 0.0 && d > 0.0
    ensures (x / w) * d * w / d == x
  {
    assert (x / w) * d * w / d == (x / w) * w;
  }

  lemma HalfBelowWhole(w: real, d: real)
    requires w > 0.0 && d > 0.0
    ensures 0.0 < w / (2.0 * d) <= w / d
  {
    assert w / (2.0 * d) == (w / d) / 2.0;
  }

  lemma ErrorScale(e: real, k: real)
    requires -0.5 <= e <= 0.5 && k > 0.0
    ensures -k / 2.0 <= e * k <= k / 2.0
  {
  }

  /** The program's own examples: 100 ms of 10 s on 1000 DIP is at 10 DIP, and back. */
  lemma Examples()
    ensures ToDip(TimeMs(100), TimeMs(10_000), 1000.0) == 10.0
    ensures FromDip(10.0, 1000.0, TimeMs(10_000)) == TimeMs(100)
    ensures FromDip(ToDip(TimeMs(4452), TimeMs(12_354), 854.0), 854.0, TimeMs(12_354)) == TimeMs(4452)
  {
    ToDipThenFromDip(TimeMs(100), TimeMs(10_000), 1000.0);
    ToDipThenFromDip(TimeMs(4452), TimeMs(12_354), 854.0);
  }
}
