/** `TimelineControl`: the time scale above the player. Every 100 DIP of
    the control's width gets a tick whose time is a whole multiple of the
    time 100 DIP stand for; the list is rebuilt when the media duration or
    the control's bounds change. */
module Timeline {
  import opened Common
  import opened Time

  /** The distance between two ticks, in DIP. */
  const StepInDip: real := 100.0

  /** Is the integer i strictly below q? */
  predicate Below(i: int, q: real)
  {
    i as real < q
  }

  /** Does tick number i fit, that is, is i below width / 100? */
  predicate Fits(i: int, width: real)
  {
    Below(i, width / StepInDip)
  }

  /** How many ticks fit: the count of the integers i with 1 <= i < width / 100. */
  function TickCount(width: real): (n: nat)
    ensures forall i :: 1 <= i ==> (i <= n <==> Fits(i, width))
  {
    var q := width / StepInDip;
    if q <= 1.0 then 0
    else
      CeilingBelow(q);
      -((-q).Floor) - 1
  }

  /** Below the ceiling c of q > 1 lie exactly the integers 1 .. c - 1. */
  lemma CeilingBelow(q: real)
    requires q > 1.0
    ensures -((-q).Floor) - 1 >= 0
    ensures forall i: int :: 1 <= i ==> (i <= -((-q).Floor) - 1 <==> Below(i, q))
  {
    var f := (-q).Floor;
    assert f as real <= -q < f as real + 1.0;
  }

  /** The tick list, read off the source as a whole: none for a zero
      duration, otherwise tick k (from 0) at (k + 1) times the step. */
  function Ticks(duration: TimeMs, width: real): seq<TimeMs>
  {
    if duration.value == 0 then []
    else
      seq(TickCount(width), k => TimeMs((k + 1) * StepOf(duration, width)))
  }

  /** The time 100 DIP stand for. */
  function StepOf(duration: TimeMs, width: real): int
  {
    FromDip(StepInDip, width, duration).value
  }

  /** `UpdateTimeline`: the loop of the program, which appends tick i for
      i = 1, 2, ... while i < width / 100. */
  method UpdateTimeline(duration: TimeMs, width: real) returns (points: seq<TimeMs>)
    ensures points == Ticks(duration, width)
  {
    points := [];
    if duration.value == 0 {
      return;
    }
    var step := FromDip(StepInDip, width, duration);
    var divisionCount := width / StepInDip;
    var n := TickCount(width);
    var i := 1;
    while i as real < divisionCount
      invariant 1 <= i <= n + 1
      invariant |points| == i - 1
      invariant forall k :: 0 <= k < |points| ==> points[k] == TimeMs((k + 1) * StepOf(duration, width))
      decreases n + 1 - i
    {
      assert Fits(i, width);
      points := points + [TimeMs(step.value * i)];
      i := i + 1;
    }
    assert !Fits(i, width);
  }

  // ------------------------------------------------------------ properties

  /** A strip of 100 DIP or less has no tick. */
  lemma NarrowHasNoTicks(duration: TimeMs, width: real)
    requires width <= StepInDip
    ensures Ticks(duration, width) == []
  {
    assert !Fits(1, width);
  }

  /** Tick k, counted from 0, is at (k + 1) steps. */
  lemma TickAt(duration: TimeMs, width: real, k: nat)
    requires duration.value != 0 && k < |Ticks(duration, width)|
    ensures Ticks(duration, width)[k].value == (k + 1) * StepOf(duration, width)
  {
  }

  /** Ticks start one step in and are one step apart, and the step is never
      negative. */
  lemma TicksSpaced(duration: TimeMs, width: real)
    requires duration.value != 0
    ensures StepOf(duration, width) >= 0
    ensures |Ticks(duration, width)| > 0 ==> Ticks(duration, width)[0].value == StepOf(duration, width)
    ensures forall k :: 0 <= k < |Ticks(duration, width)| - 1 ==>
              Ticks(duration, width)[k + 1].value - Ticks(duration, width)[k].value == StepOf(duration, width)
  {
    var t := Ticks(duration, width);
    var step := StepOf(duration, width);
    forall k | 0 <= k < |t| - 1
      ensures t[k + 1].value - t[k].value == step
    {
      TickAt(duration, width, k);
      TickAt(duration, width, k + 1);
      assert (k + 2) * step - (k + 1) * step == step;
    }
    if |t| > 0 {
      TickAt(duration, width, 0);
    }
  }

  /** Ticks never go down, and rise strictly when the step is positive. */
  lemma TicksOrdered(duration: TimeMs, width: real)
    requires duration.value != 0
    ensures forall j, k :: 0 <= j <= k < |Ticks(duration, width)| ==>
              Ticks(duration, width)[j].value <= Ticks(duration, width)[k].value
    ensures StepOf(duration, width) > 0 ==> forall j, k :: 0 <= j < k < |Ticks(duration, width)| ==>
              Ticks(duration, width)[j].value < Ticks(duration, width)[k].value
  {
    var t := Ticks(duration, width);
    var step := StepOf(duration, width);
    forall j, k | 0 <= j <= k < |t|
      ensures t[j].value <= t[k].value
      ensures step > 0 && j < k ==> t[j].value < t[k].value
    {
      TickAt(duration, width, j);
      TickAt(duration, width, k);
      MultiplesOrdered(j + 1, k + 1, step);
    }
  }

  /** Whole multiples of a step that is not negative keep the order of the
      factors, strictly when the step is positive. */
  lemma MultiplesOrdered(a: int, b: int, step: int)
    requires 0 <= a <= b && step >= 0
    ensures a * step <= b * step
    ensures step > 0 && a < b ==> a * step < b * step
  {
    MulMonotone(a, b, step);
    if step > 0 && a < b {
      assert b * step - a * step == (b - a) * step;
      MulAtLeast(b - a, step);
    }
  }

  /** A negative duration passes the zero test but FromDip maps it to 0:
      every tick is at time 0. */
  lemma NegativeDurationZeros(duration: TimeMs, width: real)
    requires duration.value < 0
    ensures forall k :: 0 <= k < |Ticks(duration, width)| ==> Ticks(duration, width)[k].value == 0
    ensures |Ticks(duration, width)| == TickCount(width)
  {
  }

  // ------------------------------------------------------------ when the list is rebuilt

  /** The state the control keeps: the play position, the media duration,
      the width of its bounds, and the tick list. */
  datatype Scale = Scale(position: TimeMs, duration: TimeMs, width: real, points: seq<TimeMs>)

  /** A property of the control that changes. */
  datatype Change =
    | PositionSet(position: TimeMs)
    | DurationSet(duration: TimeMs)
    | BoundsSet(width: real)

  /** After the constructor: position 10 s and a duration of 500 000 s, set
      while the control still has no width, so no tick. */
  const Initial: Scale := Scale(TimeMs(10_000), TimeMs(500_000_000), 0.0, [])

  /** `OnPropertyChanged`: a new duration or new bounds rebuild the list; the
      play position does not. Setting a duration equal to the current one
      raises no change. */
  function Apply(s: Scale, c: Change): (r: Scale)
    ensures c.PositionSet? ==> r.points == s.points && r.duration == s.duration && r.width == s.width
    ensures c.DurationSet? ==> r.duration == c.duration && r.width == s.width
    ensures c.DurationSet? && c.duration != s.duration ==> r.points == Ticks(c.duration, s.width)
    ensures c.BoundsSet? ==> r.width == c.width && r.duration == s.duration && r.points == Ticks(s.duration, c.width)
    ensures Consistent(s) ==> Consistent(r)
  {
    match c
    case PositionSet(p) => s.(position := p)
    case DurationSet(d) => if d == s.duration then s else s.(duration := d, points := Ticks(d, s.width))
    case BoundsSet(w) => s.(width := w, points := Ticks(s.duration, w))
  }

  /** The list matches the duration and the width. */
  predicate Consistent(s: Scale)
  {
    s.points == Ticks(s.duration, s.width)
  }

  function ApplyAll(s: Scale, cs: seq<Change>): Scale
    decreases |cs|
  {
    if cs == [] then s else ApplyAll(Apply(s, cs[0]), cs[1..])
  }

  /** From the constructor on, whatever changes arrive, the list is the one
      the current duration and width give. */
  lemma {:induction false} AlwaysConsistent(s: Scale, cs: seq<Change>)
    ensures Consistent(s) ==> Consistent(ApplyAll(s, cs))
    decreases |cs|
  {
    if cs != [] {
      AlwaysConsistent(Apply(s, cs[0]), cs[1..]);
    }
  }

  lemma InitialConsistent()
    ensures Consistent(Initial)
  {
    NarrowHasNoTicks(Initial.duration, 0.0);
  }
}
