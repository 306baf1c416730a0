/** The trim-range selectors: two handles on a strip whose width stands for
    the media's length. Three revisions of the control share the logic and
    differ only in a few constants, which `Layout` collects:
    `Controls/RangeSelectorControl/TimeRangeSelectorControl.cs`,
    `Controls/RangeSelectorControl/TimeRangeSelector.cs` and the older
    `RangeSelectorControl/TimeRangeSelector.cs`. */
module Selectors {
  import opened Common
  import opened Time
  import opened Handles

  /** What tells the revisions apart: the handle width, the least distance
      in ms kept between the handles, whether the left handle is drawn to
      the left of its time (its hit rectangle then starts one handle width
      before `ToDip(TrimStart)`, and a left drag adds one handle width to
      the pointer), and a fixed handle height, or none when the handles are
      as tall as the control. */
  datatype Layout = Layout(rectWidth: real, gap: int, leftOutside: bool, rectHeight: Option<real>)

  /** `Controls/RangeSelectorControl/TimeRangeSelectorControl.cs`. */
  const ControlLayout: Layout := Layout(4.0, 100, true, None)

  /** `Controls/RangeSelectorControl/TimeRangeSelector.cs`. */
  const SelectorLayout: Layout := Layout(10.0, 100, true, None)

  /** `RangeSelectorControl/TimeRangeSelector.cs`: wider gap, 35 DIP tall
      handles, both hit rectangles at the handle's own position. */
  const LegacyLayout: Layout := Layout(10.0, 1_000, false, Some(35.0))

  /** The control's `Bounds`, as far as the logic reads them. */
  datatype Bounds = Bounds(width: real, height: real)

  /** The trim range, the media length and the two handles. `Min` is a
      property of every revision that no code reads; it is not kept. */
  datatype Selector = Selector(trimStart: TimeMs, trimEnd: TimeMs, max: TimeMs, left: DraggableRect, right: DraggableRect)

  /** Every field at its default: zero times, no handle held. */
  const Initial: Selector := Selector(TimeMs(0), TimeMs(0), TimeMs(0), Idle, Idle)

  // ------------------------------------------------------------ geometry

  /** The hit rectangle of the left handle. */
  function LeftRect(layout: Layout, s: Selector, bounds: Bounds): Rect
  {
    var x := ToDip(s.trimStart, s.max, bounds.width);
    Rect(if layout.leftOutside then x - layout.rectWidth else x, 0.0, layout.rectWidth, Height(layout, bounds))
  }

  /** The hit rectangle of the right handle. */
  function RightRect(layout: Layout, s: Selector, bounds: Bounds): Rect
  {
    Rect(ToDip(s.trimEnd, s.max, bounds.width), 0.0, layout.rectWidth, Height(layout, bounds))
  }

  function Height(layout: Layout, bounds: Bounds): real
  {
    match layout.rectHeight
    case Some(h) => h
    case None => bounds.height
  }

  /** The position a left drag reads the new start at. */
  function LeftX(layout: Layout, x: real): real
  {
    if layout.leftOutside then x - layout.rectWidth / 2.0 + layout.rectWidth
    else x - layout.rectWidth / 2.0
  }

  /** The position a right drag reads the new end at. */
  function RightX(layout: Layout, x: real): real
  {
    x - layout.rectWidth / 2.0
  }

  /** The times a drag to x proposes for either handle. */
  function LeftCandidate(layout: Layout, s: Selector, x: real, bounds: Bounds): TimeMs
  {
    FromDip(LeftX(layout, x), bounds.width, s.max)
  }

  function RightCandidate(layout: Layout, s: Selector, x: real, bounds: Bounds): TimeMs
  {
    FromDip(RightX(layout, x), bounds.width, s.max)
  }

  // ------------------------------------------------------------ the handlers

  /** The handles are at least the layout's gap apart. */
  predicate GapHolds(layout: Layout, s: Selector)
  {
    s.trimEnd.value - s.trimStart.value >= layout.gap
  }

  /** `Max` is set. The property raises a change only for a different value,
      and the change handler puts the handles back at 0 and at the gap. */
  function SetMax(layout: Layout, s: Selector, max: TimeMs): (r: Selector)
    ensures r.max == max && r.left == s.left && r.right == s.right
    ensures max == s.max ==> r == s
    ensures max != s.max ==> r.trimStart.value == 0 && r.trimEnd.value == layout.gap
    ensures layout.gap >= 0 && max != s.max ==> GapHolds(layout, r)
    ensures GapHolds(layout, s) && layout.gap >= 0 ==> GapHolds(layout, r)
  {
    if max == s.max then s
    else s.(max := max, trimStart := TimeMs(0), trimEnd := TimeMs(0 + layout.gap))
  }

  /** `OnPointerPressed`: the left handle is tried first; the right one only
      when the left missed, and otherwise keeps its state. */
  function Press(layout: Layout, s: Selector, point: Point, bounds: Bounds, contains: Contains): (r: Selector)
    ensures r.trimStart == s.trimStart && r.trimEnd == s.trimEnd && r.max == s.max
    ensures r.left.pressed <==> contains(LeftRect(layout, s, bounds), point)
    ensures contains(LeftRect(layout, s, bounds), point) ==> r.right == s.right
    ensures !contains(LeftRect(layout, s, bounds), point) ==>
              (r.right.pressed <==> contains(RightRect(layout, s, bounds), point))
  {
    var (left, hit) := TryPress(s.left, point, LeftRect(layout, s, bounds), contains);
    if hit then s.(left := left)
    else
      var (right, _) := TryPress(s.right, point, RightRect(layout, s, bounds), contains);
      s.(left := left, right := right)
  }

  /** `OnPointerMoved`: a held left handle proposes a new start and takes it
      only when it stays more than the gap below the end; otherwise a held
      right handle proposes a new end and takes it only when it stays more
      than the gap above the start. */
  function Move(layout: Layout, s: Selector, point: Point, bounds: Bounds): (r: Selector)
    ensures r.max == s.max && r.left == s.left && r.right == s.right
    ensures s.left.pressed ==> r.trimEnd == s.trimEnd
    ensures s.left.pressed ==>
              var c := LeftCandidate(layout, s, point.x, bounds);
              (r.trimStart == c <== c.value < s.trimEnd.value - layout.gap)
              && (r.trimStart == s.trimStart <== c.value >= s.trimEnd.value - layout.gap)
    ensures !s.left.pressed ==> r.trimStart == s.trimStart
    ensures !s.left.pressed && s.right.pressed ==>
              var c := RightCandidate(layout, s, point.x, bounds);
              (r.trimEnd == c <== c.value > s.trimStart.value + layout.gap)
              && (r.trimEnd == s.trimEnd <== c.value <= s.trimStart.value + layout.gap)
    ensures !s.left.pressed && !s.right.pressed ==> r == s
    ensures r.trimStart != s.trimStart ==> 0 <= r.trimStart.value <= Max(0, s.max.value)
    ensures r.trimEnd != s.trimEnd ==> 0 <= r.trimEnd.value <= Max(0, s.max.value)
    ensures GapHolds(layout, s) ==> GapHolds(layout, r)
  {
    if TryDrag(s.left) then
      var c := LeftCandidate(layout, s, point.x, bounds);
      if Less(c, TimeMs(s.trimEnd.value - layout.gap)) then s.(trimStart := c) else s
    else if TryDrag(s.right) then
      var c := RightCandidate(layout, s, point.x, bounds);
      if Greater(c, TimeMs(s.trimStart.value + layout.gap)) then s.(trimEnd := c) else s
    else s
  }

  /** `OnPointerReleased`: both handles let go; the range stays. */
  function Release(s: Selector): (r: Selector)
    ensures !TryDrag(r.left) && !TryDrag(r.right)
    ensures r.trimStart == s.trimStart && r.trimEnd == s.trimEnd && r.max == s.max
  {
    s.(left := Handles.Release(s.left), right := Handles.Release(s.right))
  }

  // ------------------------------------------------------------ sequences of events

  /** What reaches the control: a new `Max` through the binding, or a
      pointer press, move or release at a point while the control has some
      bounds. */
  datatype Event =
    | MaxSet(max: TimeMs)
    | Pressed(point: Point, bounds: Bounds)
    | Moved(point: Point, bounds: Bounds)
    | Released

  function Step(layout: Layout, s: Selector, e: Event, contains: Contains): Selector
  {
    match e
    case MaxSet(m) => SetMax(layout, s, m)
    case Pressed(p, b) => Press(layout, s, p, b, contains)
    case Moved(p, b) => Move(layout, s, p, b)
    case Released => Release(s)
  }

  function Run(layout: Layout, s: Selector, es: seq<Event>, contains: Contains): Selector
    decreases |es|
  {
    if es == [] then s else Run(layout, Step(layout, s, es[0], contains), es[1..], contains)
  }

  // ------------------------------------------------------------ properties

  /** Once the handles are the gap apart, no sequence of events brings them
      closer. */
  lemma {:induction false} GapKept(layout: Layout, s: Selector, es: seq<Event>, contains: Contains)
    requires layout.gap >= 0 && GapHolds(layout, s)
    ensures GapHolds(layout, Run(layout, s, es, contains))
    decreases |es|
  {
    if es != [] {
      GapKept(layout, Step(layout, s, es[0], contains), es[1..], contains);
    }
  }

  /** In every revision, a change of `Max` sets up the gap, and from then on
      it holds whatever follows. */
  lemma GapAfterReset(layout: Layout, s: Selector, max: TimeMs, es: seq<Event>, contains: Contains)
    requires layout in {ControlLayout, SelectorLayout, LegacyLayout}
    requires max != s.max
    ensures var r := SetMax(layout, s, max);
            r.trimEnd.value - r.trimStart.value == layout.gap
            && Run(layout, r, es, contains).trimEnd.value - Run(layout, r, es, contains).trimStart.value >= layout.gap
  {
    GapKept(layout, SetMax(layout, s, max), es, contains);
  }

  /** The reset does not look at `Max`: a media shorter than the gap gets an
      end past its own length. */
  lemma ResetCanPassMax(s: Selector)
    requires s.max != TimeMs(50)
    ensures var r := SetMax(ControlLayout, s, TimeMs(50));
            r.trimEnd.value == 100 && r.trimEnd.value > Max(0, r.max.value)
  {
  }

  /** While both handles are held, a move drags the left one only. */
  lemma LeftWinsMove(layout: Layout, s: Selector, point: Point, bounds: Bounds)
    requires s.left.pressed && s.right.pressed
    ensures Move(layout, s, point, bounds).trimEnd == s.trimEnd
  {
  }

  /** A press that hits both rectangles takes the left handle; the right one
      keeps whatever it had. Right after a release, the right handle then
      stays free. */
  lemma LeftWinsPress(layout: Layout, s: Selector, point: Point, bounds: Bounds, contains: Contains)
    requires contains(LeftRect(layout, s, bounds), point) && contains(RightRect(layout, s, bounds), point)
    ensures var r := Press(layout, Release(s), point, bounds, contains);
            TryDrag(r.left) && !TryDrag(r.right)
  {
    assert LeftRect(layout, Release(s), bounds) == LeftRect(layout, s, bounds);
  }

  /** With no handle held, pointer moves change nothing. */
  lemma MovesAfterRelease(layout: Layout, s: Selector, points: seq<Point>, bounds: Bounds, contains: Contains)
    ensures Run(layout, Release(s), seq(|points|, i requires 0 <= i < |points| => Moved(points[i], bounds)), contains)
            == Release(s)
  {
    MovesOnly(layout, Release(s), points, bounds, contains);
  }

  lemma {:induction false} MovesOnly(layout: Layout, s: Selector, points: seq<Point>, bounds: Bounds, contains: Contains)
    requires !s.left.pressed && !s.right.pressed
    ensures Run(layout, s, seq(|points|, i requires 0 <= i < |points| => Moved(points[i], bounds)), contains) == s
    decreases |points|
  {
    var es := seq(|points|, i requires 0 <= i < |points| => Moved(points[i], bounds));
    if points != [] {
      assert es[0] == Moved(points[0], bounds);
      assert es[1..] == seq(|points[1..]|, i requires 0 <= i < |points[1..]| => Moved(points[1..][i], bounds));
      MovesOnly(layout, s, points[1..], bounds, contains);
    }
  }

  /** Before any `Max` arrives the media length is 0, every candidate is
      0, and no drag passes its guard: the handles stay at 0. */
  lemma {:induction false} StuckBeforeMax(layout: Layout, s: Selector, es: seq<Event>, contains: Contains)
    requires layout.gap >= 0
    requires s.trimStart == s.trimEnd == s.max == TimeMs(0)
    requires forall i :: 0 <= i < |es| ==> !es[i].MaxSet?
    ensures var r := Run(layout, s, es, contains);
            r.trimStart == r.trimEnd == r.max == TimeMs(0)
    decreases |es|
  {
    if es != [] {
      var t := Step(layout, s, es[0], contains);
      if es[0].Moved? {
        assert LeftCandidate(layout, s, es[0].point.x, es[0].bounds).value == 0;
        assert RightCandidate(layout, s, es[0].point.x, es[0].bounds).value == 0;
      }
      StuckBeforeMax(layout, t, es[1..], contains);
    }
  }

  lemma InitialStuck(layout: Layout, es: seq<Event>, contains: Contains)
    requires layout.gap >= 0
    requires forall i :: 0 <= i < |es| ==> !es[i].MaxSet?
    ensures Run(layout, Initial, es, contains).trimEnd == TimeMs(0)
    ensures !GapHolds(LegacyLayout, Run(LegacyLayout, Initial, es, contains))
  {
    StuckBeforeMax(layout, Initial, es, contains);
    StuckBeforeMax(LegacyLayout, Initial, es, contains);
  }

  /** The revisions differ where the source says: the newer two read the
      left handle one handle width further right than the right one, the
      older reads both at the same place and puts both rectangles at the
      handle's own position. */
  lemma Revisions(s: Selector, x: real, bounds: Bounds)
    ensures LeftX(ControlLayout, x) == x + 2.0 && RightX(ControlLayout, x) == x - 2.0
    ensures LeftX(SelectorLayout, x) == x + 5.0 && RightX(SelectorLayout, x) == x - 5.0
    ensures LeftX(LegacyLayout, x) == RightX(LegacyLayout, x) == x - 5.0
    ensures LeftRect(LegacyLayout, s, bounds).x == ToDip(s.trimStart, s.max, bounds.width)
    ensures LeftRect(ControlLayout, s, bounds).x == ToDip(s.trimStart, s.max, bounds.width) - 4.0
    ensures LeftRect(LegacyLayout, s, bounds).height == 35.0
    ensures RightRect(SelectorLayout, s, bounds).height == bounds.height
  {
  }
}
