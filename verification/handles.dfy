/** `DraggableRect`, the pressed flag of one trim handle, and the geometry the
    selectors hand it. Whether a rectangle contains a point is Avalonia's
    `Rect.Contains`, which the model takes as a parameter. */
module Handles {

  /** A point and a rectangle in device independent pixels. */
  datatype Point = Point(x: real, y: real)
  datatype Rect = Rect(x: real, y: real, width: real, height: real)

  /** `Rect.Contains`, left uninterpreted. */
  type Contains = (Rect, Point) -> bool

  /** A handle remembers whether the last press hit it. */
  datatype DraggableRect = DraggableRect(pressed: bool)

  const Idle: DraggableRect := DraggableRect(false)

  /** `TryPress`: the handle is pressed when the rectangle holds the point,
      and released when it does not; the answer is the new state. */
  function TryPress(h: DraggableRect, point: Point, rect: Rect, contains: Contains): (r: (DraggableRect, bool))
    ensures r.1 <==> contains(rect, point)
    ensures r.0.pressed == r.1
  {
    var hit := contains(rect, point);
    (DraggableRect(hit), hit)
  }

  /** `TryDrag`: whether the handle is held, which is whenever it is not
      the idle handle. */
  function TryDrag(h: DraggableRect): (r: bool)
    ensures r <==> h != Idle
  {
    h.pressed
  }

  /** `Release`: the handle is no longer held. */
  function Release(h: DraggableRect): (r: DraggableRect)
    ensures !TryDrag(r)
  {
    DraggableRect(false)
  }

  /** After a press, a drag goes ahead exactly when the press hit the
      rectangle, whatever the handle's state before; a missed press forgets an
      earlier hit. */
  lemma PressThenDrag(h: DraggableRect, point: Point, rect: Rect, contains: Contains)
    ensures TryDrag(TryPress(h, point, rect, contains).0) <==> contains(rect, point)
    ensures !contains(rect, point) ==> !TryDrag(TryPress(h, point, rect, contains).0)
  {
  }

  /** Whatever came before, a release followed by a drag does not drag. */
  lemma ReleaseThenDrag(h: DraggableRect, point: Point, rect: Rect, contains: Contains)
    ensures !TryDrag(Release(TryPress(h, point, rect, contains).0))
  {
  }
}
