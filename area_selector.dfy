/** The rectangle-drag area selector: turning the two corners of a mouse drag
    into the screen region that the monitor will grab. */
module AreaSelector {
  import opened Wrappers

  /** Smallest width and height that a selection must strictly exceed. */
  const MIN_SIZE := 10

  /** A screen region as `(left, top, right, bottom)`, the tuple handed to the
      screen grabber. */
  datatype Region = Region(left: int, top: int, right: int, bottom: int)

  /** A mouse drag: where button 1 went down and where it was released. */
  datatype Drag = Drag(startX: int, startY: int, endX: int, endY: int)

  /** A region large enough to be kept by the selector. */
  predicate Sized(r: Region) {
    r.right - r.left > MIN_SIZE && r.bottom - r.top > MIN_SIZE
  }

  function Min(a: int, b: int): int { if a <= b then a else b }

  function Max(a: int, b: int): int { if a <= b then b else a }

  /** The selector's `bbox` after the button is released: the rectangle
      spanned by the two corners, kept only when both its width and its
      height exceed `MIN_SIZE`; otherwise the selection stays `None`. */
  function SelectedRegion(d: Drag): (r: Option<Region>)
    ensures r.Some? <==>
      (d.startX - d.endX > MIN_SIZE || d.endX - d.startX > MIN_SIZE) &&
      (d.startY - d.endY > MIN_SIZE || d.endY - d.startY > MIN_SIZE)
    ensures r.Some? ==> Sized(r.value)
    ensures r.Some? ==>
      r.value.left <= r.value.right && {r.value.left, r.value.right} == {d.startX, d.endX} &&
      r.value.top <= r.value.bottom && {r.value.top, r.value.bottom} == {d.startY, d.endY}
  {
    var left := Min(d.startX, d.endX);
    var top := Min(d.startY, d.endY);
    var right := Max(d.startX, d.endX);
    var bottom := Max(d.startY, d.endY);
    if right - left > MIN_SIZE && bottom - top > MIN_SIZE then
      Some(Region(left, top, right, bottom))
    else
      None
  }

  /** The selection does not depend on which corner the drag started from:
      dragging between the same two opposite corners in any of the four
      directions selects the same region. */
  lemma SelectionIgnoresDragDirection(x1: int, y1: int, x2: int, y2: int)
    ensures SelectedRegion(Drag(x1, y1, x2, y2)) == SelectedRegion(Drag(x2, y2, x1, y1))
    ensures SelectedRegion(Drag(x1, y1, x2, y2)) == SelectedRegion(Drag(x2, y1, x1, y2))
    ensures SelectedRegion(Drag(x1, y1, x2, y2)) == SelectedRegion(Drag(x1, y2, x2, y1))
  {
  }

  /** The size check is strict: a drag exactly `MIN_SIZE` wide or tall
      selects nothing, one pixel more in both directions selects a region. */
  lemma ExactMinimumRejected(x: int, y: int)
    ensures SelectedRegion(Drag(x, y, x + MIN_SIZE, y + 50)) == None
    ensures SelectedRegion(Drag(x, y, x + 50, y + MIN_SIZE)) == None
    ensures SelectedRegion(Drag(x, y, x + MIN_SIZE + 1, y + MIN_SIZE + 1))
         == Some(Region(x, y, x + MIN_SIZE + 1, y + MIN_SIZE + 1))
  {
  }
}
