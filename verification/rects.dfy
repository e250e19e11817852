/**
  Integer rectangles as used by the capture pipeline: the value semantics of
  System.Drawing's Rectangle and Size (x, y, width, height over unbounded
  integers), the Rectangle.Intersect operation, and the three-dimensional copy
  box of Direct3D 11 restricted to the two dimensions the pipeline varies.
 */
module Rects {

  /** Width and height of a rectangle or of a surface. */
  datatype Size = Size(width: int, height: int)

  /** An axis-aligned rectangle: top-left corner (x, y), then width and height. */
  datatype Rect = Rect(x: int, y: int, width: int, height: int) {

    /** The Size property of a rectangle. */
    function Dimensions(): Size { Size(width, height) }

    /** Half-open containment of a point: left and top edges are inside, right and bottom are not. */
    predicate Contains(px: int, py: int) {
      x <= px < x + width && y <= py < y + height
    }

    /** True when the rectangle covers no pixel; this is the pipeline's "nothing to show" test. */
    predicate IsDegenerate() {
      width <= 0 || height <= 0
    }
  }

  /** Rectangle.Empty. */
  const Empty: Rect := Rect(0, 0, 0, 0)

  function Min(a: int, b: int): int { if a <= b then a else b }
  function Max(a: int, b: int): int { if a >= b then a else b }

  /**
    Rectangle.Intersect(a, b): the largest rectangle inside both, or Empty when
    they do not meet. A touching pair (shared edge) yields a zero-width or
    zero-height rectangle at the touching position rather than Empty.
   */
  function Intersect(a: Rect, b: Rect): (r: Rect)
    ensures r.width >= 0 && r.height >= 0
    ensures r.width > 0 && r.height > 0 ==>
              a.x <= r.x && r.x + r.width <= a.x + a.width && a.y <= r.y && r.y + r.height <= a.y + a.height
    ensures r.width > 0 && r.height > 0 ==>
              b.x <= r.x && r.x + r.width <= b.x + b.width && b.y <= r.y && r.y + r.height <= b.y + b.height
  {
    var x1 := Max(a.x, b.x);
    var x2 := Min(a.x + a.width, b.x + b.width);
    var y1 := Max(a.y, b.y);
    var y2 := Min(a.y + a.height, b.y + b.height);
    if x2 >= x1 && y2 >= y1 then Rect(x1, y1, x2 - x1, y2 - y1) else Empty
  }

  /**
    A Direct3D 11 source box in texel coordinates of the source texture. The
    pipeline always copies one slice, so front is 0 and back is 1 and both are
    left implicit.
   */
  datatype Box = Box(left: int, top: int, right: int, bottom: int)

  /** Intersect is exact: a point lies in the result if and only if it lies in both rectangles. */
  lemma IntersectPointwise(a: Rect, b: Rect, px: int, py: int)
    ensures Intersect(a, b).Contains(px, py) <==> a.Contains(px, py) && b.Contains(px, py)
  {
    var x1 := Max(a.x, b.x);
    var x2 := Min(a.x + a.width, b.x + b.width);
    var y1 := Max(a.y, b.y);
    var y2 := Min(a.y + a.height, b.y + b.height);
    if !(x2 >= x1 && y2 >= y1) {
      assert !Empty.Contains(px, py);
    }
  }

  /** Intersecting with a rectangle that already covers `a` leaves `a` unchanged. */
  lemma IntersectCovered(a: Rect, b: Rect)
    requires a.width >= 0 && a.height >= 0
    requires b.x <= a.x && a.x + a.width <= b.x + b.width && b.y <= a.y && a.y + a.height <= b.y + b.height
    ensures Intersect(a, b) == a
  {
  }

  /** The overlap does not depend on the order of the two rectangles. */
  lemma IntersectCommutes(a: Rect, b: Rect)
    ensures Intersect(a, b) == Intersect(b, a)
  {
  }
}
