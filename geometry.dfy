/** Rectangle clipping and point containment on integer pixel coordinates
    (`clip_rect` and `point_in_rect` in ocr_camera.py). */
module Geometry {

  /** A rectangle `(x, y, w, h)`: top-left corner, width and height. */
  datatype Rect = Rect(x: int, y: int, w: int, h: int)

  function Min(a: int, b: int): int { if a <= b then a else b }
  function Max(a: int, b: int): int { if a >= b then a else b }
  function Abs(a: int): int { if a >= 0 then a else -a }

  /** The rectangle lies inside a frame `width` pixels wide and `height` high:
      its origin is a pixel of the frame and it does not reach past the edges. */
  predicate InFrame(r: Rect, width: int, height: int)
  {
    && 0 <= r.x <= width - 1
    && 0 <= r.y <= height - 1
    && 0 <= r.w && r.x + r.w <= width
    && 0 <= r.h && r.y + r.h <= height
  }

  /** Clamps the origin into the frame, then shrinks the size so that the
      rectangle stays inside it. Width and height may come out as 0. */
  function ClipRect(x: int, y: int, w: int, h: int, width: int, height: int): (r: Rect)
    ensures 0 <= r.x && 0 <= r.y && 0 <= r.w && 0 <= r.h
    ensures width >= 1 && height >= 1 ==> InFrame(r, width, height)
    // a frame with no columns (rows) leaves no width (height)
    ensures width < 1 ==> r.x == 0 && r.w == 0
    ensures height < 1 ==> r.y == 0 && r.h == 0
    // clipping never enlarges
    ensures r.w <= Max(0, w) && r.h <= Max(0, h)
    // an origin already in the frame is kept; a negative one moves to the edge
    ensures 0 <= x <= width - 1 ==> r.x == x
    ensures 0 <= y <= height - 1 ==> r.y == y
    ensures x < 0 ==> r.x == 0
    ensures y < 0 ==> r.y == 0
    // an origin past the far edge moves onto the last column (row)
    ensures width >= 1 && x > width - 1 ==> r.x == width - 1
    ensures height >= 1 && y > height - 1 ==> r.y == height - 1
    // a size that fits is kept, one that overshoots is cut exactly at the edge,
    // a negative one becomes 0
    ensures width >= 1 && 0 <= w && r.x + w <= width ==> r.w == w
    ensures width >= 1 && r.x + w > width ==> r.x + r.w == width
    ensures w < 0 ==> r.w == 0
    ensures height >= 1 && 0 <= h && r.y + h <= height ==> r.h == h
    ensures height >= 1 && r.y + h > height ==> r.y + r.h == height
    ensures h < 0 ==> r.h == 0
    // a rectangle already inside the frame is returned as it is
    ensures InFrame(Rect(x, y, w, h), width, height) ==> r == Rect(x, y, w, h)
  {
    var cx := Max(0, Min(x, width - 1));
    var cy := Max(0, Min(y, height - 1));
    Rect(cx, cy, Max(0, Min(w, width - cx)), Max(0, Min(h, height - cy)))
  }

  /** Clipping twice is clipping once. */
  lemma ClipIdempotent(x: int, y: int, w: int, h: int, width: int, height: int)
    requires width >= 1 && height >= 1
    ensures var r := ClipRect(x, y, w, h, width, height);
            ClipRect(r.x, r.y, r.w, r.h, width, height) == r
  {
  }

  /** Inclusive containment test: the boundary belongs to the rectangle. */
  function PointInRect(px: int, py: int, r: Rect): (b: bool)
    // the point's offset from the origin lies between 0 and the size, both included
    ensures b <==> 0 <= px - r.x <= r.w && 0 <= py - r.y <= r.h
    // a rectangle of negative width or height contains no point at all
    ensures b ==> r.w >= 0 && r.h >= 0
  {
    px >= r.x && px <= r.x + r.w && py >= r.y && py <= r.y + r.h
  }

  /** All four edges are inside; one pixel beyond any edge is outside. */
  lemma PointInRectInclusive(r: Rect)
    requires r.w >= 0 && r.h >= 0
    ensures PointInRect(r.x, r.y, r) && PointInRect(r.x + r.w, r.y, r)
    ensures PointInRect(r.x, r.y + r.h, r) && PointInRect(r.x + r.w, r.y + r.h, r)
    ensures !PointInRect(r.x - 1, r.y, r) && !PointInRect(r.x + r.w + 1, r.y, r)
    ensures !PointInRect(r.x, r.y - 1, r) && !PointInRect(r.x, r.y + r.h + 1, r)
  {
  }

  /** The rectangle spanned by a drag from the anchor `(ax, ay)` to the
      mouse position `(px, py)`: min/max normalised, then clipped to the frame. */
  function DragRect(ax: int, ay: int, px: int, py: int, width: int, height: int): (r: Rect)
    ensures width >= 1 && height >= 1 ==> InFrame(r, width, height)
  {
    ClipRect(Min(ax, px), Min(ay, py), Abs(px - ax), Abs(py - ay), width, height)
  }

  /** The drag direction does not matter: any two opposite corners give the
      same rectangle. */
  lemma DragDirectionIrrelevant(ax: int, ay: int, px: int, py: int, width: int, height: int)
    ensures DragRect(ax, ay, px, py, width, height) == DragRect(px, py, ax, ay, width, height)
    ensures DragRect(ax, ay, px, py, width, height) == DragRect(ax, py, px, ay, width, height)
    ensures DragRect(ax, ay, px, py, width, height) == DragRect(px, ay, ax, py, width, height)
  {
  }

  /** A drag between two pixels of the frame is not clipped at all: it is the
      rectangle with those two points as opposite corners. */
  lemma DragInsideFrame(ax: int, ay: int, px: int, py: int, width: int, height: int)
    requires 0 <= ax < width && 0 <= px < width
    requires 0 <= ay < height && 0 <= py < height
    ensures DragRect(ax, ay, px, py, width, height)
         == Rect(Min(ax, px), Min(ay, py), Abs(px - ax), Abs(py - ay))
    ensures PointInRect(ax, ay, DragRect(ax, ay, px, py, width, height))
    ensures PointInRect(px, py, DragRect(ax, ay, px, py, width, height))
  {
  }

  /** A drag rectangle of positive size lies inside the frame, whatever the
      frame's shape: a degenerate frame only yields zero sizes. */
  lemma NonEmptyDragInFrame(ax: int, ay: int, px: int, py: int, width: int, height: int)
    requires DragRect(ax, ay, px, py, width, height).w >= 1
    requires DragRect(ax, ay, px, py, width, height).h >= 1
    ensures InFrame(DragRect(ax, ay, px, py, width, height), width, height)
  {
  }
}
