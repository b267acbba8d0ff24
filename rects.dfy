/**
 * bracket_lib's `Rect`, whose source is not part of this model. Its behaviour
 * is stated here as definitions (assumptions about that library):
 * `with_size(x, y, w, h)` has corners (x, y) and (x + w, y + h), `intersect`
 * is overlap of the closed intervals on both axes, `for_each` visits the
 * half-open cell range x1..x2 by y1..y2, and `center` is the i32 midpoint.
 */
module Rects {
  import opened Maps

  datatype Rect = Rect(x1: int, y1: int, x2: int, y2: int)

  function WithSize(x: int, y: int, w: int, h: int): Rect {
    Rect(x, y, x + w, y + h)
  }

  predicate Intersect(a: Rect, b: Rect) {
    a.x1 <= b.x2 && a.x2 >= b.x1 && a.y1 <= b.y2 && a.y2 >= b.y1
  }

  /** The cells `for_each` visits. */
  predicate Covers(r: Rect, p: Point) {
    r.x1 <= p.x < r.x2 && r.y1 <= p.y < r.y2
  }

  /** i32 division by two, which truncates toward zero. */
  function Half(a: int): (h: int)
    ensures a >= 0 ==> 2 * h <= a < 2 * h + 2
  {
    if a >= 0 then a / 2 else -((-a) / 2)
  }

  function Center(r: Rect): Point {
    Point(Half(r.x1 + r.x2), Half(r.y1 + r.y2))
  }

  /** Rooms that do not intersect share no cell. */
  lemma DisjointCells(a: Rect, b: Rect, p: Point)
    requires !Intersect(a, b)
    ensures !(Covers(a, p) && Covers(b, p))
  {
  }

  /** The centre of a non-degenerate rectangle with non-negative corners is one of its cells. */
  lemma CenterCovered(r: Rect)
    requires 0 <= r.x1 < r.x2 && 0 <= r.y1 < r.y2
    ensures Covers(r, Center(r))
  {
  }
}
