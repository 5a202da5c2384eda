/** Coordinate primitives the grid map works with: points, inclusive
    rectangles and 4-adjacency. */
module Geom {

  datatype Point = Point(x: int, y: int)

  /** A rectangle with inclusive bounds x1..x2 and y1..y2. */
  datatype Rect = Rect(x1: int, y1: int, x2: int, y2: int)

  /** `Rect.from_xywh`: the rectangle of w columns and h rows whose top-left
      corner is (x, y); its inclusive far corner is (x + w - 1, y + h - 1). */
  function FromXywh(x: int, y: int, w: int, h: int): (r: Rect)
    ensures r.x1 == x && r.y1 == y
    ensures r.x2 - r.x1 + 1 == w && r.y2 - r.y1 + 1 == h
  {
    Rect(x, y, x + w - 1, y + h - 1)
  }

  /** (x, y) lies in r, border included. */
  predicate InRect(r: Rect, x: int, y: int) {
    r.x1 <= x <= r.x2 && r.y1 <= y <= r.y2
  }

  /** (x, y) lies strictly inside r, off its border ring. */
  predicate InInterior(r: Rect, x: int, y: int) {
    r.x1 < x < r.x2 && r.y1 < y < r.y2
  }

  /** p and q are orthogonal neighbours (one step east, west, south or north). */
  predicate Adjacent(p: Point, q: Point) {
    (p.y == q.y && (p.x == q.x + 1 || p.x == q.x - 1)) ||
    (p.x == q.x && (p.y == q.y + 1 || p.y == q.y - 1))
  }

  /** Position of neighbour p of c in the enumeration order east, west,
      south, north. */
  function Rank(c: Point, p: Point): int {
    if p == Point(c.x + 1, c.y) then 0
    else if p == Point(c.x - 1, c.y) then 1
    else if p == Point(c.x, c.y + 1) then 2
    else 3
  }
}
