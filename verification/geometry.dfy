/**
 * Integer rectangles and points with the semantics of pygame's Rect:
 * `colliderect` is a strict overlap test (rectangles that only share an edge
 * do not collide, and a rectangle of zero width or height collides with
 * nothing), `collidepoint` is half-open on the right and bottom edges, and the
 * centre is `(x + w // 2, y + h // 2)`.
 */
module Geometry {
  datatype Point = Point(x: int, y: int)

  datatype Rect = Rect(x: int, y: int, w: nat, h: nat)

  function Plus(p: Point, q: Point): Point {
    Point(p.x + q.x, p.y + q.y)
  }

  function Minus(p: Point, q: Point): Point {
    Point(p.x - q.x, p.y - q.y)
  }

  predicate Colliderect(a: Rect, b: Rect) {
    && a.w > 0 && a.h > 0 && b.w > 0 && b.h > 0
    && a.x < b.x + b.w && b.x < a.x + a.w
    && a.y < b.y + b.h && b.y < a.y + a.h
  }

  predicate CollidePoint(r: Rect, p: Point) {
    r.x <= p.x < r.x + r.w && r.y <= p.y < r.y + r.h
  }

  function Center(r: Rect): Point {
    Point(r.x + r.w / 2, r.y + r.h / 2)
  }

  /** Assigning `rect.center`: the size is kept and the corner moves. */
  function WithCenter(r: Rect, c: Point): (s: Rect)
    ensures Center(s) == c && s.w == r.w && s.h == r.h
  {
    Rect(c.x - r.w / 2, c.y - r.h / 2, r.w, r.h)
  }

  /** Moving a rectangle's centre back by the offset: the whole rectangle moves by minus the offset. */
  function Shifted(r: Rect, off: Point): (s: Rect)
    ensures Center(s) == Minus(Center(r), off)
  {
    Rect(r.x - off.x, r.y - off.y, r.w, r.h)
  }

  /** The rectangle moved `dx` across and `dy` down, as pygame's `move` does. */
  function Moved(r: Rect, dx: int, dy: int): Rect {
    Rect(r.x + dx, r.y + dy, r.w, r.h)
  }

  /** Moving two rectangles by the same offset keeps whether they collide. */
  lemma ShiftedColliderect(a: Rect, b: Rect, off: Point)
    ensures Colliderect(Shifted(a, off), Shifted(b, off)) == Colliderect(a, b)
  {
  }
}
