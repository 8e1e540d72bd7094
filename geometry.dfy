/** Pixel geometry shared by the blob filter, the selection test and the lock maintenance. */
module Geometry {

  /** A pixel position, x to the right and y downwards. */
  datatype Point = Point(x: int, y: int)

  /** An axis-aligned bounding rectangle (x, y, w, h), as OpenCV's boundingRect reports it. */
  datatype Rect = Rect(x: int, y: int, w: int, h: int)

  /** The tracking centre (x + w // 2, y + h // 2). Dafny's `/` by the positive constant 2
      rounds down, exactly like Python's `//`, so the characterisation below holds for
      every sign of w and h. */
  function Centre(r: Rect): (c: Point)
    ensures 2 * (c.x - r.x) <= r.w < 2 * (c.x - r.x) + 2
    ensures 2 * (c.y - r.y) <= r.h < 2 * (c.y - r.y) + 2
    ensures r.w >= 0 && r.h >= 0 ==> Contains(r, c)
  {
    Point(r.x + r.w / 2, r.y + r.h / 2)
  }

  /** The inclusive test bx <= x <= bx + bw and by <= y <= by + bh: a point on the right or
      bottom edge line, one pixel past the last pixel of the box, still counts. */
  predicate Contains(r: Rect, p: Point) {
    r.x <= p.x <= r.x + r.w && r.y <= p.y <= r.y + r.h
  }

  function Square(a: int): (s: nat)
    ensures s == 0 <==> a == 0
  {
    assert a != 0 ==> a * a > 0 by {
      if a > 0 { assert a * a >= a; } else if a < 0 { assert a * a >= -a; }
    }
    a * a
  }

  /** Squared Euclidean distance between two centres. For a threshold t >= 0 and integer
      coordinates, hypot(dx, dy) < t exactly when Dist2 < t * t, and hypot orders pairs
      exactly as Dist2 does, so comparing squares loses nothing. */
  function Dist2(p: Point, q: Point): (d: nat)
    ensures d == 0 <==> p == q
  {
    Square(p.x - q.x) + Square(p.y - q.y)
  }

  /** hypot(...) < threshold, in squares. */
  predicate Within(d: nat, threshold: nat) {
    d < threshold * threshold
  }
}
