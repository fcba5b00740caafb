/** Two-dimensional vectors over exact reals: the interface `Vec2` presents to a mass. */
module Vectors {

  datatype Vec2 = Vec2(x: real, y: real)

  /** The origin, which a fresh mass uses for its acceleration and its pending deltas. */
  const Zero := Vec2(0.0, 0.0)

  /** Component-wise sum: what `a.addBy(b)` leaves in `a`. */
  function Add(a: Vec2, b: Vec2): Vec2
  {
    Vec2(a.x + b.x, a.y + b.y)
  }
}
