/**
 * Two-dimensional vectors over exact reals: the part of the `math_vector`
 * and `vector2d` crates that the geometry core uses (addition, subtraction,
 * scaling, squared length). Rotation and square roots are not defined here:
 * rotation is passed to the operations that need it, and distances are
 * compared through their squares.
 */
module Geometry {

  datatype Vec2 = Vec2(x: real, y: real)

  const Zero := Vec2(0.0, 0.0)

  function Add(a: Vec2, b: Vec2): Vec2
  {
    Vec2(a.x + b.x, a.y + b.y)
  }

  function Sub(a: Vec2, b: Vec2): Vec2
  {
    Vec2(a.x - b.x, a.y - b.y)
  }

  function Scale(a: Vec2, k: real): Vec2
  {
    Vec2(a.x * k, a.y * k)
  }

  function LengthSq(a: Vec2): real
  {
    a.x * a.x + a.y * a.y
  }

  /** The square of the Euclidean distance between two points. */
  function DistSq(a: Vec2, b: Vec2): real
  {
    LengthSq(Sub(b, a))
  }

  function Abs(r: real): real
  {
    if r < 0.0 then -r else r
  }

  function Min(a: real, b: real): real
  {
    if a <= b then a else b
  }

  function Max(a: real, b: real): real
  {
    if a <= b then b else a
  }

  /**
   * `sqrt(dsq) > r` for the non-negative square root, decided without the
   * root: a distance is never negative, so it exceeds every negative radius.
   */
  predicate ExceedsRadius(dsq: real, r: real)
  {
    r < 0.0 || dsq > r * r
  }

  /** Scaling a vector by `k` scales its squared length by `k * k`. */
  lemma ScaledLengthSq(a: Vec2, k: real)
    ensures LengthSq(Scale(a, k)) == k * k * LengthSq(a)
  {
  }

  /** The product of two non-negative reals is non-negative. */
  lemma ProductNonNegative(a: real, b: real)
    requires 0.0 <= a && 0.0 <= b
    ensures 0.0 <= a * b
  {
  }
}
