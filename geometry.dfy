/** The raylib vector arithmetic the layout code relies on, with float32 read as real. */
module Geometry {

  /** raylib's Vector2. */
  datatype Vec2 = Vec2(x: real, y: real)

  const Zero: Vec2 := Vec2(0.0, 0.0)

  function Add(a: Vec2, b: Vec2): Vec2 { Vec2(a.x + b.x, a.y + b.y) }

  function Sub(a: Vec2, b: Vec2): Vec2 { Vec2(a.x - b.x, a.y - b.y) }

  function Neg(a: Vec2): Vec2 { Vec2(-a.x, -a.y) }

  function Scale(v: Vec2, k: real): Vec2 { Vec2(v.x * k, v.y * k) }

  /** Componentwise division, as in `Center.X /= TotalMass`. */
  function Div(v: Vec2, k: real): Vec2
    requires k != 0.0
  {
    Vec2(v.x / k, v.y / k)
  }

  function LengthSqr(v: Vec2): real { v.x * v.x + v.y * v.y }

  /** Go's math.Min and math.Max on ordinary (non-NaN) values. */
  function Min(a: real, b: real): real { if a <= b then a else b }

  function Max(a: real, b: real): real { if a >= b then a else b }

  /** One component of raylib's Vector2Clamp: min(hi, max(lo, v)). */
  function Clamp(v: real, lo: real, hi: real): (r: real)
    ensures lo <= hi ==> lo <= r <= hi
    ensures lo <= v <= hi ==> r == v
    ensures hi < lo ==> r == hi
  {
    Min(hi, Max(lo, v))
  }

  function ClampVec(v: Vec2, lo: Vec2, hi: Vec2): Vec2
  {
    Vec2(Clamp(v.x, lo.x, hi.x), Clamp(v.y, lo.y, hi.y))
  }

  /** The float routines the model leaves uninterpreted: square root,
      raylib's Vector2Normalize, and the float32 division of the spring
      force, whose divisor can be 0 and which then gives an infinity or
      NaN. */
  datatype MathOps = MathOps(sqrt: real -> real, normalize: Vec2 -> Vec2, divide: (real, real) -> real)

  /** raylib's Vector2Length and Vector2Distance. */
  function Length(m: MathOps, v: Vec2): real { m.sqrt(LengthSqr(v)) }

  /** The only fact about square roots any proof here uses. */
  ghost predicate SqrtNonNegative(m: MathOps)
  {
    forall x: real :: 0.0 <= x ==> 0.0 <= m.sqrt(x)
  }

  /** Normalizing the opposite vector gives the opposite direction. */
  ghost predicate NormalizeOdd(m: MathOps)
  {
    forall v: Vec2 :: m.normalize(Neg(v)) == Neg(m.normalize(v))
  }
}
