/** Exact 3-vectors standing in for `mathutils.Vector`, the axis and
    direction settings, and the squared-distance comparisons that replace
    `.length` against the tolerance. */
module Geometry {

  datatype Axis = X | Y | Z

  /** `NEGATIVE` mirrors the negative side onto the positive one, `POSITIVE`
      the other way round. */
  datatype Direction = Negative | Positive

  datatype Vec3 = Vec3(x: real, y: real, z: real)

  /** `co[axis_index]` */
  function Get(v: Vec3, a: Axis): real
  {
    match a
    case X => v.x
    case Y => v.y
    case Z => v.z
  }

  /** `co[axis_index] = c`: replaces one coordinate. */
  function With(v: Vec3, a: Axis, c: real): (r: Vec3)
    ensures Get(r, a) == c
    ensures forall b :: b != a ==> Get(r, b) == Get(v, b)
  {
    match a
    case X => v.(x := c)
    case Y => v.(y := c)
    case Z => v.(z := c)
  }

  /** `mirrored[axis_index] *= -1`: the reflection across the plane
      orthogonal to the axis. */
  function Reflect(v: Vec3, a: Axis): (r: Vec3)
    ensures Get(r, a) == -Get(v, a)
    ensures forall b :: b != a ==> Get(r, b) == Get(v, b)
  {
    With(v, a, -Get(v, a))
  }

  function Add(u: Vec3, v: Vec3): Vec3
  {
    Vec3(u.x + v.x, u.y + v.y, u.z + v.z)
  }

  function Sub(u: Vec3, v: Vec3): Vec3
  {
    Vec3(u.x - v.x, u.y - v.y, u.z - v.z)
  }

  function Abs(c: real): (r: real)
    ensures r >= 0.0 && (r == c || r == -c)
  {
    if c < 0.0 then -c else c
  }

  /** The square of `(u - v).length`. */
  function SqDist(u: Vec3, v: Vec3): (r: real)
    ensures r >= 0.0
  {
    var d := Sub(u, v);
    SquaresNonNegative(d.x, d.y, d.z);
    d.x * d.x + d.y * d.y + d.z * d.z
  }

  /** `SqDist` in terms of a named difference vector. */
  lemma SqDistOf(u: Vec3, v: Vec3, d: Vec3)
    requires Sub(u, v) == d
    ensures SqDist(u, v) == d.x * d.x + d.y * d.y + d.z * d.z
  {
  }

  lemma SquaresNonNegative(a: real, b: real, c: real)
    ensures a * a >= 0.0 && b * b >= 0.0 && c * c >= 0.0
  {
  }

  /** `abs(co[axis]) <= tolerance`: the vertex lies on the mirror plane. */
  predicate OnAxis(v: Vec3, a: Axis, tol: real)
  {
    Abs(Get(v, a)) <= tol
  }

  /** The side filter of the matching loop: a vertex is a match source
      unless `co[axis] > -tol` (NEGATIVE) or `co[axis] < tol` (POSITIVE). */
  predicate IsSource(v: Vec3, a: Axis, dir: Direction, tol: real)
  {
    match dir
    case Negative => Get(v, a) <= -tol
    case Positive => Get(v, a) >= tol
  }

  lemma SubSelf(v: Vec3)
    ensures Sub(v, v) == Vec3(0.0, 0.0, 0.0)
  {
  }

  lemma AddOrigin(v: Vec3)
    ensures Add(v, Vec3(0.0, 0.0, 0.0)) == v
  {
  }

  /** Setting a coordinate to its own value changes nothing. */
  lemma WithOwn(v: Vec3, a: Axis)
    ensures With(v, a, Get(v, a)) == v
  {
    match a
    case X =>
    case Y =>
    case Z =>
  }

  lemma ReflectZero(a: Axis)
    ensures Reflect(Vec3(0.0, 0.0, 0.0), a) == Vec3(0.0, 0.0, 0.0)
  {
    match a
    case X =>
    case Y =>
    case Z =>
  }

  lemma ReflectInvolutive(v: Vec3, a: Axis)
    ensures Reflect(Reflect(v, a), a) == v
  {
  }

  /** The squared distance bounds the squared difference on every axis. */
  lemma AxisGapBelowDistance(u: Vec3, v: Vec3, a: Axis)
    ensures (Get(u, a) - Get(v, a)) * (Get(u, a) - Get(v, a)) <= SqDist(u, v)
  {
    var d := Sub(u, v);
    SquaresNonNegative(d.x, d.y, d.z);
  }

  /** For a non-negative length `d` and tolerance `t`, comparing `d` with
      `t` and comparing their squares agree, in both directions: this is why
      `.length < tol` and `.length > tol` become comparisons of squares. */
  lemma SquaredAgrees(d: real, t: real)
    requires d >= 0.0 && t >= 0.0
    ensures d < t <==> d * d < t * t
    ensures d > t <==> d * d > t * t
  {
    if d < t {
      SquareStrictlyBelow(d, t);
    } else {
      SquareAtMost(t, d);
    }
    if d > t {
      SquareStrictlyBelow(t, d);
    } else {
      SquareAtMost(d, t);
    }
  }

  /** Squaring is strictly increasing on the non-negative reals. */
  lemma SquareStrictlyBelow(a: real, b: real)
    requires 0.0 <= a < b
    ensures a * a < b * b
  {
    var gap, sum := b - a, b + a;
    assert b * b - a * a == gap * sum;
    calc {
      gap * sum;
    >
      0.0 * sum;
    ==
      0.0;
    }
  }

  /** Squaring is monotone on the non-negative reals. */
  lemma SquareAtMost(a: real, b: real)
    requires 0.0 <= a <= b
    ensures a * a <= b * b
  {
    assert b * b - a * a == (b - a) * (b + a);
    assert (b - a) * (b + a) >= 0.0;
  }

  /** For a non-negative bound, `x*x < t*t` places `x` strictly inside
      `(-t, t)`. */
  lemma SquareBelow(x: real, t: real)
    requires t >= 0.0 && x * x < t * t
    ensures -t < x < t
  {
  }

  /** A vertex within `tol` of the reflection of a source vertex lies
      strictly on the opposite side of the mirror plane, so it is not itself
      a source. */
  lemma MatchedPartnerOppositeSide(p: Vec3, q: Vec3, a: Axis, dir: Direction, tol: real)
    requires tol >= 0.0 && IsSource(p, a, dir, tol)
    requires SqDist(Reflect(p, a), q) < tol * tol
    ensures dir == Negative ==> Get(q, a) > 0.0
    ensures dir == Positive ==> Get(q, a) < 0.0
    ensures !IsSource(q, a, dir, tol)
  {
    AxisGapBelowDistance(Reflect(p, a), q, a);
    SquareBelow(Get(Reflect(p, a), a) - Get(q, a), tol);
  }
}
