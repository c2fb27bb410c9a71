/** Vector, colour and ray algebra of `src/math.rs`, over exact reals.

    `f64` becomes `real`. The operations that have no exact real counterpart
    (`sqrt`, `unit()` and `powf`) are supplied by the caller in a `Numerics`
    bundle; lemmas that depend on how they behave say so in their hypotheses. */
module Math {

  datatype Vec3 = Vec3(x: real, y: real, z: real)

  /** `Point` and `Color` are aliases of `Vec3`, as in the source. */
  type Point = Vec3
  type Color = Vec3

  const Origin: Vec3 := Vec3(0.0, 0.0, 0.0)

  /** The largest finite `f64`, used by the integrator as "no upper bound". */
  const F64Max: real := 179769313486231570814527423731704356798070567525844996598917476803157260780028538760589558632766878171540458953514382464234321326889464182768467546703537516986049910576551282076245490090389328944075868508455133942304583236903222948165808559332123348274797826204144723168738177180919299881250404026184124858368.0

  /** The non-exact numeric primitives: `f64::sqrt`, `Vec3::unit` and `f64::powf`. */
  datatype Numerics = Numerics(sqrt: real -> real, unit: Vec3 -> Vec3, pow: (real, real) -> real)

  /** `sqrt` returns the non-negative square root of every non-negative argument. */
  ghost predicate IsSqrt(sqrt: real -> real) {
    forall d :: 0.0 <= d ==> 0.0 <= sqrt(d) && sqrt(d) * sqrt(d) == d
  }

  /** `sqrt` never returns a negative value on a non-negative argument. */
  ghost predicate SqrtNonNegative(sqrt: real -> real) {
    forall d :: 0.0 <= d ==> 0.0 <= sqrt(d)
  }

  function Add(u: Vec3, v: Vec3): Vec3 {
    Vec3(u.x + v.x, u.y + v.y, u.z + v.z)
  }

  function Sub(u: Vec3, v: Vec3): Vec3 {
    Vec3(u.x - v.x, u.y - v.y, u.z - v.z)
  }

  /** Component-wise product (`Vec3 * Vec3`), used to attenuate colours. */
  function Mul(u: Vec3, v: Vec3): Vec3 {
    Vec3(u.x * v.x, u.y * v.y, u.z * v.z)
  }

  /** Scalar product (`f64 * Vec3` and `Vec3 * f64`). */
  function Scale(k: real, v: Vec3): Vec3 {
    Vec3(k * v.x, k * v.y, k * v.z)
  }

  function Div(v: Vec3, k: real): Vec3
    requires k != 0.0
  {
    Vec3(v.x / k, v.y / k, v.z / k)
  }

  function Neg(v: Vec3): Vec3 {
    Scale(-1.0, v)
  }

  function Dot(u: Vec3, v: Vec3): real {
    u.x * v.x + u.y * v.y + u.z * v.z
  }

  function Cross(u: Vec3, v: Vec3): Vec3 {
    Vec3(u.y * v.z - u.z * v.y, u.z * v.x - u.x * v.z, u.x * v.y - u.y * v.x)
  }

  /** The squared length is the self dot product, which is never negative. */
  function LengthSquared(v: Vec3): (r: real)
    ensures 0.0 <= r
  {
    Dot(v, v)
  }

  /** `Vec3::rgb`: an 8-bit colour as a unit-range colour. */
  function Rgb(r: int, g: int, b: int): (c: Color)
    requires 0 <= r < 256 && 0 <= g < 256 && 0 <= b < 256
    ensures InUnitCube(c)
    ensures Scale(255.0, c) == Vec3(r as real, g as real, b as real)
  {
    Vec3(r as real / 255.0, g as real / 255.0, b as real / 255.0)
  }

  /** Every channel lies in `[0, 1]`. */
  predicate InUnitCube(c: Color) {
    0.0 <= c.x <= 1.0 && 0.0 <= c.y <= 1.0 && 0.0 <= c.z <= 1.0
  }

  /** `powf(x, 0.5)` is the non-negative square root of every non-negative `x`. */
  ghost predicate PowHalfIsSqrt(pow: (real, real) -> real) {
    forall x :: 0.0 <= x ==> 0.0 <= pow(x, 0.5) && pow(x, 0.5) * pow(x, 0.5) == x
  }

  /** `Vec3::gamma_correct`: each channel raised to `1 / value`. Gamma 2, the value
      the renderers use, takes channel square roots: squaring undoes it, and it
      keeps a unit-range colour in range. */
  function GammaCorrect(c: Color, value: real, num: Numerics): (r: Color)
    requires value != 0.0
    ensures value == 2.0 && PowHalfIsSqrt(num.pow) && 0.0 <= c.x && 0.0 <= c.y && 0.0 <= c.z ==>
              Mul(r, r) == c && 0.0 <= r.x && 0.0 <= r.y && 0.0 <= r.z
    ensures value == 2.0 && PowHalfIsSqrt(num.pow) && InUnitCube(c) ==> InUnitCube(r)
  {
    var r := Vec3(num.pow(c.x, 1.0 / value), num.pow(c.y, 1.0 / value), num.pow(c.z, 1.0 / value));
    RootAtMostOne(r.x, c.x);
    RootAtMostOne(r.y, c.y);
    RootAtMostOne(r.z, c.z);
    r
  }

  /** A non-negative square root of a number at most one is at most one. */
  lemma RootAtMostOne(s: real, x: real)
    ensures 0.0 <= s && s * s == x && x <= 1.0 ==> s <= 1.0
  {
    if 0.0 <= s && s * s == x && s > 1.0 {
      assert s * s > s * 1.0;
    }
  }

  /** `random_hemisphere_vec` given the random unit vector `v` it drew: `v` when it
      points strictly into the half-space of `n`, its negation otherwise. */
  function HemisphereVec(n: Vec3, v: Vec3): (r: Vec3)
    ensures r == v || r == Neg(v)
    ensures Dot(r, n) >= 0.0
    ensures Dot(v, n) > 0.0 ==> r == v
    ensures Dot(v, n) <= 0.0 ==> r == Neg(v)
  {
    if Dot(v, n) > 0.0 then v else Neg(v)
  }

  datatype Ray = Ray(origin: Point, direction: Vec3) {
    /** `Ray::at`: the point reached after travelling `t` along the direction. */
    function At(t: real): (p: Point)
      ensures Sub(p, origin) == Scale(t, direction)
    {
      Add(origin, Scale(t, direction))
    }
  }

  /** `clamp(x, min, max)`. */
  function Clamp(x: real, min: real, max: real): (r: real)
    ensures min <= max ==> min <= r <= max
    ensures min <= x <= max ==> r == x
    ensures x < min ==> r == min
    ensures min <= x && max < x ==> r == max
  {
    if x < min then min else if x > max then max else x
  }

  /** `in_range(x, min, max)`: closed at both ends. */
  function InRange(x: real, min: real, max: real): (b: bool)
    ensures b <==> min <= x && x <= max
  {
    min <= x && x <= max
  }

  /** `in_range` accepts exactly the values `clamp` leaves alone, for any bounds,
      even inverted ones: both ends are in range, and nothing is when `max < min`. */
  lemma InRangeIffClampFixes(x: real, min: real, max: real)
    ensures InRange(x, min, max) <==> Clamp(x, min, max) == x
    ensures InRange(min, min, max) <==> min <= max
    ensures InRange(max, min, max) <==> min <= max
  {
  }

  // Algebraic laws of the vector operations.

  lemma DotSymmetric(u: Vec3, v: Vec3)
    ensures Dot(u, v) == Dot(v, u)
  {
  }

  /** The cross product is perpendicular to both of its arguments. */
  lemma CrossPerpendicular(u: Vec3, v: Vec3)
    ensures Dot(Cross(u, v), u) == 0.0 && Dot(Cross(u, v), v) == 0.0
  {
  }

  lemma CrossAntiCommutative(u: Vec3, v: Vec3)
    ensures Cross(u, v) == Neg(Cross(v, u))
  {
  }

  /** The scalar triple product is invariant under cyclic rotation. */
  lemma TripleProductCyclic(a: Vec3, b: Vec3, c: Vec3)
    ensures Dot(a, Cross(b, c)) == Dot(b, Cross(c, a)) == Dot(c, Cross(a, b))
  {
    assert a == Vec3(a.x, a.y, a.z) && b == Vec3(b.x, b.y, b.z) && c == Vec3(c.x, c.y, c.z);
    TripleExpansion(a.x, a.y, a.z, b.x, b.y, b.z, c.x, c.y, c.z);
  }

  /** `TripleProductCyclic` on coordinates: the three expansions are the same
      polynomial. */
  lemma TripleExpansion(a1: real, a2: real, a3: real, b1: real, b2: real, b3: real, c1: real, c2: real, c3: real)
    ensures var a, b, c := Vec3(a1, a2, a3), Vec3(b1, b2, b3), Vec3(c1, c2, c3);
            Dot(a, Cross(b, c)) == Dot(b, Cross(c, a)) == Dot(c, Cross(a, b))
  {
    assert a1 * (b2 * c3 - b3 * c2) + a2 * (b3 * c1 - b1 * c3) + a3 * (b1 * c2 - b2 * c1)
        == b1 * (c2 * a3 - c3 * a2) + b2 * (c3 * a1 - c1 * a3) + b3 * (c1 * a2 - c2 * a1)
        == c1 * (a2 * b3 - a3 * b2) + c2 * (a3 * b1 - a1 * b3) + c3 * (a1 * b2 - a2 * b1);
  }

  lemma RayAtZero(r: Ray)
    ensures r.At(0.0) == r.origin
  {
  }

  /** Lagrange's identity: `|u|^2 |v|^2 - (u.v)^2 == |u x v|^2`. */
  lemma LagrangeIdentity(u: Vec3, v: Vec3)
    ensures LengthSquared(u) * LengthSquared(v) - Dot(u, v) * Dot(u, v) == LengthSquared(Cross(u, v))
  {
  }

  /** The Cauchy-Schwarz inequality, squared: `(u.v)^2 <= |u|^2 |v|^2`. */
  lemma CauchySchwarzSquared(u: Vec3, v: Vec3)
    ensures Dot(u, v) * Dot(u, v) <= LengthSquared(u) * LengthSquared(v)
  {
    LagrangeIdentity(u, v);
  }
}
