/** The primitives of `src/render/prim.rs`: single-sided triangles
    (Möller–Trumbore), rectangles made of two triangles, and spheres. */
module Prim {
  import opened Wrappers
  import opened Math
  import opened Hittable
  import opened Cramer
  import opened Quadratic

  // ---------------------------------------------------------------- triangles

  datatype Tri = Tri(p1: Point, p2: Point, p3: Point, normal: Vec3, material: Material)

  /** `Tri::new`: the given normal is stored as is, the colour becomes the material. */
  function NewTri(p1: Point, p2: Point, p3: Point, normal: Vec3, baseColor: Color): (t: Tri)
    ensures t.p1 == p1 && t.p2 == p2 && t.p3 == p3
    ensures t.normal == normal && t.material.diffuse == baseColor
  {
    Tri(p1, p2, p3, normal, Material(baseColor))
  }

  /** `Tri::calc`: the normal is the normalised `(p2 - p1) x (p3 - p1)`, and the same
      vector is used as the triangle's colour. */
  function CalcTri(p1: Point, p2: Point, p3: Point, num: Numerics): (t: Tri)
    ensures t.p1 == p1 && t.p2 == p2 && t.p3 == p3
    ensures t.material.diffuse == t.normal
    ensures t.normal == num.unit(Cross(Sub(p2, p1), Sub(p3, p1)))
  {
    var n := num.unit(Cross(Sub(p2, p1), Sub(p3, p1)));
    NewTri(p1, p2, p3, n, n)
  }

  /** `Tri::translate`: all three vertices move by `offset`; normal and material stay. */
  function TranslateTri(tri: Tri, offset: Vec3): (r: Tri)
    ensures Sub(r.p1, tri.p1) == offset && Sub(r.p2, tri.p2) == offset && Sub(r.p3, tri.p3) == offset
    ensures r.normal == tri.normal && r.material == tri.material
  {
    tri.(p1 := Add(tri.p1, offset), p2 := Add(tri.p2, offset), p3 := Add(tri.p3, offset))
  }

  /** Translating by `a` and then by `b` is translating by `a + b`. */
  lemma TranslateTriCompose(tri: Tri, a: Vec3, b: Vec3)
    ensures TranslateTri(TranslateTri(tri, a), b) == TranslateTri(tri, Add(a, b))
  {
  }

  function Edge1(tri: Tri): Vec3 { Sub(tri.p2, tri.p1) }
  function Edge2(tri: Tri): Vec3 { Sub(tri.p3, tri.p1) }

  /** Möller–Trumbore's determinant `(p2 - p1) . (d x (p3 - p1))`; it is positive
      exactly when the ray meets the triangle's front side (counter-clockwise winding). */
  function Det(tri: Tri, ray: Ray): real {
    Dot(Edge1(tri), Cross(ray.direction, Edge2(tri)))
  }

  /** The determinant is minus the projection of the direction on the winding's
      normal `e1 x e2`: it is positive exactly when the ray travels against that
      normal, i.e. meets the side from which `p1, p2, p3` run counter-clockwise. */
  lemma DetFacing(tri: Tri, ray: Ray)
    ensures Det(tri, ray) == -Dot(ray.direction, Cross(Edge1(tri), Edge2(tri)))
    ensures Det(tri, ray) > 0.0 <==> Dot(ray.direction, Cross(Edge1(tri), Edge2(tri))) < 0.0
  {
    var e1, e2, d := Edge1(tri), Edge2(tri), ray.direction;
    TripleProductCyclic(e1, d, e2);
    CrossAntiCommutative(e2, e1);
    assert Dot(d, Neg(Cross(e1, e2))) == -Dot(d, Cross(e1, e2));
  }

  lemma PositiveScaleKeepsSign(k: real, x: real)
    requires 0.0 < k
    ensures k * x < 0.0 <==> x < 0.0
  {
    if x < 0.0 {
      assert k * x < k * 0.0;
    } else {
      assert k * x >= k * 0.0;
    }
  }

  /** For a `Tri::calc` triangle whose `unit()` rescales by a positive factor, the
      single-sided test lets a ray through exactly when it travels against the
      computed normal: the triangle is seen from the side its normal points to. */
  lemma CalcTriSeenAgainstNormal(p1: Point, p2: Point, p3: Point, num: Numerics, ray: Ray, k: real)
    requires 0.0 < k && num.unit(Cross(Sub(p2, p1), Sub(p3, p1))) == Scale(k, Cross(Sub(p2, p1), Sub(p3, p1)))
    ensures Det(CalcTri(p1, p2, p3, num), ray) > 0.0 <==> Dot(ray.direction, CalcTri(p1, p2, p3, num).normal) < 0.0
  {
    var tri := CalcTri(p1, p2, p3, num);
    var c := Cross(Sub(p2, p1), Sub(p3, p1));
    DetFacing(tri, ray);
    assert Dot(ray.direction, tri.normal) == k * Dot(ray.direction, c);
    PositiveScaleKeepsSign(k, Dot(ray.direction, c));
  }

  /** The first barycentric coordinate, `u`. */
  function BaryU(tri: Tri, ray: Ray): real
    requires Det(tri, ray) != 0.0
  {
    Dot(Sub(ray.origin, tri.p1), Cross(ray.direction, Edge2(tri))) * (1.0 / Det(tri, ray))
  }

  /** The second barycentric coordinate, `v`. */
  function BaryV(tri: Tri, ray: Ray): real
    requires Det(tri, ray) != 0.0
  {
    Dot(ray.direction, Cross(Sub(ray.origin, tri.p1), Edge1(tri))) * (1.0 / Det(tri, ray))
  }

  /** The ray parameter of the plane crossing. */
  function CrossingT(tri: Tri, ray: Ray): real
    requires Det(tri, ray) != 0.0
  {
    Dot(Edge2(tri), Cross(Sub(ray.origin, tri.p1), Edge1(tri))) * (1.0 / Det(tri, ray))
  }

  /** `(u, v)` are the barycentric coordinates of a point of the (closed) triangle. */
  predicate InTriangle(u: real, v: real) {
    0.0 <= u <= 1.0 && 0.0 <= v && u + v <= 1.0
  }

  /** The point `p1 + u (p2 - p1) + v (p3 - p1)` of the triangle's plane. */
  function PlanePoint(tri: Tri, u: real, v: real): Point {
    Add(tri.p1, Add(Scale(u, Edge1(tri)), Scale(v, Edge2(tri))))
  }

  /** `Hittable for Tri`. Rays with `det < 0.001` (back side, or nearly parallel) miss,
      so triangles are single-sided; a hit carries the barycentric tests, the stored
      normal, `front_face = true` and the triangle's own material. */
  function TriHit(tri: Tri, ray: Ray, tMin: real, tMax: real): (r: Option<HitRecord>)
    ensures Det(tri, ray) < 0.001 ==> r.None?
    ensures r.Some? ==>
              && Det(tri, ray) >= 0.001
              && InTriangle(BaryU(tri, ray), BaryV(tri, ray))
              && r.value.t == CrossingT(tri, ray)
              && tMin <= r.value.t <= tMax
              && r.value.p == ray.At(r.value.t)
              && r.value.n == tri.normal
              && r.value.frontFace
              && r.value.material == tri.material
  {
    var det := Det(tri, ray);
    if det < 0.001 then None
    else
      var u := BaryU(tri, ray);
      if u < 0.0 || u > 1.0 then None
      else
        var v := BaryV(tri, ray);
        if v < 0.0 || u + v > 1.0 then None
        else
          var t := CrossingT(tri, ray);
          if InRange(t, tMin, tMax) then
            Some(HitRecord(ray.At(t), tri.material, tri.normal, t, true))
          else None
  }

  /** The barycentric coordinates and crossing distance solve
      `o - p1 == u e1 + v e2 - t d` whenever `det != 0`. */
  lemma BarycentricSolve(tri: Tri, ray: Ray)
    requires Det(tri, ray) != 0.0
    ensures Sub(ray.origin, tri.p1) == Combine(BaryU(tri, ray), Edge1(tri), BaryV(tri, ray), Edge2(tri), CrossingT(tri, ray), ray.direction)
  {
    var e1, e2, d := Edge1(tri), Edge2(tri), ray.direction;
    var tv := Sub(ray.origin, tri.p1);
    var k := 1.0 / Dot(e1, Cross(d, e2));
    var u, v, t := Dot(tv, Cross(d, e2)) * k, Dot(d, Cross(tv, e1)) * k, Dot(e2, Cross(tv, e1)) * k;
    Invert(e1, e2, d, tv);
    assert u == BaryU(tri, ray) && v == BaryV(tri, ray) && t == CrossingT(tri, ray);
  }

  /** A solution of the system is a point where the ray meets the triangle's plane. */
  lemma SolutionOnPlane(tri: Tri, ray: Ray, u: real, v: real, t: real)
    ensures Sub(ray.origin, tri.p1) == Combine(u, Edge1(tri), v, Edge2(tri), t, ray.direction)
            <==> ray.At(t) == PlanePoint(tri, u, v)
  {
  }

  /** Soundness of `TriHit`: the reported point is the point of the triangle with
      the barycentric coordinates that passed the tests, so the ray really meets
      the triangle there. */
  lemma TriHitOnTriangle(tri: Tri, ray: Ray, tMin: real, tMax: real)
    requires TriHit(tri, ray, tMin, tMax).Some?
    ensures TriHit(tri, ray, tMin, tMax).value.p == PlanePoint(tri, BaryU(tri, ray), BaryV(tri, ray))
  {
    BarycentricSolve(tri, ray);
    SolutionOnPlane(tri, ray, BaryU(tri, ray), BaryV(tri, ray), CrossingT(tri, ray));
  }

  /** Completeness of `TriHit`: a ray that meets the front of the triangle at a
      distance in `[t_min, t_max]` is reported as hit, at that distance. Together
      with `TriHitOnTriangle` this characterises the hit test. */
  lemma TriHitComplete(tri: Tri, ray: Ray, tMin: real, tMax: real, u: real, v: real, t: real)
    requires Det(tri, ray) >= 0.001
    requires InTriangle(u, v) && tMin <= t <= tMax
    requires ray.At(t) == PlanePoint(tri, u, v)
    ensures TriHit(tri, ray, tMin, tMax) == Some(HitRecord(ray.At(t), tri.material, tri.normal, t, true))
  {
    BarycentricUnique(tri, ray, u, v, t);
  }

  /** Where the ray meets the triangle's plane, and at which barycentric
      coordinates, is unique once `det != 0`: it is what `TriHit` computes. */
  lemma BarycentricUnique(tri: Tri, ray: Ray, u: real, v: real, t: real)
    requires Det(tri, ray) != 0.0
    requires ray.At(t) == PlanePoint(tri, u, v)
    ensures BaryU(tri, ray) == u && BaryV(tri, ray) == v && CrossingT(tri, ray) == t
  {
    var e1, e2, d := Edge1(tri), Edge2(tri), ray.direction;
    SolutionOnPlane(tri, ray, u, v, t);
    Solve(e1, e2, d, u, v, t);
    var det := Det(tri, ray);
    CancelDet(det, u);
    CancelDet(det, v);
    CancelDet(det, t);
  }

  /** Lowering the upper bound keeps a triangle hit that still fits and drops one
      that does not, since the crossing distance does not depend on the interval. */
  lemma TriHitRestrict(tri: Tri, ray: Ray, tMin: real, b: real, b': real)
    requires b' <= b
    ensures TriHit(tri, ray, tMin, b') == Restrict(TriHit(tri, ray, tMin, b), RecordT, b')
  {
  }

  /** Translating a triangle and the ray's origin by the same offset changes
      nothing but the hit point, which moves by that offset. */
  lemma TriHitTranslate(tri: Tri, ray: Ray, offset: Vec3, tMin: real, tMax: real)
    ensures var moved := TriHit(TranslateTri(tri, offset), Ray(Add(ray.origin, offset), ray.direction), tMin, tMax);
            var orig := TriHit(tri, ray, tMin, tMax);
            && (moved.Some? <==> orig.Some?)
            && (orig.Some? ==> moved.value == orig.value.(p := Add(orig.value.p, offset)))
  {
    var tri', ray' := TranslateTri(tri, offset), Ray(Add(ray.origin, offset), ray.direction);
    assert Edge1(tri') == Edge1(tri) && Edge2(tri') == Edge2(tri);
    assert Sub(ray'.origin, tri'.p1) == Sub(ray.origin, tri.p1);
    assert Det(tri', ray') == Det(tri, ray);
    if Det(tri, ray) != 0.0 {
      assert BaryU(tri', ray') == BaryU(tri, ray);
      assert BaryV(tri', ray') == BaryV(tri, ray);
      var t := CrossingT(tri, ray);
      assert CrossingT(tri', ray') == t;
      assert ray'.At(t) == Add(ray.At(t), offset);
    }
  }

  // ---------------------------------------------------------------- rectangles

  datatype Rect = Rect(tri1: Tri, tri2: Tri)

  /** `Rect::new`: triangles `(p1, p2, p3)` and `(p2, p3, p4)`, sharing the normal and colour. */
  function NewRect(p1: Point, p2: Point, p3: Point, p4: Point, normal: Vec3, color: Color): (r: Rect)
    ensures r.tri1.p1 == p1 && r.tri1.p2 == p2 && r.tri1.p3 == p3
    ensures r.tri2.p1 == p2 && r.tri2.p2 == p3 && r.tri2.p3 == p4
    ensures r.tri1.normal == r.tri2.normal == normal
    ensures r.tri1.material == r.tri2.material == Material(color)
  {
    Rect(NewTri(p1, p2, p3, normal, color), NewTri(p2, p3, p4, normal, color))
  }

  /** `Hittable for Rect`: the first triangle's hit if it has one (`Option::or`),
      otherwise the second's; the nearer of the two is not sought. */
  function RectHit(rect: Rect, ray: Ray, tMin: real, tMax: real): (r: Option<HitRecord>)
    ensures r.Some? <==> TriHit(rect.tri1, ray, tMin, tMax).Some? || TriHit(rect.tri2, ray, tMin, tMax).Some?
    ensures TriHit(rect.tri1, ray, tMin, tMax).Some? ==> r == TriHit(rect.tri1, ray, tMin, tMax)
    ensures TriHit(rect.tri1, ray, tMin, tMax).None? ==> r == TriHit(rect.tri2, ray, tMin, tMax)
  {
    var first := TriHit(rect.tri1, ray, tMin, tMax);
    if first.Some? then first else TriHit(rect.tri2, ray, tMin, tMax)
  }

  /** `p1, p2, p3, p4` are the corners of a parallelogram with `p1` and `p4`
      opposite, the only layout in which `(p1, p2, p3)` and `(p2, p3, p4)` tile the
      rectangle along the shared diagonal `p2 p3`. */
  predicate Parallelogram(p1: Point, p2: Point, p3: Point, p4: Point) {
    p4 == Sub(Add(p2, p3), p1)
  }

  /** The point of the parallelogram at coordinates `(s, t)` along its sides
      `p2 - p1` and `p3 - p1`. */
  function CornerPoint(p1: Point, p2: Point, p3: Point, s: real, t: real): Point {
    Add(p1, Add(Scale(s, Sub(p2, p1)), Scale(t, Sub(p3, p1))))
  }

  /** `Rect::new` winds its second triangle against its first: for a
      parallelogram the two determinants are opposite, so from either side at most
      one triangle passes the single-sided test. */
  lemma RectHalvesOpposed(p1: Point, p2: Point, p3: Point, p4: Point, normal: Vec3, color: Color, ray: Ray)
    requires Parallelogram(p1, p2, p3, p4)
    ensures var r := NewRect(p1, p2, p3, p4, normal, color);
            Det(r.tri2, ray) == -Det(r.tri1, ray)
  {
    var r := NewRect(p1, p2, p3, p4, normal, color);
    var e1, e2, d := Edge1(r.tri1), Edge2(r.tri1), ray.direction;
    assert Edge1(r.tri2) == Sub(e2, e1) && Edge2(r.tri2) == e2;
    CrossPerpendicular(d, e2);
    assert Dot(Sub(e2, e1), Cross(d, e2)) == Dot(e2, Cross(d, e2)) - Dot(e1, Cross(d, e2));
  }

  /** Hence the two triangles of a parallelogram are never both hit, and so they
      trivially agree on the distance: such a rectangle always reports its nearest
      hit. */
  lemma ParallelogramTrianglesAgree(p1: Point, p2: Point, p3: Point, p4: Point, normal: Vec3, color: Color, ray: Ray, tMin: real)
    requires Parallelogram(p1, p2, p3, p4)
    ensures var r := NewRect(p1, p2, p3, p4, normal, color);
            && (forall b :: TriHit(r.tri1, ray, tMin, b).Some? ==> TriHit(r.tri2, ray, tMin, b).None?)
            && TrianglesAgree(r, ray, tMin)
  {
    RectHalvesOpposed(p1, p2, p3, p4, normal, color, ray);
  }

  /** As written, a ray that meets the front of a parallelogram in the half beyond
      the diagonal (`s + t > 1`) misses the rectangle: the first triangle does not
      contain the point and the second faces away. */
  lemma RectMissesFarHalf(p1: Point, p2: Point, p3: Point, p4: Point, normal: Vec3, color: Color,
                          ray: Ray, tMin: real, tMax: real, s: real, t: real, dist: real)
    requires Parallelogram(p1, p2, p3, p4)
    requires Det(NewRect(p1, p2, p3, p4, normal, color).tri1, ray) >= 0.001
    requires 0.0 <= s <= 1.0 && 0.0 <= t <= 1.0 && s + t > 1.0
    requires ray.At(dist) == CornerPoint(p1, p2, p3, s, t)
    ensures RectHit(NewRect(p1, p2, p3, p4, normal, color), ray, tMin, tMax).None?
  {
    var r := NewRect(p1, p2, p3, p4, normal, color);
    RectHalvesOpposed(p1, p2, p3, p4, normal, color, ray);
    BarycentricUnique(r.tri1, ray, s, t, dist);
  }

  /** The rectangle as evidently intended: the second triangle `(p2, p4, p3)` runs
      the same way round as the first. */
  function NewRectCorrected(p1: Point, p2: Point, p3: Point, p4: Point, normal: Vec3, color: Color): (r: Rect)
    ensures Parallelogram(p1, p2, p3, p4) ==> forall ray :: Det(r.tri2, ray) == Det(r.tri1, ray)
  {
    var r := Rect(NewTri(p1, p2, p3, normal, color), NewTri(p2, p4, p3, normal, color));
    if Parallelogram(p1, p2, p3, p4) then
      assert forall ray :: Det(r.tri2, ray) == Det(r.tri1, ray) by {
        forall ray: Ray ensures Det(r.tri2, ray) == Det(r.tri1, ray) {
          SameWinding(p1, p2, p3, p4, ray);
        }
      }
      r
    else r
  }

  lemma SameWinding(p1: Point, p2: Point, p3: Point, p4: Point, ray: Ray)
    requires Parallelogram(p1, p2, p3, p4)
    ensures Dot(Sub(p4, p2), Cross(ray.direction, Sub(p3, p2))) == Dot(Sub(p2, p1), Cross(ray.direction, Sub(p3, p1)))
  {
    var e1, e2, d := Sub(p2, p1), Sub(p3, p1), ray.direction;
    assert Sub(p4, p2) == e2 && Sub(p3, p2) == Sub(e2, e1);
    assert Cross(d, Sub(e2, e1)) == Sub(Cross(d, e2), Cross(d, e1));
    CrossPerpendicular(d, e2);
    assert Dot(e2, Sub(Cross(d, e2), Cross(d, e1))) == Dot(e2, Cross(d, e2)) - Dot(e2, Cross(d, e1));
    TripleProductCyclic(e1, d, e2);
    CrossAntiCommutative(e1, d);
    assert Dot(e2, Cross(e1, d)) == -Dot(e2, Cross(d, e1));
  }

  /** The far half of the parallelogram is the corrected second triangle. */
  lemma FarHalfOnSecondTriangle(p1: Point, p2: Point, p3: Point, p4: Point, normal: Vec3, color: Color, s: real, t: real)
    requires Parallelogram(p1, p2, p3, p4)
    ensures PlanePoint(NewRectCorrected(p1, p2, p3, p4, normal, color).tri2, s + t - 1.0, 1.0 - s)
              == CornerPoint(p1, p2, p3, s, t)
  {
    var tri := NewRectCorrected(p1, p2, p3, p4, normal, color).tri2;
    assert tri.p1 == p2 && tri.p2 == p4 && tri.p3 == p3;
    var q, c := PlanePoint(tri, s + t - 1.0, 1.0 - s), CornerPoint(p1, p2, p3, s, t);
    assert q.x == c.x by { AffineCombination(p1.x, p2.x, p3.x, s, t); }
    assert q.y == c.y by { AffineCombination(p1.y, p2.y, p3.y, s, t); }
    assert q.z == c.z by { AffineCombination(p1.z, p2.z, p3.z, s, t); }
  }

  lemma AffineCombination(a: real, b: real, c: real, s: real, t: real)
    ensures b + ((s + t - 1.0) * ((b + c - a) - b) + (1.0 - s) * (c - b)) == a + (s * (b - a) + t * (c - a))
  {
  }

  /** Corrected, every ray that meets the front of a parallelogram within
      `[t_min, t_max]` hits the rectangle there, on either side of the diagonal. */
  lemma CorrectedRectCoversParallelogram(p1: Point, p2: Point, p3: Point, p4: Point, normal: Vec3, color: Color,
                                         ray: Ray, tMin: real, tMax: real, s: real, t: real, dist: real)
    requires Parallelogram(p1, p2, p3, p4)
    requires Det(NewRectCorrected(p1, p2, p3, p4, normal, color).tri1, ray) >= 0.001
    requires 0.0 <= s <= 1.0 && 0.0 <= t <= 1.0 && tMin <= dist <= tMax
    requires ray.At(dist) == CornerPoint(p1, p2, p3, s, t)
    ensures RectHit(NewRectCorrected(p1, p2, p3, p4, normal, color), ray, tMin, tMax)
              == Some(HitRecord(ray.At(dist), Material(color), normal, dist, true))
  {
    var r := NewRectCorrected(p1, p2, p3, p4, normal, color);
    if s + t <= 1.0 {
      TriHitComplete(r.tri1, ray, tMin, tMax, s, t, dist);
    } else {
      BarycentricUnique(r.tri1, ray, s, t, dist);
      FarHalfOnSecondTriangle(p1, p2, p3, p4, normal, color, s, t);
      TriHitComplete(r.tri2, ray, tMin, tMax, s + t - 1.0, 1.0 - s, dist);
    }
  }

  // ---------------------------------------------------------------- spheres

  datatype Sphere = Sphere(center: Point, radius: real, material: Material)

  /** `Sphere::new`: a sphere with a diffuse surface of `baseColor`, the colour
      every hit on it reports. */
  function NewSphere(center: Point, radius: real, baseColor: Color): (s: Sphere)
    ensures forall ray, tMin, tMax, num :: SphereHit(s, ray, tMin, tMax, num).Some? ==>
              SphereHit(s, ray, tMin, tMax, num).value.material.diffuse == baseColor
  {
    Sphere(center, radius, Material(baseColor))
  }

  /** The coefficients of the half-b quadratic `a t^2 + 2 half_b t + c`, whose roots
      are the distances at which the ray is on the sphere. */
  function QuadA(ray: Ray): real { LengthSquared(ray.direction) }
  function HalfB(center: Point, ray: Ray): real { Dot(Sub(ray.origin, center), ray.direction) }
  function QuadC(center: Point, radius: real, ray: Ray): real {
    LengthSquared(Sub(ray.origin, center)) - radius * radius
  }
  function Discriminant(center: Point, radius: real, ray: Ray): real {
    HalfB(center, ray) * HalfB(center, ray) - QuadA(ray) * QuadC(center, radius, ray)
  }

  /** The two candidate roots `(-half_b -+ sqrtd) / a`. */
  function NearRoot(center: Point, radius: real, ray: Ray, sqrt: real -> real): real
    requires QuadA(ray) != 0.0
  {
    (-HalfB(center, ray) - sqrt(Discriminant(center, radius, ray))) / QuadA(ray)
  }
  function FarRoot(center: Point, radius: real, ray: Ray, sqrt: real -> real): real
    requires QuadA(ray) != 0.0
  {
    (-HalfB(center, ray) + sqrt(Discriminant(center, radius, ray))) / QuadA(ray)
  }

  /** The ray is on the sphere at distance `t`. */
  predicate OnSphere(center: Point, radius: real, ray: Ray, t: real) {
    LengthSquared(Sub(ray.At(t), center)) == radius * radius
  }

  /** The root selection shared by both sphere hit tests: no root when the
      discriminant is negative, otherwise the near root if it lies in `[t_min, t_max]`,
      else the far root if that does. A zero direction (`a == 0`) gives no root: in
      `f64` both candidates are `NaN`, which `in_range` rejects. */
  function SphereRoot(center: Point, radius: real, ray: Ray, tMin: real, tMax: real, sqrt: real -> real): (r: Option<real>)
    ensures Discriminant(center, radius, ray) < 0.0 ==> r.None?
    ensures r.Some? ==> tMin <= r.value <= tMax && QuadA(ray) != 0.0 && Discriminant(center, radius, ray) >= 0.0
    ensures r.Some? ==> r.value == NearRoot(center, radius, ray, sqrt) || r.value == FarRoot(center, radius, ray, sqrt)
    ensures QuadA(ray) != 0.0 && Discriminant(center, radius, ray) >= 0.0 ==>
              if InRange(NearRoot(center, radius, ray, sqrt), tMin, tMax) then r == Some(NearRoot(center, radius, ray, sqrt))
              else if InRange(FarRoot(center, radius, ray, sqrt), tMin, tMax) then r == Some(FarRoot(center, radius, ray, sqrt))
              else r.None?
  {
    var discriminant := Discriminant(center, radius, ray);
    if discriminant < 0.0 || QuadA(ray) == 0.0 then None
    else
      var t1 := NearRoot(center, radius, ray, sqrt);
      if InRange(t1, tMin, tMax) then Some(t1)
      else
        var t2 := FarRoot(center, radius, ray, sqrt);
        if InRange(t2, tMin, tMax) then Some(t2) else None
  }

  /** `Hittable for Sphere`: the record at the selected root, with the outward unit
      normal and `front_face = dot(direction, normal) > 0`. */
  function SphereHit(s: Sphere, ray: Ray, tMin: real, tMax: real, num: Numerics): (r: Option<HitRecord>)
    ensures r.Some? <==> SphereRoot(s.center, s.radius, ray, tMin, tMax, num.sqrt).Some?
    ensures r.Some? ==>
              && r.value.t == SphereRoot(s.center, s.radius, ray, tMin, tMax, num.sqrt).value
              && r.value.p == ray.At(r.value.t)
              && r.value.n == num.unit(Sub(r.value.p, s.center))
              && (r.value.frontFace <==> Dot(ray.direction, r.value.n) > 0.0)
              && r.value.material == s.material
  {
    match SphereRoot(s.center, s.radius, ray, tMin, tMax, num.sqrt)
    case None => None
    case Some(t) =>
      var point := ray.At(t);
      var normal := num.unit(Sub(point, s.center));
      Some(HitRecord(point, s.material, normal, t, Dot(ray.direction, normal) > 0.0))
  }

  /** Along the ray, `|at(t) - center|^2 - r^2` is the quadratic `a t^2 + 2 h t + c`. */
  lemma SphereQuadratic(center: Point, radius: real, ray: Ray, t: real)
    ensures LengthSquared(Sub(ray.At(t), center)) - radius * radius
              == QuadA(ray) * (t * t) + 2.0 * HalfB(center, ray) * t + QuadC(center, radius, ray)
  {
    var oc, d, q := Sub(ray.origin, center), ray.direction, Sub(ray.At(t), center);
    ExpandSquare(oc.x, oc.y, oc.z, d.x, d.y, d.z, t, q.x, q.y, q.z);
  }

  /** Soundness of the root selection: with a true square root, the selected
      distance puts the ray on the sphere's surface. */
  lemma SphereRootOnSurface(center: Point, radius: real, ray: Ray, tMin: real, tMax: real, sqrt: real -> real)
    requires IsSqrt(sqrt)
    ensures SphereRoot(center, radius, ray, tMin, tMax, sqrt).Some? ==>
              OnSphere(center, radius, ray, SphereRoot(center, radius, ray, tMin, tMax, sqrt).value)
  {
    var root := SphereRoot(center, radius, ray, tMin, tMax, sqrt);
    if root.Some? {
      CandidateOnSurface(center, radius, ray, sqrt, root.value);
    }
  }

  /** Both candidate roots are on the surface. */
  lemma CandidateOnSurface(center: Point, radius: real, ray: Ray, sqrt: real -> real, t: real)
    requires IsSqrt(sqrt)
    requires QuadA(ray) != 0.0 && Discriminant(center, radius, ray) >= 0.0
    requires t == NearRoot(center, radius, ray, sqrt) || t == FarRoot(center, radius, ray, sqrt)
    ensures OnSphere(center, radius, ray, t)
  {
    var a, h, c := QuadA(ray), HalfB(center, ray), QuadC(center, radius, ray);
    var s := sqrt(Discriminant(center, radius, ray));
    assert s * s == h * h - a * c;
    var n := if t == NearRoot(center, radius, ray, sqrt) then -h - s else -h + s;
    DivRoot(a, n, t);
    RootIsZero(a, h, c, s, t);
    ZeroOnSurface(center, radius, ray, t);
  }

  /** A zero of the sphere's quadratic along the ray is a point on the surface. */
  lemma ZeroOnSurface(center: Point, radius: real, ray: Ray, t: real)
    requires QuadA(ray) * (t * t) + 2.0 * HalfB(center, ray) * t + QuadC(center, radius, ray) == 0.0
    ensures OnSphere(center, radius, ray, t)
  {
    SphereQuadratic(center, radius, ray, t);
  }

  /** Completeness and nearness of the root selection: if the ray (with a non-zero
      direction) is on the sphere at some distance in `[t_min, t_max]`, a root is
      selected, and it is no farther than that distance. */
  lemma SphereRootNearest(center: Point, radius: real, ray: Ray, tMin: real, tMax: real, sqrt: real -> real, t': real)
    requires IsSqrt(sqrt)
    requires LengthSquared(ray.direction) != 0.0
    requires tMin <= t' <= tMax && OnSphere(center, radius, ray, t')
    ensures SphereRoot(center, radius, ray, tMin, tMax, sqrt).Some?
    ensures SphereRoot(center, radius, ray, tMin, tMax, sqrt).value <= t'
  {
    var a, h, c := QuadA(ray), HalfB(center, ray), QuadC(center, radius, ray);
    SphereQuadratic(center, radius, ray, t');
    DiscNonNeg(a, h, c, t');
    var s := sqrt(Discriminant(center, radius, ray));
    ZeroIsRoot(a, h, c, s, t');
    RootsOrdered(a, h, s);
    DivRoot(a, -h - s, t');
    DivRoot(a, -h + s, t');
  }

  /** Asking again with a lower upper bound gives the same root if it still fits and
      none otherwise, provided `sqrt` is never negative (so the `-` root comes first). */
  lemma SphereRootRestrict(center: Point, radius: real, ray: Ray, tMin: real, b: real, b': real, sqrt: real -> real)
    requires SqrtNonNegative(sqrt)
    requires b' <= b
    ensures var r := SphereRoot(center, radius, ray, tMin, b, sqrt);
            SphereRoot(center, radius, ray, tMin, b', sqrt) == if r.Some? && r.value <= b' then r else None
  {
    var a := QuadA(ray);
    if a != 0.0 && Discriminant(center, radius, ray) >= 0.0 {
      RootsOrdered(a, HalfB(center, ray), sqrt(Discriminant(center, radius, ray)));
    }
  }

  /** `SphereRootRestrict` for the hit records. */
  lemma SphereHitRestrict(s: Sphere, ray: Ray, tMin: real, b: real, b': real, num: Numerics)
    requires SqrtNonNegative(num.sqrt)
    requires b' <= b
    ensures SphereHit(s, ray, tMin, b', num) == Restrict(SphereHit(s, ray, tMin, b, num), RecordT, b')
  {
    SphereRootRestrict(s.center, s.radius, ray, tMin, b, b', num.sqrt);
  }

  /** The two triangles of a rectangle agree on the distance whenever both are hit,
      as coplanar triangles do. */
  ghost predicate TrianglesAgree(rect: Rect, ray: Ray, tMin: real) {
    forall b :: TriHit(rect.tri1, ray, tMin, b).Some? && TriHit(rect.tri2, ray, tMin, b).Some? ==>
      TriHit(rect.tri1, ray, tMin, b).value.t == TriHit(rect.tri2, ray, tMin, b).value.t
  }

  /** A rectangle reports its nearest hit when its triangles agree on the distance;
      `RectHitNotNearest` shows what goes wrong without it. */
  lemma RectHitRestrict(rect: Rect, ray: Ray, tMin: real, b: real, b': real)
    requires TrianglesAgree(rect, ray, tMin)
    requires b' <= b
    ensures RectHit(rect, ray, tMin, b') == Restrict(RectHit(rect, ray, tMin, b), RecordT, b')
  {
    TriHitRestrict(rect.tri1, ray, tMin, b, b');
    TriHitRestrict(rect.tri2, ray, tMin, b, b');
  }

  /** Without `TrianglesAgree` a rectangle need not report its nearest hit: when the
      first triangle is hit beyond `b'` and the second within it, lowering the bound
      to `b'` turns up the second triangle's hit, which the answer on `[t_min, b]`
      did not allow for. */
  lemma RectHitNotNearest(rect: Rect, ray: Ray, tMin: real, b: real, b': real)
    requires TriHit(rect.tri1, ray, tMin, b).Some? && b' < TriHit(rect.tri1, ray, tMin, b).value.t
    requires TriHit(rect.tri2, ray, tMin, b').Some?
    ensures RectHit(rect, ray, tMin, b) == TriHit(rect.tri1, ray, tMin, b)
    ensures RectHit(rect, ray, tMin, b') == TriHit(rect.tri2, ray, tMin, b')
    ensures RectHit(rect, ray, tMin, b') != Restrict(RectHit(rect, ray, tMin, b), RecordT, b')
  {
    if b' <= b {
      TriHitRestrict(rect.tri1, ray, tMin, b, b');
    } else {
      TriHitRestrict(rect.tri1, ray, tMin, b', b);
    }
  }
}
