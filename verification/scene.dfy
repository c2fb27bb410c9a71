/** The scene and the path-tracing integrator of `src/render/mod.rs`: a list of
    boxed shapes hit through the closest-hit scan, and `cast_ray`, which bounces
    a ray off diffuse surfaces until it escapes to the sky or runs out of
    bounces. */
module Scene {
  import opened Wrappers
  import opened Math
  import opened Hittable
  import opened Prim
  import opened Mesh
  import opened View

  /** The `Hittable` implementations a scene can hold. */
  datatype Shape =
    | SphereShape(sphere: Sphere)
    | TriShape(tri: Tri)
    | RectShape(rect: Rect)
    | MeshShape(model: Model)

  /** Dynamic dispatch of `Hittable::hit`. Whatever the shape, a hit lies in the
      interval asked for. */
  function ShapeHit(s: Shape, ray: Ray, tMin: real, tMax: real, num: Numerics): (r: Option<HitRecord>)
    ensures r.Some? ==> tMin <= r.value.t <= tMax
  {
    match s
    case SphereShape(sphere) => SphereHit(sphere, ray, tMin, tMax, num)
    case TriShape(tri) => TriHit(tri, ray, tMin, tMax)
    case RectShape(rect) => RectHit(rect, ray, tMin, tMax)
    case MeshShape(model) =>
      TrianglesKeepContract(model.tris, ray, tMin);
      ClosestHitInRange(model.tris, TriHitOn(ray), RecordT, tMin, tMax);
      Mesh.Hit(model, ray, tMin, tMax)
  }

  function ShapeHitOn(ray: Ray, num: Numerics): (Shape, real, real) -> Option<HitRecord> {
    (s, a, b) => ShapeHit(s, ray, a, b, num)
  }

  /** `Hittable for Vec<Box<dyn Hittable>>`: the closest-hit scan over the shapes. */
  function SceneHit(scene: seq<Shape>, ray: Ray, tMin: real, tMax: real, num: Numerics): (r: Option<HitRecord>)
    ensures r.None? <==> forall i :: 0 <= i < |scene| ==> ShapeHit(scene[i], ray, tMin, tMax, num).None?
  {
    ClosestHit(scene, ShapeHitOn(ray, num), RecordT, tMin, tMax)
  }

  /** What the nearest-hit guarantee of a scene depends on: a square root that is
      never negative, and rectangles whose two triangles agree on the distance
      (as coplanar ones do). */
  ghost predicate WellBehaved(scene: seq<Shape>, ray: Ray, tMin: real, num: Numerics) {
    && SqrtNonNegative(num.sqrt)
    && forall i :: 0 <= i < |scene| && scene[i].RectShape? ==> TrianglesAgree(scene[i].rect, ray, tMin)
  }

  /** Every shape of a well-behaved scene keeps both child contracts of the scan. */
  lemma ShapesKeepContract(scene: seq<Shape>, ray: Ray, tMin: real, num: Numerics)
    requires WellBehaved(scene, ray, tMin, num)
    ensures ReportsInInterval(scene, ShapeHitOn(ray, num), RecordT, tMin)
    ensures ReportsNearest(scene, ShapeHitOn(ray, num), RecordT, tMin)
  {
    forall i, b, b' | 0 <= i < |scene| && b' <= b
      ensures ShapeHitOn(ray, num)(scene[i], tMin, b') == Restrict(ShapeHitOn(ray, num)(scene[i], tMin, b), RecordT, b')
    {
      match scene[i]
      case SphereShape(sphere) => SphereHitRestrict(sphere, ray, tMin, b, b', num);
      case TriShape(tri) => TriHitRestrict(tri, ray, tMin, b, b');
      case RectShape(rect) => RectHitRestrict(rect, ray, tMin, b, b');
      case MeshShape(model) => Mesh.HitRestrict(model, ray, tMin, b, b');
    }
    forall i, b | 0 <= i < |scene| && ShapeHitOn(ray, num)(scene[i], tMin, b).Some?
      ensures tMin <= RecordT(ShapeHitOn(ray, num)(scene[i], tMin, b).value) <= b
    {
      match scene[i]
      case SphereShape(sphere) =>
      case TriShape(tri) =>
      case RectShape(rect) =>
      case MeshShape(model) => Mesh.HitRestrict(model, ray, tMin, b, b);
    }
  }

  /** A well-behaved scene reports the nearest hit over all its shapes, and of
      several at the same distance the one of the last shape. */
  lemma SceneHitIsLastNearest(scene: seq<Shape>, ray: Ray, tMin: real, tMax: real, num: Numerics) returns (k: nat)
    requires WellBehaved(scene, ray, tMin, num)
    ensures SceneHit(scene, ray, tMin, tMax, num).Some? ==>
              && k < |scene|
              && SceneHit(scene, ray, tMin, tMax, num) == ShapeHit(scene[k], ray, tMin, tMax, num)
              && tMin <= SceneHit(scene, ray, tMin, tMax, num).value.t <= tMax
              && (forall i :: 0 <= i < |scene| && ShapeHit(scene[i], ray, tMin, tMax, num).Some? ==>
                    SceneHit(scene, ray, tMin, tMax, num).value.t <= ShapeHit(scene[i], ray, tMin, tMax, num).value.t)
              && (forall i :: k < i < |scene| && ShapeHit(scene[i], ray, tMin, tMax, num).Some? ==>
                    SceneHit(scene, ray, tMin, tMax, num).value.t < ShapeHit(scene[i], ray, tMin, tMax, num).value.t)
  {
    ShapesKeepContract(scene, ray, tMin, num);
    k := ClosestHitIsLastNearest(scene, ShapeHitOn(ray, num), RecordT, tMin, tMax);
    ClosestHitInRange(scene, ShapeHitOn(ray, num), RecordT, tMin, tMax);
  }

  // Surface colours.

  /** Every surface colour a shape can report lies in the unit cube. */
  predicate ShapeColorsInUnitCube(s: Shape) {
    match s
    case SphereShape(sphere) => InUnitCube(sphere.material.diffuse)
    case TriShape(tri) => InUnitCube(tri.material.diffuse)
    case RectShape(rect) => InUnitCube(rect.tri1.material.diffuse) && InUnitCube(rect.tri2.material.diffuse)
    case MeshShape(model) => forall i :: 0 <= i < |model.tris| ==> InUnitCube(model.tris[i].material.diffuse)
  }

  predicate SceneColorsInUnitCube(scene: seq<Shape>) {
    forall i :: 0 <= i < |scene| ==> ShapeColorsInUnitCube(scene[i])
  }

  /** A shape's hit carries one of its own surface colours. */
  lemma ShapeHitColor(s: Shape, ray: Ray, tMin: real, tMax: real, num: Numerics)
    requires ShapeColorsInUnitCube(s)
    ensures ShapeHit(s, ray, tMin, tMax, num).Some? ==> InUnitCube(ShapeHit(s, ray, tMin, tMax, num).value.material.diffuse)
  {
    if s.MeshShape? && ShapeHit(s, ray, tMin, tMax, num).Some? {
      var k, b := ScanReturnsAChildHit(s.model.tris, |s.model.tris|, TriHitOn(ray), RecordT, tMin, tMax);
      assert ShapeHit(s, ray, tMin, tMax, num) == TriHit(s.model.tris[k], ray, tMin, b);
    }
  }

  /** A scene's hit carries the surface colour of one of its shapes. */
  lemma SceneHitColor(scene: seq<Shape>, ray: Ray, tMin: real, tMax: real, num: Numerics)
    requires SceneColorsInUnitCube(scene)
    ensures SceneHit(scene, ray, tMin, tMax, num).Some? ==> InUnitCube(SceneHit(scene, ray, tMin, tMax, num).value.material.diffuse)
  {
    if SceneHit(scene, ray, tMin, tMax, num).Some? {
      var k, b := ScanReturnsAChildHit(scene, |scene|, ShapeHitOn(ray, num), RecordT, tMin, tMax);
      ShapeHitColor(scene[k], ray, tMin, b, num);
    }
  }

  // The integrator.

  /** The smallest distance a bounce counts, against self-intersection. */
  const Epsilon: real := 0.001

  /** `objects.hit(&r, 0.001, f64::MAX)`, the query `cast_ray` makes of the scene. */
  function SceneQuery(scene: seq<Shape>, num: Numerics): Ray -> Option<HitRecord> {
    r => SceneHit(scene, r, Epsilon, F64Max, num)
  }

  /** `cast_ray` (with `hit == SceneQuery(objects, num)`), given the random unit
      vector `draws(b)` that the bounce with `b` bounces left draws: black when no
      bounces are left; on a hit, the surface colour times the light arriving along
      a direction drawn from the hemisphere of the normal; on a miss, the sky. */
  function CastRay(ray: Ray, hit: Ray -> Option<HitRecord>, bounces: nat, draws: nat -> Vec3): Color
    decreases bounces
  {
    if bounces == 0 then Origin
    else
      match hit(ray)
      case Some(rec) =>
        var scattered := Ray(rec.p, HemisphereVec(rec.n, draws(bounces)));
        Mul(rec.material.diffuse, CastRay(scattered, hit, bounces - 1, draws))
      case None => SkyColor(ray)
  }

  /** The scattered ray leaves into the hemisphere of the surface normal. */
  lemma ScatterFacesNormal(ray: Ray, scene: seq<Shape>, num: Numerics, draws: nat -> Vec3, bounces: nat)
    requires bounces > 0 && SceneHit(scene, ray, Epsilon, F64Max, num).Some?
    ensures var rec := SceneHit(scene, ray, Epsilon, F64Max, num).value;
            Dot(HemisphereVec(rec.n, draws(bounces)), rec.n) >= 0.0
  {
  }

  /** An empty scene shows the sky, whatever the budget beyond zero. */
  lemma EmptySceneIsSky(ray: Ray, bounces: nat, num: Numerics, draws: nat -> Vec3)
    requires bounces > 0
    ensures CastRay(ray, SceneQuery([], num), bounces, draws) == SkyColor(ray)
  {
  }

  /** Every draw is a direction whose height lies in `[-1, 1]`, as a unit vector's does. */
  ghost predicate DrawsBounded(draws: nat -> Vec3) {
    forall b :: -1.0 <= draws(b).y <= 1.0
  }

  /** Every surface the query can report has a unit-range colour. */
  ghost predicate HitColorsInUnitCube(hit: Ray -> Option<HitRecord>) {
    forall r :: hit(r).Some? ==> InUnitCube(hit(r).value.material.diffuse)
  }

  lemma UnitProduct(a: real, b: real)
    requires 0.0 <= a <= 1.0 && 0.0 <= b <= 1.0
    ensures 0.0 <= a * b <= 1.0
  {
    var c := 1.0 - b;
    assert 0.0 <= a * c;
    assert a * b == a - a * c;
  }

  /** Attenuating a unit-range colour by a unit-range colour stays in range. */
  lemma MulInUnitCube(a: Color, b: Color)
    requires InUnitCube(a) && InUnitCube(b)
    ensures InUnitCube(Mul(a, b))
  {
    UnitProduct(a.x, b.x);
    UnitProduct(a.y, b.y);
    UnitProduct(a.z, b.z);
  }

  /** Light never gains energy: when every surface colour is unit-range, a ray
      whose height lies in `[-1, 1]` and draws that keep to it bring back a colour
      with every channel in `[0, 1]`. */
  lemma {:induction false} TraceInUnitCube(ray: Ray, hit: Ray -> Option<HitRecord>, bounces: nat, draws: nat -> Vec3)
    requires HitColorsInUnitCube(hit) && DrawsBounded(draws)
    requires -1.0 <= ray.direction.y <= 1.0
    ensures InUnitCube(CastRay(ray, hit, bounces, draws))
    decreases bounces
  {
    if bounces > 0 && hit(ray).Some? {
      var rec := hit(ray).value;
      var scattered := Ray(rec.p, HemisphereVec(rec.n, draws(bounces)));
      assert -1.0 <= scattered.direction.y <= 1.0;
      TraceInUnitCube(scattered, hit, bounces - 1, draws);
      MulInUnitCube(rec.material.diffuse, CastRay(scattered, hit, bounces - 1, draws));
    }
  }

  /** The same for a scene whose shapes all have unit-range colours. */
  lemma CastRayInUnitCube(ray: Ray, scene: seq<Shape>, bounces: nat, num: Numerics, draws: nat -> Vec3)
    requires SceneColorsInUnitCube(scene) && DrawsBounded(draws)
    requires -1.0 <= ray.direction.y <= 1.0
    ensures InUnitCube(CastRay(ray, SceneQuery(scene, num), bounces, draws))
  {
    forall r | SceneHit(scene, r, Epsilon, F64Max, num).Some?
      ensures InUnitCube(SceneHit(scene, r, Epsilon, F64Max, num).value.material.diffuse)
    {
      SceneHitColor(scene, r, Epsilon, F64Max, num);
    }
    TraceInUnitCube(ray, SceneQuery(scene, num), bounces, draws);
  }

  /** A black surface absorbs everything: a ray whose nearest hit is black comes back black. */
  lemma BlackSurfaceAbsorbs(ray: Ray, scene: seq<Shape>, bounces: nat, num: Numerics, draws: nat -> Vec3)
    requires bounces > 0
    requires SceneHit(scene, ray, Epsilon, F64Max, num).Some?
    requires SceneHit(scene, ray, Epsilon, F64Max, num).value.material.diffuse == Origin
    ensures CastRay(ray, SceneQuery(scene, num), bounces, draws) == Origin
  {
  }
}
