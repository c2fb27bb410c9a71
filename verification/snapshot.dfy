/** The earlier, single-file renderer `src/render.rs`: spheres without materials,
    the same closest-hit scan, a `cast_ray` that halves the light at every bounce,
    and a fixed 1920-pixel-wide, 16:9 image. */
module Snapshot {
  import opened Wrappers
  import opened Math
  import Hittable
  import Prim
  import Scene
  import opened View
  import opened Pixels
  import opened Framebuffer
  import opened Sampling

  /** `HitRecord` of `render.rs`: no material yet. */
  datatype HitRecord = HitRecord(p: Point, n: Vec3, t: real, frontFace: bool)

  function RecordT(r: HitRecord): real {
    r.t
  }

  datatype Sphere = Sphere(center: Point, radius: real)

  /** `Hittable for Sphere`: the root selection of the later renderer, without a material. */
  function SphereHit(s: Sphere, ray: Ray, tMin: real, tMax: real, num: Numerics): (r: Option<HitRecord>)
    ensures r.Some? <==> Prim.SphereRoot(s.center, s.radius, ray, tMin, tMax, num.sqrt).Some?
    ensures r.Some? ==>
              && tMin <= r.value.t <= tMax
              && r.value.p == ray.At(r.value.t)
              && r.value.n == num.unit(Sub(r.value.p, s.center))
              && (r.value.frontFace <==> Dot(ray.direction, r.value.n) > 0.0)
  {
    match Prim.SphereRoot(s.center, s.radius, ray, tMin, tMax, num.sqrt)
    case None => None
    case Some(t) =>
      var point := ray.At(t);
      var normal := num.unit(Sub(point, s.center));
      Some(HitRecord(point, normal, t, Dot(ray.direction, normal) > 0.0))
  }

  /** A record of the later renderer with its material dropped. */
  function Forget(r: Hittable.HitRecord): HitRecord {
    HitRecord(r.p, r.n, r.t, r.frontFace)
  }

  /** The snapshot's sphere finds what the later sphere of any colour finds. */
  lemma SphereHitAgrees(s: Sphere, baseColor: Color, ray: Ray, tMin: real, tMax: real, num: Numerics)
    ensures SphereHit(s, ray, tMin, tMax, num)
              == MapOption(Prim.SphereHit(Prim.NewSphere(s.center, s.radius, baseColor), ray, tMin, tMax, num), Forget)
  {
  }

  function SphereHitOn(ray: Ray, num: Numerics): (Sphere, real, real) -> Option<HitRecord> {
    (s, a, b) => SphereHit(s, ray, a, b, num)
  }

  /** `Hittable for Vec<Box<dyn Hittable>>`: the closest-hit scan over the spheres. */
  function WorldHit(world: seq<Sphere>, ray: Ray, tMin: real, tMax: real, num: Numerics): (r: Option<HitRecord>)
    ensures r.Some? ==> tMin <= r.value.t <= tMax
  {
    SpheresReportInInterval(world, ray, tMin, num);
    Hittable.ClosestHitInRange(world, SphereHitOn(ray, num), RecordT, tMin, tMax);
    Hittable.ClosestHit(world, SphereHitOn(ray, num), RecordT, tMin, tMax)
  }

  lemma SpheresReportInInterval(world: seq<Sphere>, ray: Ray, tMin: real, num: Numerics)
    ensures Hittable.ReportsInInterval(world, SphereHitOn(ray, num), RecordT, tMin)
  {
  }

  /** The world misses exactly when every sphere misses. */
  lemma WorldMisses(world: seq<Sphere>, ray: Ray, tMin: real, tMax: real, num: Numerics)
    ensures WorldHit(world, ray, tMin, tMax, num).None? <==>
              forall i :: 0 <= i < |world| ==> SphereHit(world[i], ray, tMin, tMax, num).None?
  {
  }

  /** With a square root that is never negative, the world reports the nearest
      sphere hit in `[t_min, t_max]`, and of several at the same distance the one
      of the last sphere. */
  lemma WorldHitIsLastNearest(world: seq<Sphere>, ray: Ray, tMin: real, tMax: real, num: Numerics) returns (k: nat)
    requires SqrtNonNegative(num.sqrt)
    ensures WorldHit(world, ray, tMin, tMax, num).Some? ==>
              && k < |world|
              && WorldHit(world, ray, tMin, tMax, num) == SphereHit(world[k], ray, tMin, tMax, num)
              && tMin <= WorldHit(world, ray, tMin, tMax, num).value.t <= tMax
              && (forall i :: 0 <= i < |world| && SphereHit(world[i], ray, tMin, tMax, num).Some? ==>
                    WorldHit(world, ray, tMin, tMax, num).value.t <= SphereHit(world[i], ray, tMin, tMax, num).value.t)
              && (forall i :: k < i < |world| && SphereHit(world[i], ray, tMin, tMax, num).Some? ==>
                    WorldHit(world, ray, tMin, tMax, num).value.t < SphereHit(world[i], ray, tMin, tMax, num).value.t)
  {
    forall i, b, b' | 0 <= i < |world| && b' <= b
      ensures SphereHitOn(ray, num)(world[i], tMin, b') == Hittable.Restrict(SphereHitOn(ray, num)(world[i], tMin, b), RecordT, b')
    {
      Prim.SphereRootRestrict(world[i].center, world[i].radius, ray, tMin, b, b', num.sqrt);
    }
    k := Hittable.ClosestHitIsLastNearest(world, SphereHitOn(ray, num), RecordT, tMin, tMax);
    Hittable.ClosestHitInRange(world, SphereHitOn(ray, num), RecordT, tMin, tMax);
  }

  // The bounce direction.

  /** The bounce as written: `target = p + n + random_unit_vec()` is a point, but it
      is passed to `Ray::new` as the direction. */
  function AsWrittenBounceDirection(p: Point, n: Vec3, u: Vec3): (d: Vec3)
    ensures d == Add(p, BounceDirection(n, u))
  {
    Add(Add(p, n), u)
  }

  /** Away from the origin the written direction can point into the surface:
      with normal `(0, 0, 1)` and draw `(1, 0, 0)`, any hit point below `z = -1`
      sends the ray back through the surface, where the intended bounce leaves it. */
  lemma AsWrittenBounceEntersSurface(p: Point, n: Vec3, u: Vec3)
    requires n == Vec3(0.0, 0.0, 1.0) && u == Vec3(1.0, 0.0, 0.0) && p.z < -1.0
    ensures LengthSquared(n) == 1.0 && LengthSquared(u) == 1.0
    ensures Dot(BounceDirection(n, u), n) == 1.0
    ensures Dot(AsWrittenBounceDirection(p, n, u), n) < 0.0
  {
    assert AsWrittenBounceDirection(p, n, u) == Vec3(p.x + 1.0, p.y, p.z + 1.0);
  }

  /** The bounce as evidently intended: from `p` towards `p + n + u`, that is along `n + u`. */
  function BounceDirection(n: Vec3, u: Vec3): Vec3 {
    Add(n, u)
  }

  lemma SquareAtMostOne(d: real)
    requires d * d <= 1.0
    ensures -1.0 <= d
  {
  }

  /** For a unit normal and a unit draw the intended bounce never points into the
      surface. */
  lemma BounceLeavesSurface(n: Vec3, u: Vec3)
    requires LengthSquared(n) == 1.0 && LengthSquared(u) == 1.0
    ensures Dot(BounceDirection(n, u), n) >= 0.0
  {
    CauchySchwarzSquared(u, n);
    SquareAtMostOne(Dot(u, n));
    assert Dot(BounceDirection(n, u), n) == LengthSquared(n) + Dot(u, n);
  }

  // The integrator.

  /** `0.5` to the power `k`. */
  function Halving(k: nat): real {
    if k == 0 then 1.0 else 0.5 * Halving(k - 1)
  }

  /** Which bounce a path takes: the one `render.rs` writes, or the intended one. */
  datatype Bounce = AsWritten | Intended

  /** The ray leaving hit `rec` after the unit draw `u`. */
  function BouncedRay(bounce: Bounce, rec: HitRecord, u: Vec3): Ray {
    match bounce
    case AsWritten => Ray(rec.p, AsWrittenBounceDirection(rec.p, rec.n, u))
    case Intended => Ray(rec.p, BounceDirection(rec.n, u))
  }

  /** `objects.hit(&r, 0.001, f64::MAX)`, the query `cast_ray` makes of the world. */
  function WorldHitOn(world: seq<Sphere>, num: Numerics): Ray -> Option<HitRecord> {
    r => WorldHit(world, r, Scene.Epsilon, F64Max, num)
  }

  /** `cast_ray` of `render.rs` (with `bounce == AsWritten` and
      `hit == WorldHitOn(objects, num)`), `draws(b)` being the random unit vector
      drawn with `b` bounces left: black when no bounces are left, half the light of
      the bounced ray on a hit, the sky on a miss. */
  function CastRay(bounce: Bounce, ray: Ray, hit: Ray -> Option<HitRecord>, bounces: nat, draws: nat -> Vec3): Color
    decreases bounces
  {
    if bounces == 0 then Origin
    else
      match hit(ray)
      case Some(rec) => Scale(0.5, CastRay(bounce, BouncedRay(bounce, rec, draws(bounces)), hit, bounces - 1, draws))
      case None => SkyColor(ray)
  }

  /** One step of the path: a hit halves the light of the ray that leaves the hit
      point, along `p + n + u` as written and along `n + u` as intended. */
  lemma CastRayStep(bounce: Bounce, ray: Ray, hit: Ray -> Option<HitRecord>, bounces: nat, draws: nat -> Vec3)
    requires bounces > 0 && hit(ray).Some?
    ensures var rec, u := hit(ray).value, draws(bounces);
            && (bounce == AsWritten ==>
                  CastRay(bounce, ray, hit, bounces, draws)
                    == Scale(0.5, CastRay(bounce, Ray(rec.p, Add(Add(rec.p, rec.n), u)), hit, bounces - 1, draws)))
            && (bounce == Intended ==>
                  CastRay(bounce, ray, hit, bounces, draws)
                    == Scale(0.5, CastRay(bounce, Ray(rec.p, Add(rec.n, u)), hit, bounces - 1, draws)))
  {
  }

  lemma ScaleScale(a: real, b: real, v: Vec3)
    ensures Scale(a, Scale(b, v)) == Scale(a * b, v)
  {
    assert a * (b * v.x) == (a * b) * v.x;
    assert a * (b * v.y) == (a * b) * v.y;
    assert a * (b * v.z) == (a * b) * v.z;
  }

  lemma ScaleOne(v: Vec3)
    ensures Scale(1.0, v) == v
  {
  }

  lemma ScaleOrigin(a: real)
    ensures Scale(a, Origin) == Origin
  {
  }

  /** The sky seen along `last`, halved `k` times. */
  function HalvedSky(k: nat, last: Ray): Color {
    if k == 0 then SkyColor(last) else Scale(0.5, HalvedSky(k - 1, last))
  }

  /** Halving `k` times scales by `0.5` to the power `k`. */
  lemma {:induction false} HalvedSkyIsScaled(k: nat, last: Ray)
    ensures HalvedSky(k, last) == Scale(Halving(k), SkyColor(last))
  {
    if k == 0 {
      ScaleOne(SkyColor(last));
    } else {
      HalvedSkyIsScaled(k - 1, last);
      ScaleScale(0.5, Halving(k - 1), SkyColor(last));
    }
  }

  /** Every pixel sample is black (the budget ran out) or the sky seen by the last
      ray of the path, halved once per bounce before it: `k` bounces, fewer than
      the budget. Neither the world nor the bounce direction matters. */
  lemma {:induction false} CastRayIsHalvedSky(bounce: Bounce, ray: Ray, hit: Ray -> Option<HitRecord>, bounces: nat, draws: nat -> Vec3)
    returns (k: nat, last: Ray)
    ensures CastRay(bounce, ray, hit, bounces, draws) == Origin
            || (k < bounces && CastRay(bounce, ray, hit, bounces, draws) == HalvedSky(k, last))
    decreases bounces
  {
    k, last := 0, ray;
    if bounces == 0 || hit(ray).None? {
      return;
    }
    var bounced := BouncedRay(bounce, hit(ray).value, draws(bounces));
    var k', last' := CastRayIsHalvedSky(bounce, bounced, hit, bounces - 1, draws);
    if CastRay(bounce, bounced, hit, bounces - 1, draws) == Origin {
      ScaleOrigin(0.5);
    } else {
      k, last := k' + 1, last';
    }
  }

  /** An empty world shows the sky, whatever the budget beyond zero. */
  lemma EmptyWorldIsSky(bounce: Bounce, ray: Ray, bounces: nat, num: Numerics, draws: nat -> Vec3)
    requires bounces > 0
    ensures CastRay(bounce, ray, WorldHitOn([], num), bounces, draws) == SkyColor(ray)
  {
  }

  // The image.

  const ImageWidth: nat := 1920
  /** `(image_width as f64 / aspect_ratio) as usize`. */
  function ImageHeight(): (h: nat)
    ensures h == 1080
  {
    ((ImageWidth as real) / AspectRatio169()).Floor as nat
  }

  /** The render settings of `render.rs`, with the fixed image size. */
  function ImageConfig(samples: nat, bounces: nat): (config: RenderConfig)
    ensures config.width * 9 == config.height * 16
  {
    RenderConfig(ImageWidth, ImageHeight(), samples, bounces)
  }

  /** `Camera::new(16 / 9, 2.0, 1.0)`: the same camera the later renderer builds
      from the image's own aspect ratio. */
  function SnapshotCamera(): Camera {
    NewCamera(AspectRatio169(), 2.0, 1.0)
  }

  lemma SnapshotCameraIsImageCamera(samples: nat, bounces: nat)
    ensures SnapshotCamera() == ImageCamera(ImageConfig(samples, bounces))
  {
    assert AspectRatio(ImageConfig(samples, bounces)) == 1920.0 / 1080.0;
    assert 1920.0 / 1080.0 == AspectRatio169();
  }

  /** The colours `cast_ray` returns for the samples of pixel `(i, j)`, in order. */
  function Samples(bounce: Bounce, world: seq<Sphere>, camera: Camera, config: RenderConfig, num: Numerics,
                   sampler: Sampler, i: nat, j: nat): seq<Color> {
    seq(config.samples, s requires 0 <= s < config.samples =>
      CastRay(bounce, SampleRay(camera, config, sampler, i, j, s), WorldHitOn(world, num), config.bounces, sampler.draws(i, j, s)))
  }

  /** The bytes of pixel `(i, j)`: the same sample pipeline as the later renderer. */
  function ImagePixel(bounce: Bounce, world: seq<Sphere>, config: RenderConfig, num: Numerics, sampler: Sampler,
                      i: nat, j: nat): Pixel {
    PixelColor(Samples(bounce, world, SnapshotCamera(), config, num, sampler, i, j), num)
  }

  function Shade(bounce: Bounce, world: seq<Sphere>, config: RenderConfig, num: Numerics, sampler: Sampler): (nat, nat) -> Pixel {
    (i: nat, j: nat) => ImagePixel(bounce, world, config, num, sampler, i, j)
  }

  /** `render` of `render.rs`: every pixel of the 1920 x 1080 image is shaded, row
      by row, with the bounce as written. */
  method Render(world: seq<Sphere>, samples: nat, bounces: nat, num: Numerics, sampler: Sampler) returns (data: seq<byte>)
    ensures var config := ImageConfig(samples, bounces);
            && |data| == config.width * config.height * 3
            && forall i: nat, j: nat :: i < config.height && j < config.width ==>
                 PixelAt(data, i, j, config.width) == ImagePixel(AsWritten, world, config, num, sampler, i, j)
  {
    data := RenderImage(AsWritten, world, ImageConfig(samples, bounces), num, sampler);
  }

  /** The row-by-row loop of `render`, for any image size and either bounce. */
  method RenderImage(bounce: Bounce, world: seq<Sphere>, config: RenderConfig, num: Numerics, sampler: Sampler)
    returns (data: seq<byte>)
    ensures |data| == config.width * config.height * 3
    ensures forall i: nat, j: nat :: i < config.height && j < config.width ==>
              PixelAt(data, i, j, config.width) == ImagePixel(bounce, world, config, num, sampler, i, j)
  {
    data := FillRows(config.width, config.height, Shade(bounce, world, config, num, sampler));
  }
}
