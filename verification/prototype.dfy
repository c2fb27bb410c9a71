/** The first prototype, `src/main.rs`: one red sphere in front of the sky, a
    camera given by its lower-left corner, and a 480-pixel-wide image written
    bottom row first, with no sampling, bouncing or gamma correction. */
module Prototype {
  import opened Math
  import Prim
  import opened View
  import opened Pixels
  import opened Framebuffer
  import opened Sampling

  /** `hit_sphere`: the full quadratic `a t^2 + b t + c` with `b = 2 dot(oc, d)`,
      and a hit when its discriminant is strictly positive, which is when the
      half-`b` discriminant of the later sphere is. */
  function HitSphere(center: Point, radius: real, r: Ray): (hit: bool)
    ensures hit <==> Prim.Discriminant(center, radius, r) > 0.0
  {
    var oc := Sub(r.origin, center);
    var a := Dot(r.direction, r.direction);
    var b := 2.0 * Dot(oc, r.direction);
    var c := Dot(oc, oc) - radius * radius;
    assert b * b - 4.0 * a * c == 4.0 * Prim.Discriminant(center, radius, r);
    b * b - 4.0 * a * c > 0.0
  }

  /** A hit needs a moving ray, and then the ray crosses the surface at two distinct
      distances, both on the sphere. */
  lemma HitSphereCrossesSurface(center: Point, radius: real, r: Ray, sqrt: real -> real)
    requires IsSqrt(sqrt)
    requires HitSphere(center, radius, r)
    ensures Prim.QuadA(r) != 0.0
    ensures Prim.NearRoot(center, radius, r, sqrt) < Prim.FarRoot(center, radius, r, sqrt)
    ensures Prim.OnSphere(center, radius, r, Prim.NearRoot(center, radius, r, sqrt))
    ensures Prim.OnSphere(center, radius, r, Prim.FarRoot(center, radius, r, sqrt))
  {
    CauchySchwarzSquared(Sub(r.origin, center), r.direction);
    if Prim.QuadA(r) == 0.0 {
      assert false;
    }
    var a := Prim.QuadA(r);
    var h := Prim.HalfB(center, r);
    var s := sqrt(Prim.Discriminant(center, radius, r));
    assert s > 0.0;
    RootsApart(a, h, s);
    Prim.CandidateOnSurface(center, radius, r, sqrt, Prim.NearRoot(center, radius, r, sqrt));
    Prim.CandidateOnSurface(center, radius, r, sqrt, Prim.FarRoot(center, radius, r, sqrt));
  }

  lemma RootsApart(a: real, h: real, s: real)
    requires a > 0.0 && s > 0.0
    ensures (-h - s) / a < (-h + s) / a
  {
  }

  /** A grazing ray is a miss: the ray from `(radius, 0, 0)` down `-z` touches the
      sphere around `(0, 0, z)` exactly once, at distance `-z`, and the strict test
      rejects it. */
  lemma GrazingRayMisses(z: real, radius: real, r: Ray)
    requires r == Ray(Vec3(radius, 0.0, 0.0), Vec3(0.0, 0.0, -1.0))
    ensures Prim.OnSphere(Vec3(0.0, 0.0, z), radius, r, -z)
    ensures !HitSphere(Vec3(0.0, 0.0, z), radius, r)
  {
    assert r.At(-z) == Vec3(radius, 0.0, z);
  }

  /** The test ignores where along the line the sphere lies: reversing the ray
      changes nothing, so a sphere behind the eye is hit too. */
  lemma HitSphereIgnoresDirection(center: Point, radius: real, r: Ray)
    ensures HitSphere(center, radius, r) == HitSphere(center, radius, Ray(r.origin, Neg(r.direction)))
  {
  }

  /** The red of the sphere. */
  const Red: Color := Vec3(1.0, 0.0, 0.0)

  /** The one sphere of the scene: radius 0.5, three units down the view axis. */
  const SphereCenter: Point := Vec3(0.0, 0.0, -3.0)
  const SphereRadius: real := 0.5

  /** `cast_ray`: red where the sphere is hit, the sky elsewhere; the sky is never
      pure red, so the colour tells the two apart. */
  function CastRay(r: Ray): (c: Color)
    ensures c == Red <==> HitSphere(SphereCenter, SphereRadius, r)
  {
    if HitSphere(SphereCenter, SphereRadius, r) then Red else SkyColor(r)
  }

  /** On the viewport every colour, red or sky, is in the unit cube. */
  lemma CastRayInUnitCube(r: Ray)
    ensures -1.0 <= r.direction.y <= 1.0 ==> InUnitCube(CastRay(r))
  {
  }

  /** The view axis meets the sphere, so the middle of the image is red. */
  lemma ViewAxisHitsSphere(r: Ray)
    requires r == Ray(Origin, Vec3(0.0, 0.0, -1.0))
    ensures HitSphere(SphereCenter, SphereRadius, r)
  {
    var oc := Sub(r.origin, SphereCenter);
    assert oc == Vec3(0.0, 0.0, 3.0);
    var a, b, c := Dot(r.direction, r.direction), 2.0 * Dot(oc, r.direction), Dot(oc, oc) - SphereRadius * SphereRadius;
    assert a == 1.0 && b == -6.0 && c == 8.75;
    PositiveDiscriminant(a, b, c);
  }

  lemma PositiveDiscriminant(a: real, b: real, c: real)
    requires a == 1.0 && b == -6.0 && c == 8.75
    ensures b * b - 4.0 * a * c > 0.0
  {
  }

  // The camera.

  /** The viewport corner the prototype starts from:
      `ORIGIN - horizontal / 2 - vertical / 2 - (0, 0, focal_length)`. */
  function LowerLeftCorner(horizontal: Vec3, vertical: Vec3, focalLength: real): Point {
    Sub(Sub(Sub(Origin, Div(horizontal, 2.0)), Div(vertical, 2.0)), Vec3(0.0, 0.0, focalLength))
  }

  /** The ray through `lower_left_corner + u horizontal + v vertical`. */
  function LowerLeftRay(aspectRatio: real, viewportHeight: real, focalLength: real, u: real, v: real): Ray {
    var horizontal := Vec3(aspectRatio * viewportHeight, 0.0, 0.0);
    var vertical := Vec3(0.0, viewportHeight, 0.0);
    Ray(Origin, Add(Add(LowerLeftCorner(horizontal, vertical, focalLength), Scale(u, horizontal)), Scale(v, vertical)))
  }

  /** The prototype's camera is the later `Camera` with `v` measured from the
      bottom edge instead of the top. */
  lemma LowerLeftRayIsFlippedCamera(aspectRatio: real, viewportHeight: real, focalLength: real, u: real, v: real)
    ensures LowerLeftRay(aspectRatio, viewportHeight, focalLength, u, v)
              == GetRay(NewCamera(aspectRatio, viewportHeight, focalLength), u, 1.0 - v)
  {
    ViewportDirection(aspectRatio, viewportHeight, focalLength, u, 1.0 - v);
    var w := viewportHeight * aspectRatio;
    assert aspectRatio * viewportHeight == w;
    assert -(w / 2.0) + u * w == (u - 0.5) * w;
    assert -(viewportHeight / 2.0) + v * viewportHeight == (0.5 - (1.0 - v)) * viewportHeight;
  }

  /** The viewport of `render`: two units high, `16 / 9` as wide, one unit away. */
  function ViewRay(u: real, v: real): Ray {
    LowerLeftRay(AspectRatio169(), 2.0, 1.0, u, v)
  }

  // The image.

  const ImageWidth: nat := 480

  /** `(image_width as f64 / aspect_ratio) as usize`. */
  function ImageHeight(): (h: nat)
    ensures h == 270
  {
    ((ImageWidth as real) / AspectRatio169()).Floor as nat
  }

  /** `(255.0 * color.x) as u8` and so on: no gamma correction. */
  function ToPixel(c: Color): Pixel {
    Pixel(ToByte(255.0 * c.x), ToByte(255.0 * c.y), ToByte(255.0 * c.z))
  }

  /** The colour computed for loop indices `(i, j)`: `u = j / (width - 1)` and
      `v = i / (height - 1)`, with `i` counting rows from the bottom. */
  function ImagePixel(width: nat, height: nat, i: nat, j: nat): Pixel {
    ToPixel(CastRay(ViewRay(ImageCoord(j, 0.0, width), ImageCoord(i, 0.0, height))))
  }

  /** A pixel is pure red exactly where its ray hits the sphere: a sky pixel
      always has a full blue byte. */
  lemma PixelRedIffHit(r: Ray)
    ensures ToPixel(CastRay(r)) == Pixel(255, 0, 0) <==> HitSphere(SphereCenter, SphereRadius, r)
  {
    SkyPixelIsBlue(SkyColor(r));
  }

  lemma SkyPixelIsBlue(c: Color)
    requires c.z == 1.0
    ensures ToPixel(c).b == 255
  {
  }

  /** The loops of `render`: loop row `i` is stored in buffer row `height - 1 - i`,
      so the buffer holds the picture top row first. */
  method FillRowsFlipped(width: nat, height: nat, shade: (nat, nat) -> Pixel) returns (data: seq<byte>)
    ensures |data| == width * height * 3
    ensures forall r: nat, j: nat :: r < height && j < width ==> PixelAt(data, r, j, width) == shade(height - 1 - r, j)
  {
    data := Blank(width, height);
    for i := 0 to height
      invariant |data| == width * height * 3
      invariant forall r: nat, j': nat :: height - i <= r < height && j' < width ==>
                  PixelAt(data, r, j', width) == shade(height - 1 - r, j')
    {
      var row := height - i - 1;
      for j := 0 to width
        invariant |data| == width * height * 3
        invariant forall r: nat, j': nat :: height - i <= r < height && j' < width ==>
                    PixelAt(data, r, j', width) == shade(height - 1 - r, j')
        invariant forall j': nat :: j' < j ==> PixelAt(data, row, j', width) == shade(i, j')
      {
        PixelIndexInBounds(row, j, width, height);
        WritePixelFrame(data, row, j, width, shade(i, j));
        data := WritePixel(data, row, j, width, shade(i, j));
      }
    }
  }

  /** The pixel for loop row `i` and column `j` of a `width x height` image. */
  function Shade(width: nat, height: nat): (nat, nat) -> Pixel {
    (i: nat, j: nat) => ImagePixel(width, height, i, j)
  }

  /** The loops of `render` for any image size: buffer row `r` holds what loop row
      `height - 1 - r` computes. */
  method RenderImage(width: nat, height: nat) returns (data: seq<byte>)
    ensures |data| == width * height * 3
    ensures forall r: nat, j: nat :: r < height && j < width ==>
              PixelAt(data, r, j, width) == Shade(width, height)(height - 1 - r, j)
  {
    data := FillRowsFlipped(width, height, Shade(width, height));
  }

  /** `render` of `main.rs`: the 480 x 270 image. */
  method Render() returns (data: seq<byte>)
    ensures |data| == ImageWidth * ImageHeight() * 3
    ensures forall r: nat, j: nat :: r < ImageHeight() && j < ImageWidth ==>
              PixelAt(data, r, j, ImageWidth) == Shade(ImageWidth, ImageHeight())(ImageHeight() - 1 - r, j)
  {
    data := RenderImage(ImageWidth, ImageHeight());
  }

  lemma DivideDifference(d: real, x: real)
    requires d > 0.0
    ensures (d - x) / d == 1.0 - x / d
  {
    var p, q := (d - x) / d, x / d;
    assert p * d == d - x;
    assert q * d == x;
    assert (p - (1.0 - q)) * d == 0.0;
    ZeroFactor(p - (1.0 - q), d);
  }

  lemma ZeroFactor(a: real, d: real)
    requires d > 0.0 && a * d == 0.0
    ensures a == 0.0
  {
  }

  /** Row `k` from the top sits where row `extent - 1 - k` from the bottom does. */
  lemma ImageCoordFlip(k: nat, extent: nat)
    requires 2 <= extent && k < extent
    ensures ImageCoord(extent - 1 - k, 0.0, extent) == 1.0 - ImageCoord(k, 0.0, extent)
  {
    var d, x := (extent - 1) as real, k as real;
    assert (extent - 1 - k) as real == d - x;
    DivideDifference(d, x);
  }

  /** Counting loop rows from the bottom and storing them flipped puts the viewport
      row of the later renderers in buffer row `r`. */
  lemma FlippedRowMatchesCamera(aspectRatio: real, viewportHeight: real, focalLength: real, height: nat, r: nat, u: real)
    requires 2 <= height && r < height
    ensures LowerLeftRay(aspectRatio, viewportHeight, focalLength, u, ImageCoord(height - 1 - r, 0.0, height))
              == GetRay(NewCamera(aspectRatio, viewportHeight, focalLength), u, ImageCoord(r, 0.0, height))
  {
    ImageCoordFlip(r, height);
    LowerLeftRayIsFlippedCamera(aspectRatio, viewportHeight, focalLength, u, ImageCoord(height - 1 - r, 0.0, height));
  }
}
