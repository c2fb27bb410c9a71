/** The pinhole camera and the sky backdrop, identical in `src/render/mod.rs` and
    `src/render.rs`. */
module View {
  import opened Math

  /** `16.0 / 9.0`, the aspect ratio of the fixed-size images of `src/main.rs` and
      `src/render.rs`. */
  function AspectRatio169(): real {
    16.0 / 9.0
  }

  datatype Camera = Camera(origin: Point, horizontal: Vec3, vertical: Vec3, topLeft: Point)

  /** `Camera::new`: an eye at the origin looking down `-z` at a viewport of the given
      height and aspect ratio, `focal_length` away. */
  function NewCamera(aspectRatio: real, viewportHeight: real, focalLength: real): (c: Camera)
    ensures c.origin == Origin
    ensures c.horizontal == Vec3(viewportHeight * aspectRatio, 0.0, 0.0)
    ensures c.vertical == Vec3(0.0, viewportHeight, 0.0)
    ensures c.topLeft == Vec3(-(viewportHeight * aspectRatio) / 2.0, viewportHeight / 2.0, -focalLength)
  {
    var horizontal := Vec3(viewportHeight * aspectRatio, 0.0, 0.0);
    var vertical := Vec3(0.0, viewportHeight, 0.0);
    Camera(Origin, horizontal, vertical,
           Sub(Add(Sub(Origin, Div(horizontal, 2.0)), Div(vertical, 2.0)), Vec3(0.0, 0.0, focalLength)))
  }

  /** `Camera::get_ray`: from the eye through `top_left + u horizontal - v vertical`. */
  function GetRay(c: Camera, u: real, v: real): (r: Ray)
    ensures r.origin == c.origin
    ensures u == 0.0 && v == 0.0 ==> r.direction == c.topLeft
    ensures u == 1.0 && v == 1.0 ==> r.direction == Sub(Add(c.topLeft, c.horizontal), c.vertical)
  {
    Ray(c.origin, Sub(Add(c.topLeft, Scale(u, c.horizontal)), Scale(v, c.vertical)))
  }

  /** The viewport in closed form: `u` runs from the left edge (0) to the right
      edge (1) and `v` from the top edge (0) to the bottom edge (1), at depth
      `-focal_length`; so `(0.5, 0.5)` looks straight ahead. */
  lemma ViewportDirection(aspectRatio: real, viewportHeight: real, focalLength: real, u: real, v: real)
    ensures GetRay(NewCamera(aspectRatio, viewportHeight, focalLength), u, v)
              == Ray(Origin, Vec3((u - 0.5) * (viewportHeight * aspectRatio), (0.5 - v) * viewportHeight, -focalLength))
  {
  }

  const White: Color := Vec3(1.0, 1.0, 1.0)
  const SkyBlue: Color := Vec3(0.5, 0.7, 1.0)

  /** The miss colour: white blended towards sky blue as the direction's `y` goes
      from -1 to 1. Only `y` matters; the blue channel is always 1. */
  function SkyColor(ray: Ray): (c: Color)
    ensures c.z == 1.0
    ensures ray.direction.y == -1.0 ==> c == White
    ensures ray.direction.y == 1.0 ==> c == SkyBlue
    ensures -1.0 <= ray.direction.y <= 1.0 ==> InUnitCube(c) && 0.5 <= c.x && 0.7 <= c.y
  {
    var t := (ray.direction.y + 1.0) * 0.5;
    Add(Scale(1.0 - t, White), Scale(t, SkyBlue))
  }
}
