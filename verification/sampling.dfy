/** Where the samples of a pixel look: the image coordinates of `render` and
    `render_multi` in `src/render/mod.rs`, jittered by random draws, and the
    camera ray through them. */
module Sampling {
  import opened Math
  import opened View

  datatype RenderConfig = RenderConfig(width: nat, height: nat, samples: nat, bounces: nat)

  /** The random numbers a render draws, by pixel `(i, j)` and sample `s`: the
      jitter added to the column and to the row, and the unit vectors the bounces
      of that sample draw. */
  datatype Sampler = Sampler(
    jitterU: (nat, nat, nat) -> real,
    jitterV: (nat, nat, nat) -> real,
    draws: (nat, nat, nat) -> (nat -> Vec3))

  /** `(k + jitter) / (extent - 1)`: the viewport coordinate of column or row `k`.
      An image one pixel wide or high divides by zero in the source; the model
      divides by 1 there instead. */
  function ImageCoord(k: nat, jitter: real, extent: nat): real {
    if extent >= 2 then (k as real + jitter) / ((extent - 1) as real) else k as real + jitter
  }

  /** Without jitter the first column or row sits at 0 and the last at 1; jitter in
      `[0, 1)` moves a coordinate by less than one pixel step, towards the next one. */
  lemma ImageCoordRange(k: nat, jitter: real, extent: nat)
    requires extent >= 2 && k < extent && 0.0 <= jitter < 1.0
    ensures ImageCoord(0, 0.0, extent) == 0.0 && ImageCoord(extent - 1, 0.0, extent) == 1.0
    ensures ImageCoord(k, 0.0, extent) <= ImageCoord(k, jitter, extent) < ImageCoord(k + 1, 0.0, extent)
  {
    var d := (extent - 1) as real;
    assert (k as real + jitter) / d - (k as real) / d == jitter / d;
    assert ((k + 1) as real) / d - (k as real + jitter) / d == (1.0 - jitter) / d;
  }

  /** Jitter pushes the last row or column past the viewport's edge: any positive
      jitter puts its samples beyond coordinate 1. */
  lemma LastLineJitterLeavesViewport(jitter: real, extent: nat)
    requires extent >= 2 && 0.0 < jitter
    ensures ImageCoord(extent - 1, jitter, extent) > 1.0
  {
    var d, q := (extent - 1) as real, ImageCoord(extent - 1, jitter, extent);
    assert q * d == d + jitter;
  }

  /** `width as f64 / height as f64`. It only matters when the image has rows, so
      an empty image uses 0. */
  function AspectRatio(config: RenderConfig): real {
    if config.height == 0 then 0.0 else config.width as real / config.height as real
  }

  /** A level viewport two units high, centred on the view axis: the camera's
      vertical extent in every renderer. */
  predicate Upright(c: Camera) {
    c.horizontal.y == 0.0 && c.vertical.y == 2.0 && c.topLeft.y == 1.0
  }

  /** `Camera::new(aspect_ratio, 2.0, 1.0)`, built once per render. */
  function ImageCamera(config: RenderConfig): (c: Camera)
    ensures Upright(c)
    ensures c.horizontal.x == 2.0 * AspectRatio(config) && c.topLeft.z == -1.0
  {
    NewCamera(AspectRatio(config), 2.0, 1.0)
  }

  /** The camera ray of sample `s` of pixel `(i, j)`. */
  function SampleRay(camera: Camera, config: RenderConfig, sampler: Sampler, i: nat, j: nat, s: nat): Ray {
    GetRay(camera, ImageCoord(j, sampler.jitterU(i, j, s), config.width), ImageCoord(i, sampler.jitterV(i, j, s), config.height))
  }

  /** Through an upright camera a sample's height runs from 1 at the top edge of
      the viewport to -1 at the bottom, so a sample whose row coordinate lies on
      the viewport leaves with a height in `[-1, 1]`. */
  lemma SampleRayHeight(camera: Camera, config: RenderConfig, sampler: Sampler, i: nat, j: nat, s: nat)
    requires Upright(camera)
    ensures SampleRay(camera, config, sampler, i, j, s).direction.y == 1.0 - 2.0 * ImageCoord(i, sampler.jitterV(i, j, s), config.height)
    ensures 0.0 <= ImageCoord(i, sampler.jitterV(i, j, s), config.height) <= 1.0 ==>
              -1.0 <= SampleRay(camera, config, sampler, i, j, s).direction.y <= 1.0
  {
  }
}
