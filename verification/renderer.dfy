/** The two image renderers of `src/render/mod.rs`: `render`, which walks the
    image row by row, and `render_multi`, which hands column slices to
    `NUM_THREADS` workers. Both shade a pixel the same way: `samples` jittered
    camera rays through `cast_ray`, averaged and converted to bytes. */
module Renderer {
  import opened Math
  import opened View
  import opened Scene
  import opened Pixels
  import opened Framebuffer
  import opened Sampling

  /** The colours `cast_ray` returns for the samples of pixel `(i, j)`, in order. */
  function Samples(scene: seq<Shape>, camera: Camera, config: RenderConfig, num: Numerics, sampler: Sampler, i: nat, j: nat): seq<Color> {
    seq(config.samples, s requires 0 <= s < config.samples =>
      CastRay(SampleRay(camera, config, sampler, i, j, s), SceneQuery(scene, num), config.bounces, sampler.draws(i, j, s)))
  }

  /** The bytes of pixel `(i, j)` of the image. */
  function ImagePixel(scene: seq<Shape>, config: RenderConfig, num: Numerics, sampler: Sampler, i: nat, j: nat): Pixel {
    PixelColor(Samples(scene, ImageCamera(config), config, num, sampler, i, j), num)
  }

  function Shade(scene: seq<Shape>, config: RenderConfig, num: Numerics, sampler: Sampler): (nat, nat) -> Pixel {
    (i: nat, j: nat) => ImagePixel(scene, config, num, sampler, i, j)
  }

  /** With unit-range surface colours and draws whose height lies in `[-1, 1]`,
      a sample whose row coordinate lies on the viewport has a unit-range colour. */
  lemma SampleInUnitCube(scene: seq<Shape>, camera: Camera, config: RenderConfig, num: Numerics, sampler: Sampler, i: nat, j: nat, s: nat)
    requires SceneColorsInUnitCube(scene) && DrawsBounded(sampler.draws(i, j, s)) && Upright(camera)
    requires 0.0 <= ImageCoord(i, sampler.jitterV(i, j, s), config.height) <= 1.0
    ensures InUnitCube(CastRay(SampleRay(camera, config, sampler, i, j, s), SceneQuery(scene, num), config.bounces, sampler.draws(i, j, s)))
  {
    SampleRayHeight(camera, config, sampler, i, j, s);
    CastRayInUnitCube(SampleRay(camera, config, sampler, i, j, s), scene, config.bounces, num, sampler.draws(i, j, s));
  }

  /** Every sample of such a pixel, and so their average, is a unit-range colour. */
  lemma SamplesInUnitCube(scene: seq<Shape>, camera: Camera, config: RenderConfig, num: Numerics, sampler: Sampler, i: nat, j: nat)
    requires SceneColorsInUnitCube(scene) && Upright(camera)
    requires forall s: nat :: DrawsBounded(sampler.draws(i, j, s))
    requires forall s: nat :: 0.0 <= ImageCoord(i, sampler.jitterV(i, j, s), config.height) <= 1.0
    ensures forall s :: 0 <= s < config.samples ==> InUnitCube(Samples(scene, camera, config, num, sampler, i, j)[s])
    ensures config.samples > 0 ==> InUnitCube(Average(Samples(scene, camera, config, num, sampler, i, j)))
  {
    var cs := Samples(scene, camera, config, num, sampler, i, j);
    forall s | 0 <= s < config.samples
      ensures InUnitCube(cs[s])
    {
      SampleInUnitCube(scene, camera, config, num, sampler, i, j, s);
    }
    if config.samples > 0 {
      AverageInUnitCube(cs);
    }
  }

  /** `render`: every pixel of the `width * height` image is shaded. */
  method Render(scene: seq<Shape>, config: RenderConfig, num: Numerics, sampler: Sampler) returns (data: seq<byte>)
    ensures |data| == config.width * config.height * 3
    ensures forall i: nat, j: nat :: i < config.height && j < config.width ==>
              PixelAt(data, i, j, config.width) == ImagePixel(scene, config, num, sampler, i, j)
  {
    data := FillRows(config.width, config.height, Shade(scene, config, num, sampler));
  }

  const NumThreads: nat := 4

  /** The columns `render_multi` hands out: `NUM_THREADS` slices of `width / NUM_THREADS`. */
  function RenderedWidth(width: nat): nat {
    NumThreads * (width / NumThreads)
  }

  /** The column slices of `render_multi` as written: worker `n` renders
      `[n * slice, n * slice + slice)` with `slice = width / NUM_THREADS`. */
  function WorkerBounds(width: nat): (bounds: seq<nat>)
    ensures ValidBounds(bounds, width)
    ensures |bounds| == NumThreads + 1 && bounds[NumThreads] == RenderedWidth(width)
  {
    var slice := width / NumThreads;
    seq(NumThreads + 1, n requires 0 <= n <= NumThreads => n * slice)
  }

  /** `render_multi` as written: the columns past the last full slice are never
      rendered and stay black. */
  method RenderMulti(scene: seq<Shape>, config: RenderConfig, num: Numerics, sampler: Sampler) returns (data: seq<byte>)
    ensures |data| == config.width * config.height * 3
    ensures forall i: nat, j: nat :: i < config.height && j < config.width ==>
              PixelAt(data, i, j, config.width)
                == if j < RenderedWidth(config.width)
                   then ImagePixel(scene, config, num, sampler, i, j)
                   else Black
  {
    data := FillColumnSlices(config.width, config.height, WorkerBounds(config.width), Shade(scene, config, num, sampler));
  }

  /** The slices cover the whole image exactly when the width is a multiple of
      `NUM_THREADS`; otherwise the last `width % NUM_THREADS` columns are left out. */
  lemma WorkerBoundsCoverImage(width: nat)
    ensures RenderedWidth(width) == width <==> width % NumThreads == 0
    ensures width - RenderedWidth(width) == width % NumThreads
  {
  }

  /** An image 1922 columns wide loses its last two columns. */
  lemma TrailingColumnsLeftBlack()
    ensures WorkerBounds(1922)[NumThreads] == 1920
    ensures forall n :: 0 <= n < NumThreads ==> !(WorkerBounds(1922)[n] <= 1921 < WorkerBounds(1922)[n + 1])
  {
  }

  /** The alternative split: the last worker also takes the remainder, running to the image's edge. */
  function CorrectedWorkerBounds(width: nat): (bounds: seq<nat>)
    ensures ValidBounds(bounds, width)
    ensures |bounds| == NumThreads + 1 && bounds[NumThreads] == width
    ensures forall n :: 0 <= n < NumThreads ==> bounds[n] == WorkerBounds(width)[n]
  {
    var slice := width / NumThreads;
    seq(NumThreads + 1, n requires 0 <= n <= NumThreads => if n == NumThreads then width else n * slice)
  }

  /** `render_multi` with the alternative split: the same image as `render`. */
  method RenderMultiCorrected(scene: seq<Shape>, config: RenderConfig, num: Numerics, sampler: Sampler) returns (data: seq<byte>)
    ensures |data| == config.width * config.height * 3
    ensures forall i: nat, j: nat :: i < config.height && j < config.width ==>
              PixelAt(data, i, j, config.width) == ImagePixel(scene, config, num, sampler, i, j)
  {
    data := FillColumnSlices(config.width, config.height, CorrectedWorkerBounds(config.width), Shade(scene, config, num, sampler));
  }
}
