# A Dafny model of a small Rust path tracer

This project models the core of a small CPU ray tracer written in Rust, in its
three stages.

- **The first prototype** (`src/main.rs`) draws one red sphere against a sky
  gradient. It uses a camera given by its lower-left corner and writes a
  480 x 270 image bottom row first.
- **The single-file snapshot** (`src/render.rs`) adds several things:
  - a list of spheres behind the `Hittable` trait;
  - the closest-hit scan;
  - diffuse bounces that halve the light;
  - jittered multi-sampling;
  - gamma correction;
  - a fixed 1920 x 1080 image.
- **The current renderer** (`src/math.rs` and `src/render/`) adds:
  - materials;
  - single-sided Möller–Trumbore triangles;
  - rectangles made of two triangles;
  - triangle meshes loaded from OBJ index and position lists;
  - hemisphere scattering;
  - a configurable image size;
  - a renderer that splits the image into column slices for four worker threads.

The model works over exact reals. The three operations with no exact
counterpart (`f64::sqrt`, `Vec3::unit` and `f64::powf`) are passed in as a
`Numerics` bundle. A lemma that needs a property of them says so in its
hypotheses:
- `IsSqrt`: a true square root;
- `SqrtNonNegative`: a square root that is never negative;
- `PowHalfIsSqrt`: a `powf(x, 0.5)` that is a non-negative square root.

Random numbers are passed in the same way. A `Sampler` supplies the sub-pixel
jitter of every sample and the unit vectors each bounce draws.

Some details of the code that the model keeps:
- The camera has a fixed eye at the origin looking down `-z`. It is built from
  the aspect ratio, the viewport height and the focal length. There is no
  look-at target and no field of view.
- `RenderConfig` holds only the width, height, samples and bounces. The worker
  count is the constant `NUM_THREADS = 4`.
- Every hit interval is closed, `[t_min, t_max]`, because `in_range` is
  inclusive at both ends. The integrator asks for hits in `[0.001, f64::MAX]`.
- `random_hemisphere_vec` keeps a drawn vector only when it points strictly
  along the normal. Otherwise, including when it is perpendicular, it negates it.
- Both integrators take the world as the query `hit` they make of it
  (`Scene.SceneQuery`, `Snapshot.WorldHitOn`), so their lemmas hold for any world.

`render_multi` gives each of its four workers `width / 4` columns. The columns
past `4 * (width / 4)` are never rendered and stay black. `Renderer.RenderMulti`
models this as written. `Renderer.RenderMultiCorrected` models the alternative
in which the last worker takes the remainder. That alternative is proved to
produce the same image as `render`.

Modules, in dependency order:

| module | file | models |
|---|---|---|
| `Wrappers` | wrappers.dfy | `Option` |
| `Math` | math.dfy | `src/math.rs`: vectors, rays, `clamp`, `in_range`, hemisphere flip |
| `Hittable` | hittable.dfy | the `Hittable` trait and the closest-hit scan shared by scenes, meshes and the snapshot |
| `Cramer`, `Quadratic` | cramer.dfy, quadratic.dfy | the algebra behind the triangle and sphere tests |
| `Prim` | prim.dfy | `src/render/prim.rs`: `Tri`, `Rect`, `Sphere` |
| `Mesh` | model.dfy | `src/render/model.rs`: `Model` |
| `View` | view.dfy | `Camera` and the sky colour |
| `Scene` | scene.dfy | the boxed-shape list and `cast_ray` of `src/render/mod.rs` |
| `Pixels`, `Framebuffer`, `Sampling` | pixels.dfy, framebuffer.dfy, sampling.dfy | sample averaging and byte conversion, the RGB buffer and the orders the renderers fill it in, sample rays |
| `Renderer` | renderer.dfy | `render` and `render_multi` of `src/render/mod.rs` |
| `Snapshot` | snapshot.dfy | `src/render.rs` |
| `Prototype` | prototype.dfy | `src/main.rs` |

## Model

| member | source | states |
|---|---|---|
| `Math.LengthSquared` | src/math.rs:53-55 | a squared length is never negative |
| `Math.Rgb` | src/math.rs:45-47 | an 8-bit colour maps into the unit cube, and scaling by 255 gives the bytes back |
| `Math.HemisphereVec` | src/math.rs:84-91 | the result never points against the normal; it is the draw itself when that points strictly along the normal, and the negated draw otherwise, perpendicular draws included |
| `Math.Clamp` | src/math.rs:210-218 | the result lies in `[min, max]`; an in-range value is unchanged, one below `min` becomes `min` and one above `max` (and not below `min`) becomes `max` |
| `Math.InRangeIffClampFixes` | src/math.rs:210-222 | `in_range` accepts exactly the values `clamp` leaves unchanged, for any bounds; both ends are in range exactly when `min <= max` |
| `Math.GammaCorrect` | src/math.rs:62-68 | with gamma 2 and a `powf(x, 0.5)` that is a square root, squaring the result gives the colour back, and a unit-range colour stays unit-range |
| `Math.Ray.At` | src/math.rs:205-207 | the point reached is `t` times the direction away from the origin |
| `Math.DotSymmetric` | src/math.rs:25-27 | the dot product is symmetric |
| `Math.RayAtZero` | src/math.rs:205-207 | at distance 0 the ray is at its origin |
| `Math.CrossPerpendicular` | src/math.rs:29-35 | the cross product is orthogonal to both factors |
| `Math.CrossAntiCommutative` | src/math.rs:29-35 | swapping the factors negates the cross product |
| `Math.TripleProductCyclic` | src/math.rs:25-35 | the scalar triple product is invariant under cyclic rotation |
| `Math.CauchySchwarzSquared` | src/math.rs:25-27 | `(u.v)^2 <= |u|^2 |v|^2` |
| `Hittable.ScanPrefix` | src/render/mod.rs:29-42 | after `n` iterations nothing is kept exactly when each of the first `n` children, asked on the full interval, misses |
| `Hittable.ClosestHit` | src/render/mod.rs:29-42 | the list misses exactly when every child misses |
| `Hittable.ClosestHitLoop` | src/render/mod.rs:30-41 | the `for` loop with its mutable `temp` and `closest` returns the scan's result |
| `Hittable.ScanBoundShrinks` | src/render/mod.rs:32-38 | the running `closest` never grows and a kept hit lies in `[t_min, t_max]` |
| `Hittable.ClosestHitIsLastNearest` | src/render/mod.rs:29-42 | if every child reports its nearest in-interval hit, the scan returns the hit of a child that is nearest over all children; of equally near ones it returns the last |
| `Hittable.ClosestHitInRange` | src/render/mod.rs:29-42 | a returned distance lies in `[t_min, t_max]` |
| `Hittable.ScanReturnsAChildHit` | src/render/mod.rs:33-38 | whatever the children do, the returned record is one that some child produced |
| `Hittable.ClosestHitRestrict` | src/render/mod.rs:29-42 | the list keeps the same contract it asks of its children, so lists nest |
| `Hittable.ScanMap` | src/render/mod.rs:29-42 | scanning children whose hits are images of another list's hits, at the same distances, gives the image of that list's result |
| `Prim.DetFacing` | src/render/prim.rs:35-39 | `det` is minus the projection of the direction on `e1 x e2`, so it is positive exactly when the ray travels against the winding's normal |
| `Prim.CalcTriSeenAgainstNormal` | src/render/prim.rs:19-39 | when `unit()` rescales by a positive factor, a ray passes the sign test of a `Tri::calc` triangle exactly when it travels against the computed normal |
| `Prim.TranslateTri` | src/render/prim.rs:24-28 | every vertex moves by the offset; normal and material stay |
| `Prim.TranslateTriCompose` | src/render/prim.rs:24-28 | two translations compose to one by the sum |
| `Prim.TriHit` | src/render/prim.rs:34-61 | a ray with `det < 0.001` misses (single-sided); a hit passed the barycentric tests, lies at the plane crossing within `[t_min, t_max]`, and carries the stored normal, `front_face = true` and the material |
| `Prim.BarycentricSolve` | src/render/prim.rs:35-51 | `u`, `v` and `t` as computed solve `o - p1 == u e1 + v e2 - t d` (Cramer's rule) |
| `Prim.TriHitOnTriangle` | src/render/prim.rs:34-61 | soundness: the reported point is the triangle point with the accepted barycentric coordinates |
| `Prim.BarycentricUnique` | src/render/prim.rs:41-51 | once `det != 0`, any point where the ray meets the plane has the computed `u`, `v` and `t` as its coordinates and distance |
| `Prim.TriHitComplete` | src/render/prim.rs:34-61 | completeness: a front-side ray that meets the triangle at a distance in the interval is reported at exactly that distance |
| `Prim.TriHitRestrict` | src/render/prim.rs:52-60 | a lower upper bound keeps a hit that still fits and drops one that does not |
| `Prim.TriHitTranslate` | src/render/prim.rs:24-61 | moving a triangle and the ray's origin together moves only the hit point |
| `Prim.RectHalvesOpposed` | src/render/prim.rs:71-76 | for a parallelogram (`p4 = p2 + p3 - p1`) the second triangle's `det` is minus the first's: the two halves face opposite ways |
| `Prim.ParallelogramTrianglesAgree` | src/render/prim.rs:71-82 | so the two triangles of a parallelogram are never both hit, and they meet the distance agreement the nearest-hit guarantee needs |
| `Prim.RectMissesFarHalf` | src/render/prim.rs:71-82 | as written, a ray meeting the front of a parallelogram beyond the diagonal `p2 p3` misses the rectangle |
| `Prim.NewRectCorrected` | src/render/prim.rs:71-76 | with the second triangle wound `(p2, p4, p3)`, both triangles of a parallelogram have the same `det` for every ray |
| `Prim.CorrectedRectCoversParallelogram` | src/render/prim.rs:71-82 | corrected, a front-side ray meeting the parallelogram anywhere at a distance in the interval is hit there |
| `Prim.RectHit` | src/render/prim.rs:80-82 | hit iff either triangle is hit; the first triangle's hit wins (`Option::or`) |
| `Prim.RectHitRestrict` | src/render/prim.rs:80-82 | when the triangles agree on the distance, the rectangle keeps the child contract of the scan |
| `Prim.RectHitNotNearest` | src/render/prim.rs:80-82 | without that agreement, a lower bound can turn up the second triangle's nearer hit, so the first-wins rule is not a nearest-hit rule |
| `Prim.NewSphere` | src/render/prim.rs:91-94 | every hit on the sphere reports its base colour |
| `Prim.SphereRoot` | src/render/prim.rs:98-115 | no root on a negative discriminant; otherwise the near root if it is in range, else the far root if that is, else none; a root lies in `[t_min, t_max]` |
| `Prim.SphereHit` | src/render/prim.rs:97-125 | hit iff a root is selected; the record sits at that root with the unit outward normal, `front_face` iff the ray runs along the normal, and the sphere's material |
| `Prim.SphereRootOnSurface` | src/render/prim.rs:98-115 | with a true square root the selected distance puts the ray on the sphere |
| `Prim.CandidateOnSurface` | src/render/prim.rs:108-111 | both candidate roots are on the sphere |
| `Prim.SphereRootNearest` | src/render/prim.rs:98-115 | if a moving ray is on the sphere at some distance in the interval, a root is selected and it is no farther than that distance |
| `Prim.SphereRootRestrict` | src/render/prim.rs:104-115 | with a non-negative square root, a lower upper bound keeps the root if it still fits and gives none otherwise |
| `Prim.SphereHitRestrict` | src/render/prim.rs:97-125 | the same contract for the sphere's hit records |
| `Mesh.Faces` | src/render/model.rs:11-34 | faces exist iff the index list comes in whole triples that all point into the position list; face `f` then has the vertices of indices `3f..3f+2`, its unit cross-product normal and the mesh colour |
| `Mesh.Translate` | src/render/model.rs:36-40 | every triangle moves by the offset, in order |
| `Mesh.TranslateCompose` | src/render/model.rs:36-40 | two translations compose to one by the sum |
| `Mesh.Hit` | src/render/model.rs:43-56 | the mesh misses exactly when every triangle misses |
| `Mesh.TrianglesKeepContract` | src/render/model.rs:43-56 | triangles meet both child contracts of the scan |
| `Mesh.HitIsLastNearest` | src/render/model.rs:43-56 | the mesh reports its nearest triangle hit in the interval, the last of equally near ones |
| `Mesh.HitRestrict` | src/render/model.rs:43-56 | the mesh keeps the child contract itself, so it can sit in a scene |
| `Mesh.TranslateHit` | src/render/model.rs:36-56 | moving the mesh and the ray's origin together moves only the hit point |
| `View.NewCamera` | src/render/mod.rs:51-61 | eye at the origin; the viewport's width, height and top-left corner at depth `-focal_length` |
| `View.GetRay` | src/render/mod.rs:63-65 | the ray leaves the eye; `(0, 0)` aims at the top-left corner and `(1, 1)` at the bottom-right one |
| `View.ViewportDirection` | src/render/mod.rs:63-65 | `u` runs from the left edge to the right and `v` from the top edge to the bottom, so `(0.5, 0.5)` looks straight ahead |
| `View.SkyColor` | src/render/mod.rs:76-77 | the blue channel is 1; straight down is white and straight up is sky blue; for heights in `[-1, 1]` the colour is in the unit cube |
| `Scene.ShapeHit` | src/render/mod.rs:25-26 | whatever the shape, a reported hit lies in the interval asked for |
| `Scene.SceneHit` | src/render/mod.rs:29-42 | the scene misses exactly when every shape misses |
| `Scene.ShapesKeepContract` | src/render/mod.rs:25-27 | spheres, triangles, agreeing rectangles and meshes all keep the child contract |
| `Scene.SceneHitIsLastNearest` | src/render/mod.rs:29-42 | a well-behaved scene reports the nearest hit over its shapes, the last of equally near ones |
| `Scene.SceneHitColor` | src/render/mod.rs:29-42 | a scene hit carries one of its shapes' surface colours |
| `Scene.ScatterFacesNormal` | src/render/mod.rs:72-74 | the scattered ray leaves into the normal's hemisphere |
| `Scene.CastRay` | src/render/mod.rs:68-78 | computes the light of a path; `Scene.TraceInUnitCube`, `Scene.EmptySceneIsSky` and `Scene.BlackSurfaceAbsorbs` state what it promises |
| `Scene.EmptySceneIsSky` | src/render/mod.rs:68-78 | with bounces left, an empty scene shows the sky |
| `Scene.TraceInUnitCube` | src/render/mod.rs:68-78 | for any query whose surfaces are unit-range, and unit-range draws, every channel of the returned light lies in `[0, 1]` |
| `Scene.CastRayInUnitCube` | src/render/mod.rs:68-78 | the same for a scene whose shapes all have unit-range colours |
| `Scene.BlackSurfaceAbsorbs` | src/render/mod.rs:72-74 | a ray whose nearest hit is black returns black |
| `Pixels.ToByte` | src/render/mod.rs:217-219 | truncation towards zero in range, saturating at 0 and 255 |
| `Pixels.ToByteMonotone` | src/render/mod.rs:217-219 | a brighter channel never gives a smaller byte |
| `Pixels.SumBounds` | src/render/mod.rs:201-210 | each channel of a sum of unit-range samples lies between 0 and their number |
| `Pixels.AverageInUnitCube` | src/render/mod.rs:201-211 | the average of unit-range samples is unit-range |
| `Pixels.SumOfConstant` | src/render/mod.rs:201-210 | `n` equal samples sum to `n` times the sample |
| `Pixels.AverageOfConstant` | src/render/mod.rs:201-211 | averaging equal samples returns the sample |
| `Pixels.PixelColor` | src/render/mod.rs:201-219 | no samples give black, as `0 / 0` is NaN and NaN casts to 0; `Pixels.PixelColorOfUniform` and `Pixels.PixelColorExtremes` state the rest |
| `Pixels.PixelColorOfUniform` | src/render/mod.rs:211-219 | equal samples give that colour, gamma-corrected and scaled to bytes |
| `Pixels.PixelColorExtremes` | src/render/mod.rs:211-219 | with a `powf` that fixes 0 and 1, black samples give black bytes and white samples white bytes |
| `Sampling.ImageCoordRange` | src/render/mod.rs:203-204 | the first and last columns sit at 0 and 1; jitter in `[0, 1)` moves a coordinate less than one step, towards the next |
| `Sampling.LastLineJitterLeavesViewport` | src/render/mod.rs:203-204 | any positive jitter puts the samples of the last row or column beyond coordinate 1, off the viewport |
| `Sampling.ImageCamera` | src/render/mod.rs:194-196 | the render camera is upright, as wide as the aspect ratio demands, one unit away |
| `Sampling.SampleRayHeight` | src/render/mod.rs:203-206 | a sample on the viewport leaves with a height in `[-1, 1]`, from 1 at the top to -1 at the bottom |
| `Framebuffer.PixelIndexInBounds` | src/render/mod.rs:195-219 | every pixel's three bytes lie inside the `width * height * 3` buffer |
| `Framebuffer.PixelIndexDistinct` | src/render/mod.rs:216-219 | different pixels own disjoint byte triples |
| `Framebuffer.PixelIndexDecode` | src/render/mod.rs:216 | the row and column come back out of the index: the layout is row-major |
| `Framebuffer.WritePixel` | src/render/mod.rs:216-219 | the written pixel reads back, and the length is unchanged |
| `Framebuffer.WritePixelFrame` | src/render/mod.rs:216-219 | every other pixel is unchanged |
| `Framebuffer.Blank` | src/render/mod.rs:195 | a buffer of the right length, black everywhere |
| `Framebuffer.FillRows` | src/render/mod.rs:199-220 | after the row-major loops every pixel holds its shade |
| `Framebuffer.FillColumnSlices` | src/render/mod.rs:139-172 | after the workers run, every column below the last slice boundary holds its shade and every other column is black |
| `Framebuffer.SlicesDisjoint` | src/render/mod.rs:139-147 | no column belongs to two workers |
| `Framebuffer.SlicesCover` | src/render/mod.rs:139-147 | a column is rendered by some worker iff it lies below the last boundary |
| `Renderer.ImagePixel` | src/render/mod.rs:199-219 | computes a pixel's bytes; `Renderer.SamplesInUnitCube` and `Renderer.Render` state what it promises |
| `Renderer.SamplesInUnitCube` | src/render/mod.rs:199-211 | with unit-range colours and draws, every sample whose row coordinate lies on the viewport, and so their average, is unit-range; by `Sampling.LastLineJitterLeavesViewport` this never covers the jittered bottom row |
| `Renderer.Render` | src/render/mod.rs:193-226 | every pixel of the image holds the bytes of its averaged, gamma-corrected samples |
| `Renderer.WorkerBounds` | src/render/mod.rs:134-147 | the workers' slices are valid, four in number, and end at `4 * (width / 4)` |
| `Renderer.RenderMulti` | src/render/mod.rs:128-191 | columns below `4 * (width / 4)` hold the same pixel as in `render`; the rest stay black |
| `Renderer.WorkerBoundsCoverImage` | src/render/mod.rs:134-147 | the slices cover the image iff the width is a multiple of 4; otherwise `width % 4` columns are missed |
| `Renderer.TrailingColumnsLeftBlack` | src/render/mod.rs:134-147 | for a width of 1922 the slices end at 1920 and column 1921 belongs to no worker |
| `Renderer.CorrectedWorkerBounds` | src/render/mod.rs:134-147 | the corrected slices are valid, agree with the written ones except that the last runs to the image's edge |
| `Renderer.RenderMultiCorrected` | src/render/mod.rs:128-191 | with the corrected slices, the threaded renderer produces the same image as `render` |
| `Snapshot.SphereHit` | src/render.rs:30-56 | hit iff a root is selected; the record lies in the interval at the ray's point, with the unit outward normal and `front_face` iff the ray runs along it |
| `Snapshot.SphereHitAgrees` | src/render.rs:30-56 | the snapshot's sphere finds what the later sphere of any colour finds |
| `Snapshot.WorldHit` | src/render.rs:58-71 | a reported distance lies in the interval |
| `Snapshot.WorldMisses` | src/render.rs:58-71 | the world misses exactly when every sphere misses |
| `Snapshot.WorldHitIsLastNearest` | src/render.rs:58-71 | the world reports the nearest sphere hit in the interval, the last of equally near ones |
| `Snapshot.AsWrittenBounceDirection` | src/render.rs:101-103 | the direction as written is the intended direction displaced by the hit point |
| `Snapshot.AsWrittenBounceEntersSurface` | src/render.rs:101-103 | for a unit normal and unit draw, a hit point below `z = -1` sends the written bounce into the surface while the intended one leaves it |
| `Snapshot.BounceLeavesSurface` | src/render.rs:101-103 | for a unit normal and unit draw, the intended bounce never points into the surface |
| `Snapshot.CastRay` | src/render.rs:97-107 | computes the light of a path, bouncing as written or as intended; `Snapshot.CastRayStep` and `Snapshot.CastRayIsHalvedSky` state what it promises |
| `Snapshot.CastRayStep` | src/render.rs:101-104 | with bounces left and a hit, the sample is half the light of the next ray from the hit point with one bounce fewer: along `p + n + u` as written, along `n + u` as intended |
| `Snapshot.HalvedSkyIsScaled` | src/render.rs:103-106 | halving `k` times scales the sky colour by `0.5^k` |
| `Snapshot.CastRayIsHalvedSky` | src/render.rs:97-107 | for the bounce as written and as intended alike, every sample is black, or the sky seen by the path's last ray halved once per bounce, with fewer bounces than the budget |
| `Snapshot.EmptyWorldIsSky` | src/render.rs:97-107 | with bounces left, an empty world shows the sky |
| `Snapshot.ImageHeight` | src/render.rs:154-156 | a 1920-pixel-wide 16:9 image is 1080 rows high |
| `Snapshot.ImageConfig` | src/render.rs:154-157 | the image has a 16:9 shape |
| `Snapshot.SnapshotCameraIsImageCamera` | src/render.rs:154-159 | the fixed 16:9 camera is the camera the later renderer builds from the image size |
| `Snapshot.RenderImage` | src/render.rs:162-187 | for any image size and either bounce, every pixel holds the bytes of its samples |
| `Snapshot.Render` | src/render.rs:153-192 | every pixel of the 1920 x 1080 image holds the bytes of its samples, traced with the bounce as written |
| `Prototype.HitSphere` | src/main.rs:32-39 | the full-`b` test hits exactly where the half-`b` discriminant of the later sphere is positive |
| `Prototype.HitSphereCrossesSurface` | src/main.rs:32-39 | a hit needs a moving ray, and then the ray is on the sphere at two distinct distances |
| `Prototype.GrazingRayMisses` | src/main.rs:32-39 | a tangent ray touches the sphere yet the strict test reports a miss |
| `Prototype.HitSphereIgnoresDirection` | src/main.rs:32-39 | reversing the ray does not change the answer, so a sphere behind the eye is hit too |
| `Prototype.CastRay` | src/main.rs:41-49 | the colour is pure red exactly when the sphere is hit |
| `Prototype.CastRayInUnitCube` | src/main.rs:41-49 | for rays whose height lies in `[-1, 1]`, as every viewport ray's does, the colour is unit-range, red or sky |
| `Prototype.ViewAxisHitsSphere` | src/main.rs:41-49 | the ray straight ahead hits the sphere |
| `Prototype.LowerLeftRayIsFlippedCamera` | src/main.rs:57-69 | the lower-left camera is the later `Camera` with `v` measured from the bottom |
| `Prototype.ImageHeight` | src/main.rs:52-54 | a 480-pixel-wide 16:9 image is 270 rows high |
| `Prototype.PixelRedIffHit` | src/main.rs:69-72 | a pixel's bytes are pure red iff its ray hits the sphere |
| `Prototype.FillRowsFlipped` | src/main.rs:65-74 | buffer row `r` holds what loop row `height - 1 - r` computes, so the buffer stores the picture top row first |
| `Prototype.RenderImage` | src/main.rs:65-74 | the same for the prototype's pixels, at any image size |
| `Prototype.Render` | src/main.rs:51-76 | the same for the 480 x 270 image |
| `Prototype.ImageCoordFlip` | src/main.rs:67-68 | row `k` from the top sits where row `extent - 1 - k` from the bottom does |
| `Prototype.FlippedRowMatchesCamera` | src/main.rs:63-70 | the flipped store puts in buffer row `r` the ray the later camera casts for row `r` |

## Left out

- Threads, `Arc` and `Mutex` in `render_multi`. The workers are run one after the other. They write disjoint pixels (`Framebuffer.SlicesDisjoint`), so any interleaving gives the same buffer.
- The progress thread of `render_multi`. It only rewrites `frames/progress.png` every two seconds.
- PNG writing, the commented-out PPM writer, and the progress `println!`s. These are I/O.
- `Model::load_obj`'s file reading, which uses an external OBJ parser. Only its face loop is modelled (`Mesh.Faces`), over the index and position lists.
- The random number generator. Jitter and draws come from a `Sampler`.
  - `Vec3::random` and `random_vec_in_unit_sphere`'s rejection loop are not modelled.
  - `random_unit_vec` and `random_hemisphere_vec` are modelled as a function of the vector they drew.
- `f64` arithmetic, NaN and infinity. The model uses exact reals.
  - `sqrt`, `unit` and `powf` are parameters.
  - `f64::MAX` is an exact constant.
  - The `as u8` conversion of a NaN is 0, the saturating cast the source relies on.
- `u32` and `usize` overflow of `width * height * 3` and of `i * width + j`. The model uses unbounded naturals.
- Dividing by `width - 1` or `height - 1` on a one-pixel image. `Sampling.ImageCoord` divides by 1 there instead.
- `Prim.SphereRoot`: when the ray direction is zero (`a == 0`), both candidate roots are NaN in `f64` and `in_range` rejects them. The model returns no root directly.
- `Scene.SceneHitIsLastNearest`: the nearest-hit guarantee assumes rectangles whose two triangles agree on the hit distance. `Prim.ParallelogramTrianglesAgree` proves this for every `Rect::new` of a parallelogram. `Prim.RectHitNotNearest` shows that without it the rectangle's first-wins rule does not report its nearest hit.
- `Snapshot.SphereHitAgrees`: the snapshot computes `discriminant.sqrt()` twice, where the later sphere computes it once. With the square root as a function, both give the same value.

## Findings

| source | as written | input that shows it | evidently intended | confidence | as-written member | corrected member |
|---|---|---|---|---|---|---|
| src/render.rs:102-103 | the bounce target point `p + n + u` is passed as the ray's direction | unit normal `(0, 0, 1)`, draw `(1, 0, 0)`, hit point with `z < -1`: the direction points into the surface | direction `n + u` (`Snapshot.BounceDirection`, the `Intended` bounce of `Snapshot.CastRay`), which never points into the surface for a unit normal and a unit draw | not executed | `Snapshot.AsWrittenBounceEntersSurface` | `Snapshot.BounceLeavesSurface` |
| src/render/prim.rs:71-76 | the second triangle `(p2, p3, p4)` is wound against the first, so for a parallelogram the halves face opposite ways and each single-sided test culls one of them | the unit square `p1 = (0, 0, 0)`, `p2 = (1, 0, 0)`, `p3 = (0, 1, 0)`, `p4 = (1, 1, 0)` and the ray from `(0.75, 0.75, 1)` along `(0, 0, -1)`: it crosses the square at `(0.75, 0.75, 0)` yet the rectangle reports no hit | the second triangle wound `(p2, p4, p3)`, so that from the front both halves are hit | not executed | `Prim.RectMissesFarHalf` | `Prim.CorrectedRectCoversParallelogram` |
