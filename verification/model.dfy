/** The triangle mesh of `src/render/model.rs`: building its faces from the index
    and position lists of a loaded OBJ file, moving it, and hitting it. */
module Mesh {
  import opened Wrappers
  import opened Math
  import opened Hittable
  import opened Prim

  datatype Model = Model(tris: seq<Tri>)

  /** The colour every loaded face gets, `rgb(105, 72, 45)`. */
  const MeshColor: Color := Rgb(105, 72, 45)

  /** The face `load_obj` builds from three vertices: `Tri::new` with the unit normal
      of `(v2 - v1) x (v3 - v1)` and `MeshColor`. */
  function MeshFace(v1: Point, v2: Point, v3: Point, num: Numerics): Tri {
    NewTri(v1, v2, v3, num.unit(Cross(Sub(v2, v1), Sub(v3, v1))), MeshColor)
  }

  /** Vertex `idx` of the flat position list, `positions[3 idx .. 3 idx + 2]`; `None`
      where the source indexes past the end and panics. */
  function Vertex(positions: seq<real>, idx: nat): Option<Point> {
    if 3 * idx + 2 < |positions| then Some(Vec3(positions[3 * idx], positions[3 * idx + 1], positions[3 * idx + 2]))
    else None
  }

  /** Every index refers to a vertex of the position list. */
  predicate IndicesInRange(indices: seq<nat>, positions: seq<real>) {
    forall k :: 0 <= k < |indices| ==> 3 * indices[k] + 2 < |positions|
  }

  /** The face loop of `load_obj`: one face per chunk of three indices. A short last
      chunk (`f[1]` or `f[2]` out of bounds) and an index past the position list
      both panic in the source; both give `None` here. */
  function Faces(indices: seq<nat>, positions: seq<real>, num: Numerics): (r: Option<seq<Tri>>)
    ensures r.Some? <==> |indices| % 3 == 0 && IndicesInRange(indices, positions)
    ensures r.Some? ==> |r.value| == |indices| / 3
    ensures r.Some? ==>
              forall f :: 0 <= f < |r.value| ==>
                && Vertex(positions, indices[3 * f]) == Some(r.value[f].p1)
                && Vertex(positions, indices[3 * f + 1]) == Some(r.value[f].p2)
                && Vertex(positions, indices[3 * f + 2]) == Some(r.value[f].p3)
                && r.value[f] == MeshFace(r.value[f].p1, r.value[f].p2, r.value[f].p3, num)
    decreases |indices|
  {
    if |indices| == 0 then Some([])
    else if |indices| < 3 then None
    else
      var v1, v2, v3 := Vertex(positions, indices[0]), Vertex(positions, indices[1]), Vertex(positions, indices[2]);
      var rest := Faces(indices[3..], positions, num);
      if v1.None? || v2.None? || v3.None? || rest.None? then None
      else
        assert forall k :: 3 <= k < |indices| ==> indices[k] == indices[3..][k - 3];
        Some([MeshFace(v1.value, v2.value, v3.value, num)] + rest.value)
  }

  /** `Model::translate`: every triangle moved by `offset`, in the same order. */
  function Translate(m: Model, offset: Vec3): (r: Model)
    ensures |r.tris| == |m.tris|
    ensures forall i :: 0 <= i < |m.tris| ==> r.tris[i] == TranslateTri(m.tris[i], offset)
  {
    Model(seq(|m.tris|, i requires 0 <= i < |m.tris| => TranslateTri(m.tris[i], offset)))
  }

  /** Translating by `a` and then by `b` is translating by `a + b`. */
  lemma TranslateCompose(m: Model, a: Vec3, b: Vec3)
    ensures Translate(Translate(m, a), b) == Translate(m, Add(a, b))
  {
    forall i | 0 <= i < |m.tris|
      ensures Translate(Translate(m, a), b).tris[i] == Translate(m, Add(a, b)).tris[i]
    {
      TranslateTriCompose(m.tris[i], a, b);
    }
  }

  /** A triangle's own hit test on the fixed ray. */
  function TriHitOn(ray: Ray): (Tri, real, real) -> Option<HitRecord> {
    (tri, a, b) => TriHit(tri, ray, a, b)
  }

  /** `Hittable for Model`: the closest-hit scan over the triangles. */
  function Hit(m: Model, ray: Ray, tMin: real, tMax: real): (r: Option<HitRecord>)
    ensures r.None? <==> forall i :: 0 <= i < |m.tris| ==> TriHit(m.tris[i], ray, tMin, tMax).None?
  {
    ClosestHit(m.tris, TriHitOn(ray), RecordT, tMin, tMax)
  }

  /** Triangles keep both child contracts of the scan. */
  lemma TrianglesKeepContract(tris: seq<Tri>, ray: Ray, tMin: real)
    ensures ReportsInInterval(tris, TriHitOn(ray), RecordT, tMin)
    ensures ReportsNearest(tris, TriHitOn(ray), RecordT, tMin)
  {
    forall i, b, b' | 0 <= i < |tris| && b' <= b
      ensures TriHitOn(ray)(tris[i], tMin, b') == Restrict(TriHitOn(ray)(tris[i], tMin, b), RecordT, b')
    {
      TriHitRestrict(tris[i], ray, tMin, b, b');
    }
  }

  /** The mesh reports the nearest triangle hit in `[t_min, t_max]`, and of several
      at the same distance the one of the last triangle. */
  lemma HitIsLastNearest(m: Model, ray: Ray, tMin: real, tMax: real) returns (k: nat)
    ensures Hit(m, ray, tMin, tMax).Some? ==>
              && k < |m.tris|
              && Hit(m, ray, tMin, tMax) == TriHit(m.tris[k], ray, tMin, tMax)
              && tMin <= Hit(m, ray, tMin, tMax).value.t <= tMax
              && (forall i :: 0 <= i < |m.tris| && TriHit(m.tris[i], ray, tMin, tMax).Some? ==>
                    Hit(m, ray, tMin, tMax).value.t <= TriHit(m.tris[i], ray, tMin, tMax).value.t)
              && (forall i :: k < i < |m.tris| && TriHit(m.tris[i], ray, tMin, tMax).Some? ==>
                    Hit(m, ray, tMin, tMax).value.t < TriHit(m.tris[i], ray, tMin, tMax).value.t)
  {
    TrianglesKeepContract(m.tris, ray, tMin);
    k := ClosestHitIsLastNearest(m.tris, TriHitOn(ray), RecordT, tMin, tMax);
    ClosestHitInRange(m.tris, TriHitOn(ray), RecordT, tMin, tMax);
  }

  /** The mesh keeps the child contract itself, so it can sit in a scene. */
  lemma HitRestrict(m: Model, ray: Ray, tMin: real, b: real, b': real)
    requires b' <= b
    ensures Hit(m, ray, tMin, b') == Restrict(Hit(m, ray, tMin, b), RecordT, b')
    ensures Hit(m, ray, tMin, b).Some? ==> tMin <= Hit(m, ray, tMin, b).value.t <= b
  {
    TrianglesKeepContract(m.tris, ray, tMin);
    ClosestHitRestrict(m.tris, TriHitOn(ray), RecordT, tMin, b, b');
  }

  /** A hit record moved by `offset`. */
  function Shift(offset: Vec3): HitRecord -> HitRecord {
    (r: HitRecord) => r.(p := Add(r.p, offset))
  }

  /** Moving the mesh and the ray's origin by the same offset moves the hit point by
      that offset and changes nothing else. */
  lemma TranslateHit(m: Model, ray: Ray, offset: Vec3, tMin: real, tMax: real)
    ensures Hit(Translate(m, offset), Ray(Add(ray.origin, offset), ray.direction), tMin, tMax)
              == MapOption(Hit(m, ray, tMin, tMax), Shift(offset))
  {
    var moved, ray' := Translate(m, offset), Ray(Add(ray.origin, offset), ray.direction);
    forall i, b | 0 <= i < |m.tris|
      ensures TriHitOn(ray')(moved.tris[i], tMin, b) == MapOption(TriHitOn(ray)(m.tris[i], tMin, b), Shift(offset))
    {
      TriHitTranslate(m.tris[i], ray, offset, tMin, b);
    }
    ScanMap(m.tris, moved.tris, |m.tris|, TriHitOn(ray), TriHitOn(ray'), RecordT, RecordT, Shift(offset), tMin, tMax);
  }
}
