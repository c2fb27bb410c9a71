/** The linear algebra behind the Möller–Trumbore triangle test of
    `src/render/prim.rs`: Cramer's rule for the 3x3 system
    `o - p1 == u e1 + v e2 - t d`, solved with `pvec = d x e2`,
    `qvec = (o - p1) x e1` and `det = e1 . pvec`.

    Polynomial identities are proved one coordinate at a time over plain reals
    and then lifted to `Vec3`. */
module Cramer {
  import opened Math

  /** `u a + v b - t c`. */
  function Combine(u: real, a: Vec3, v: real, b: Vec3, t: real, c: Vec3): Vec3 {
    Sub(Add(Scale(u, a), Scale(v, b)), Scale(t, c))
  }

  /** The first coordinate of Cramer's rule before the division by `det`, written
      out over reals; `CramerY` and `CramerZ` use its cyclic rotations. */
  lemma CramerComponent(e1x: real, e1y: real, e1z: real, e2x: real, e2y: real, e2z: real,
                        dx: real, dy: real, dz: real, tx: real, ty: real, tz: real)
    ensures
      var pvx, pvy, pvz := dy * e2z - dz * e2y, dz * e2x - dx * e2z, dx * e2y - dy * e2x;
      var qvx, qvy, qvz := ty * e1z - tz * e1y, tz * e1x - tx * e1z, tx * e1y - ty * e1x;
      (e1x * pvx + e1y * pvy + e1z * pvz) * tx
        == (tx * pvx + ty * pvy + tz * pvz) * e1x + (dx * qvx + dy * qvy + dz * qvz) * e2x
           - (e2x * qvx + e2y * qvy + e2z * qvz) * dx
  {
  }

  /** `det * tvec == (tvec . pvec) e1 + (d . qvec) e2 - (e2 . qvec) d`, by coordinate. */
  lemma CramerX(e1: Vec3, e2: Vec3, d: Vec3, tv: Vec3)
    ensures Dot(e1, Cross(d, e2)) * tv.x
              == Dot(tv, Cross(d, e2)) * e1.x + Dot(d, Cross(tv, e1)) * e2.x - Dot(e2, Cross(tv, e1)) * d.x
  {
    CramerComponent(e1.x, e1.y, e1.z, e2.x, e2.y, e2.z, d.x, d.y, d.z, tv.x, tv.y, tv.z);
  }
  lemma CramerY(e1: Vec3, e2: Vec3, d: Vec3, tv: Vec3)
    ensures Dot(e1, Cross(d, e2)) * tv.y
              == Dot(tv, Cross(d, e2)) * e1.y + Dot(d, Cross(tv, e1)) * e2.y - Dot(e2, Cross(tv, e1)) * d.y
  {
    CramerComponent(e1.y, e1.z, e1.x, e2.y, e2.z, e2.x, d.y, d.z, d.x, tv.y, tv.z, tv.x);
  }
  lemma CramerZ(e1: Vec3, e2: Vec3, d: Vec3, tv: Vec3)
    ensures Dot(e1, Cross(d, e2)) * tv.z
              == Dot(tv, Cross(d, e2)) * e1.z + Dot(d, Cross(tv, e1)) * e2.z - Dot(e2, Cross(tv, e1)) * d.z
  {
    CramerComponent(e1.z, e1.x, e1.y, e2.z, e2.x, e2.y, d.z, d.x, d.y, tv.z, tv.x, tv.y);
  }

  /** One coordinate of Cramer's rule divided through by a non-zero `det`, with the
      division written as the source does it: a multiplication by `1 / det`. */
  lemma DivideThrough(det: real, tv: real, a: real, b: real, c: real, e1: real, e2: real, d: real)
    requires det != 0.0
    requires det * tv == a * e1 + b * e2 - c * d
    ensures tv == (a * (1.0 / det)) * e1 + (b * (1.0 / det)) * e2 - (c * (1.0 / det)) * d
  {
    var k := 1.0 / det;
    assert det * k == 1.0;
    assert tv == (det * k) * tv;
    assert (det * k) * tv == k * (det * tv);
  }

  /** Existence: when `det != 0`, the three quotients solve the system, i.e.
      `tvec == u e1 + v e2 - t d` for `u = (tvec . pvec) / det`,
      `v = (d . qvec) / det` and `t = (e2 . qvec) / det`. */
  lemma Invert(e1: Vec3, e2: Vec3, d: Vec3, tv: Vec3)
    requires Dot(e1, Cross(d, e2)) != 0.0
    ensures var k := 1.0 / Dot(e1, Cross(d, e2));
            tv == Combine(Dot(tv, Cross(d, e2)) * k, e1, Dot(d, Cross(tv, e1)) * k, e2, Dot(e2, Cross(tv, e1)) * k, d)
  {
    var det, a, b, c := Dot(e1, Cross(d, e2)), Dot(tv, Cross(d, e2)), Dot(d, Cross(tv, e1)), Dot(e2, Cross(tv, e1));
    var k := 1.0 / det;
    var r := Combine(a * k, e1, b * k, e2, c * k, d);
    InvertX(e1, e2, d, tv);
    InvertY(e1, e2, d, tv);
    InvertZ(e1, e2, d, tv);
    assert tv == Vec3(r.x, r.y, r.z);
  }

  /** One coordinate of `Invert`: Cramer's rule divided through by `det`. */
  lemma InvertX(e1: Vec3, e2: Vec3, d: Vec3, tv: Vec3)
    requires Dot(e1, Cross(d, e2)) != 0.0
    ensures var k := 1.0 / Dot(e1, Cross(d, e2));
            tv.x == Combine(Dot(tv, Cross(d, e2)) * k, e1, Dot(d, Cross(tv, e1)) * k, e2, Dot(e2, Cross(tv, e1)) * k, d).x
  {
    CramerX(e1, e2, d, tv);
    DivideThrough(Dot(e1, Cross(d, e2)), tv.x, Dot(tv, Cross(d, e2)), Dot(d, Cross(tv, e1)), Dot(e2, Cross(tv, e1)), e1.x, e2.x, d.x);
  }

  lemma InvertY(e1: Vec3, e2: Vec3, d: Vec3, tv: Vec3)
    requires Dot(e1, Cross(d, e2)) != 0.0
    ensures var k := 1.0 / Dot(e1, Cross(d, e2));
            tv.y == Combine(Dot(tv, Cross(d, e2)) * k, e1, Dot(d, Cross(tv, e1)) * k, e2, Dot(e2, Cross(tv, e1)) * k, d).y
  {
    CramerY(e1, e2, d, tv);
    DivideThrough(Dot(e1, Cross(d, e2)), tv.y, Dot(tv, Cross(d, e2)), Dot(d, Cross(tv, e1)), Dot(e2, Cross(tv, e1)), e1.y, e2.y, d.y);
  }

  lemma InvertZ(e1: Vec3, e2: Vec3, d: Vec3, tv: Vec3)
    requires Dot(e1, Cross(d, e2)) != 0.0
    ensures var k := 1.0 / Dot(e1, Cross(d, e2));
            tv.z == Combine(Dot(tv, Cross(d, e2)) * k, e1, Dot(d, Cross(tv, e1)) * k, e2, Dot(e2, Cross(tv, e1)) * k, d).z
  {
    CramerZ(e1, e2, d, tv);
    DivideThrough(Dot(e1, Cross(d, e2)), tv.z, Dot(tv, Cross(d, e2)), Dot(d, Cross(tv, e1)), Dot(e2, Cross(tv, e1)), e1.z, e2.z, d.z);
  }

  /** The dot product is linear in its second argument. */
  lemma DotCombine(u: real, a: Vec3, v: real, b: Vec3, t: real, c: Vec3, w: Vec3)
    ensures Dot(w, Combine(u, a, v, b, t, c)) == u * Dot(w, a) + v * Dot(w, b) - t * Dot(w, c)
  {
  }

  /** The cross product is linear in its first argument. */
  lemma CrossCombine(u: real, a: Vec3, v: real, b: Vec3, t: real, c: Vec3, w: Vec3)
    ensures Cross(Combine(u, a, v, b, t, c), w) == Combine(u, Cross(a, w), v, Cross(b, w), t, Cross(c, w))
  {
    CrossCombineX(u, a, v, b, t, c, w);
    CrossCombineY(u, a, v, b, t, c, w);
    CrossCombineZ(u, a, v, b, t, c, w);
  }

  lemma CrossCombineX(u: real, a: Vec3, v: real, b: Vec3, t: real, c: Vec3, w: Vec3)
    ensures Cross(Combine(u, a, v, b, t, c), w).x == Combine(u, Cross(a, w), v, Cross(b, w), t, Cross(c, w)).x
  {
    var m := Combine(u, a, v, b, t, c);
    BilinearComponent(u, v, t, a.y, a.z, b.y, b.z, c.y, c.z, w.y, w.z, m.y, m.z,
                      Cross(a, w).x, Cross(b, w).x, Cross(c, w).x);
  }

  lemma CrossCombineY(u: real, a: Vec3, v: real, b: Vec3, t: real, c: Vec3, w: Vec3)
    ensures Cross(Combine(u, a, v, b, t, c), w).y == Combine(u, Cross(a, w), v, Cross(b, w), t, Cross(c, w)).y
  {
    var m := Combine(u, a, v, b, t, c);
    BilinearComponent(u, v, t, a.z, a.x, b.z, b.x, c.z, c.x, w.z, w.x, m.z, m.x,
                      Cross(a, w).y, Cross(b, w).y, Cross(c, w).y);
  }

  lemma CrossCombineZ(u: real, a: Vec3, v: real, b: Vec3, t: real, c: Vec3, w: Vec3)
    ensures Cross(Combine(u, a, v, b, t, c), w).z == Combine(u, Cross(a, w), v, Cross(b, w), t, Cross(c, w)).z
  {
    var m := Combine(u, a, v, b, t, c);
    BilinearComponent(u, v, t, a.x, a.y, b.x, b.y, c.x, c.y, w.x, w.y, m.x, m.y,
                      Cross(a, w).z, Cross(b, w).z, Cross(c, w).z);
  }

  /** One coordinate of `CrossCombine`. */
  lemma BilinearComponent(u: real, v: real, t: real, aY: real, aZ: real, bY: real, bZ: real,
                          cY: real, cZ: real, wY: real, wZ: real, mY: real, mZ: real, pa: real, pb: real, pc: real)
    requires mY == u * aY + v * bY - t * cY && mZ == u * aZ + v * bZ - t * cZ
    requires pa == aY * wZ - aZ * wY && pb == bY * wZ - bZ * wY && pc == cY * wZ - cZ * wY
    ensures mY * wZ - mZ * wY == u * pa + v * pb - t * pc
  {
    assert mY * wZ == (u * aY + v * bY - t * cY) * wZ;
    assert mZ * wY == (u * aZ + v * bZ - t * cZ) * wY;
    assert u * pa == u * (aY * wZ - aZ * wY);
    assert v * pb == v * (bY * wZ - bZ * wY);
    assert t * pc == t * (cY * wZ - cZ * wY);
  }

  /** Uniqueness: for any solution `tvec == u e1 + v e2 - t d` the three dot
      products are `u det`, `v det` and `t det`, so the quotients of `Invert`
      give back `(u, v, t)`. */
  lemma Solve(e1: Vec3, e2: Vec3, d: Vec3, u: real, v: real, t: real)
    ensures var tv := Combine(u, e1, v, e2, t, d);
            && Dot(tv, Cross(d, e2)) == u * Dot(e1, Cross(d, e2))
            && Dot(d, Cross(tv, e1)) == v * Dot(e1, Cross(d, e2))
            && Dot(e2, Cross(tv, e1)) == t * Dot(e1, Cross(d, e2))
  {
    var tv := Combine(u, e1, v, e2, t, d);
    var pv := Cross(d, e2);
    CrossPerpendicular(d, e2);
    CrossPerpendicular(e2, e1);
    CrossPerpendicular(d, e1);
    DotCombine(u, e1, v, e2, t, d, pv);
    DotSymmetric(tv, pv);
    DotSymmetric(e1, pv); DotSymmetric(e2, pv); DotSymmetric(d, pv);
    CrossCombine(u, e1, v, e2, t, d, e1);
    assert Cross(e1, e1) == Origin;
    DotCombine(u, Cross(e1, e1), v, Cross(e2, e1), t, Cross(d, e1), d);
    DotCombine(u, Cross(e1, e1), v, Cross(e2, e1), t, Cross(d, e1), e2);
    DotSymmetric(d, Cross(d, e1)); DotSymmetric(e2, Cross(e2, e1));
    TripleProductCyclic(e1, d, e2);
    CrossAntiCommutative(d, e1);
    assert Dot(e2, Cross(d, e1)) == -Dot(e2, Cross(e1, d));
  }

  /** Multiplying `x det` by `1 / det` gives back `x`. */
  lemma CancelDet(det: real, x: real)
    requires det != 0.0
    ensures (x * det) * (1.0 / det) == x
  {
    var k := 1.0 / det;
    assert det * k == 1.0;
    assert (x * det) * k == x * (det * k);
  }
}
