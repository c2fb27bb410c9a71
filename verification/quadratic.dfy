/** Facts about the half-b quadratic `a t^2 + 2 h t + c` whose roots the sphere
    test of `src/render/prim.rs` computes as `(-h -+ sqrt(h^2 - a c)) / a`. */
module Quadratic {
  /** `|o + t d|^2 == |d|^2 t^2 + 2 (o.d) t + |o|^2`, written out over coordinates;
      `q` is the point `o + t d`. */
  lemma ExpandSquare(ox: real, oy: real, oz: real, dx: real, dy: real, dz: real, t: real,
                     qx: real, qy: real, qz: real)
    requires qx == ox + t * dx && qy == oy + t * dy && qz == oz + t * dz
    ensures qx * qx + qy * qy + qz * qz
              == (dx * dx + dy * dy + dz * dz) * (t * t) + 2.0 * (ox * dx + oy * dy + oz * dz) * t
                 + (ox * ox + oy * oy + oz * oz)
  {
    assert qx * qx == (ox + t * dx) * (ox + t * dx);
    assert qy * qy == (oy + t * dy) * (oy + t * dy);
    assert qz * qz == (oz + t * dz) * (oz + t * dz);
  }

  /** A root of the half-b quadratic: with `s^2 == h^2 - a c` and `a t == -h -+ s`,
      `a t^2 + 2 h t + c == 0`. */
  lemma RootIsZero(a: real, h: real, c: real, s: real, t: real)
    requires a != 0.0
    requires s * s == h * h - a * c
    requires a * t == -h - s || a * t == -h + s
    ensures a * (t * t) + 2.0 * h * t + c == 0.0
  {
    var q := a * (t * t) + 2.0 * h * t + c;
    assert a * q == (a * t) * (a * t) + 2.0 * h * (a * t) + a * c;
    assert (a * t + h) * (a * t + h) == s * s;
    assert a * q == 0.0;
  }

  /** Conversely every zero of the quadratic is one of the two roots. */
  lemma ZeroIsRoot(a: real, h: real, c: real, s: real, t: real)
    requires a != 0.0
    requires s * s == h * h - a * c
    requires a * (t * t) + 2.0 * h * t + c == 0.0
    ensures a * t == -h - s || a * t == -h + s
  {
    var w := a * t + h;
    assert w * w == a * (a * (t * t) + 2.0 * h * t + c) + h * h - a * c;
    assert (w - s) * (w + s) == 0.0;
  }

  /** Solving `a t == n` for `t`. */
  lemma DivRoot(a: real, n: real, t: real)
    requires a != 0.0
    ensures a * t == n <==> t == n / a
  {
  }

  /** With `a > 0` and a non-negative square root, the `-` root is the smaller. */
  lemma RootsOrdered(a: real, h: real, s: real)
    requires a > 0.0 && s >= 0.0
    ensures (-h - s) / a <= (-h + s) / a
  {
    assert (-h + s) / a - (-h - s) / a == (2.0 * s) / a;
  }

  /** A quadratic with a real zero has a non-negative discriminant. */
  lemma DiscNonNeg(a: real, h: real, c: real, t: real)
    requires a * (t * t) + 2.0 * h * t + c == 0.0
    ensures h * h - a * c >= 0.0
  {
    var w := a * t + h;
    assert w * w == a * (a * (t * t) + 2.0 * h * t + c) + h * h - a * c;
  }
}
