/** The `Hittable` protocol of `src/render/mod.rs`: hit records, and the
    closest-hit scan that the scene list (`Vec<Box<dyn Hittable>>`) and the
    triangle mesh (`Model`) both perform over their children.

    The scan is generic: `hit(c, a, b)` is child `c`'s own hit test on the
    interval `[a, b]` (the ray is fixed by the caller), and `tOf` reads the
    distance out of a record. */
module Hittable {
  import opened Wrappers
  import opened Math

  datatype Material = Material(diffuse: Color)

  datatype HitRecord = HitRecord(p: Point, material: Material, n: Vec3, t: real, frontFace: bool)

  /** The distance stored in a hit record. */
  function RecordT(r: HitRecord): real {
    r.t
  }

  /** The loop's `closest`: the distance of the hit kept so far, or `t_max` before any. */
  function Bound<R>(found: Option<R>, tOf: R -> real, tMax: real): real {
    if found.Some? then tOf(found.value) else tMax
  }

  /** The loop's `temp` after it has visited the first `n` children: each child is
      asked on `[tMin, closest]`, and a child that reports a hit replaces the kept one.
      A miss from every child, each asked on the full interval, is exactly what
      leaves nothing kept. */
  function ScanPrefix<T, R>(cs: seq<T>, n: nat, hit: (T, real, real) -> Option<R>, tOf: R -> real,
                            tMin: real, tMax: real): (r: Option<R>)
    requires n <= |cs|
    ensures r.None? <==> forall i :: 0 <= i < n ==> hit(cs[i], tMin, tMax).None?
    decreases n
  {
    if n == 0 then None
    else
      var prev := ScanPrefix(cs, n - 1, hit, tOf, tMin, tMax);
      var record := hit(cs[n - 1], tMin, Bound(prev, tOf, tMax));
      if record.Some? then record else prev
  }

  /** `hit` of `Vec<Box<dyn Hittable>>` and of `Model`: the scan over all children. */
  function ClosestHit<T, R>(cs: seq<T>, hit: (T, real, real) -> Option<R>, tOf: R -> real,
                            tMin: real, tMax: real): (r: Option<R>)
    ensures r.None? <==> forall i :: 0 <= i < |cs| ==> hit(cs[i], tMin, tMax).None?
  {
    ScanPrefix(cs, |cs|, hit, tOf, tMin, tMax)
  }

  /** The `for` loop itself, with its mutable `temp` and `closest`. */
  method ClosestHitLoop<T, R>(cs: seq<T>, hit: (T, real, real) -> Option<R>, tOf: R -> real,
                              tMin: real, tMax: real) returns (temp: Option<R>)
    ensures temp == ClosestHit(cs, hit, tOf, tMin, tMax)
  {
    temp := None;
    var closest := tMax;
    for i := 0 to |cs|
      invariant temp == ScanPrefix(cs, i, hit, tOf, tMin, tMax)
      invariant closest == Bound(temp, tOf, tMax)
    {
      var record := hit(cs[i], tMin, closest);
      if record.Some? {
        closest := tOf(record.value);
        temp := record;
      }
    }
  }

  /** The child contract every `hit` keeps: a reported distance lies in the asked interval. */
  ghost predicate ReportsInInterval<T, R>(cs: seq<T>, hit: (T, real, real) -> Option<R>, tOf: R -> real, tMin: real) {
    forall i, b :: 0 <= i < |cs| && hit(cs[i], tMin, b).Some? ==> tMin <= tOf(hit(cs[i], tMin, b).value) <= b
  }

  /** `o` seen through a lower upper bound `b`: kept if its distance still fits. */
  function Restrict<R>(o: Option<R>, tOf: R -> real, b: real): Option<R> {
    if o.Some? && tOf(o.value) <= b then o else None
  }

  /** Each child reports its nearest intersection: lowering the upper bound keeps the
      reported hit when it still fits, and otherwise leaves nothing to report. */
  ghost predicate ReportsNearest<T, R>(cs: seq<T>, hit: (T, real, real) -> Option<R>, tOf: R -> real, tMin: real) {
    forall i, b, b' :: 0 <= i < |cs| && b' <= b ==> hit(cs[i], tMin, b') == Restrict(hit(cs[i], tMin, b), tOf, b')
  }

  /** The running bound never increases, stays within `t_max`, and a kept hit lies
      in `[t_min, t_max]`. */
  lemma {:induction false} ScanBoundShrinks<T, R>(cs: seq<T>, m: nat, n: nat, hit: (T, real, real) -> Option<R>,
                                                  tOf: R -> real, tMin: real, tMax: real)
    requires m <= n <= |cs|
    requires ReportsInInterval(cs, hit, tOf, tMin)
    ensures Bound(ScanPrefix(cs, n, hit, tOf, tMin, tMax), tOf, tMax)
         <= Bound(ScanPrefix(cs, m, hit, tOf, tMin, tMax), tOf, tMax) <= tMax
    ensures ScanPrefix(cs, n, hit, tOf, tMin, tMax).Some? ==>
              tMin <= tOf(ScanPrefix(cs, n, hit, tOf, tMin, tMax).value) <= tMax
    decreases n
  {
    if n == 0 {
    } else if m == n {
      ScanBoundShrinks(cs, m - 1, n - 1, hit, tOf, tMin, tMax);
    } else {
      ScanBoundShrinks(cs, m, n - 1, hit, tOf, tMin, tMax);
    }
  }

  /** When every child reports its nearest in-interval hit, the scan returns the
      nearest hit over all children (each asked on the full interval); of several at
      the same distance it returns the last, because `in_range` is inclusive. The
      returned `k` is the index of the winning child. */
  lemma {:induction false} ScanIsLastNearest<T, R>(cs: seq<T>, n: nat, hit: (T, real, real) -> Option<R>,
                                                   tOf: R -> real, tMin: real, tMax: real) returns (k: nat)
    requires n <= |cs|
    requires ReportsInInterval(cs, hit, tOf, tMin)
    requires ReportsNearest(cs, hit, tOf, tMin)
    ensures ScanPrefix(cs, n, hit, tOf, tMin, tMax).Some? ==>
              && k < n
              && hit(cs[k], tMin, tMax) == ScanPrefix(cs, n, hit, tOf, tMin, tMax)
              && (forall i :: 0 <= i < n && hit(cs[i], tMin, tMax).Some? ==>
                    tOf(hit(cs[k], tMin, tMax).value) <= tOf(hit(cs[i], tMin, tMax).value))
              && (forall i :: k < i < n && hit(cs[i], tMin, tMax).Some? ==>
                    tOf(hit(cs[k], tMin, tMax).value) < tOf(hit(cs[i], tMin, tMax).value))
    decreases n
  {
    if n == 0 {
      return 0;
    }
    var prev := ScanPrefix(cs, n - 1, hit, tOf, tMin, tMax);
    var last := hit(cs[n - 1], tMin, tMax);
    var k' := ScanIsLastNearest(cs, n - 1, hit, tOf, tMin, tMax);
    ScanBoundShrinks(cs, n - 1, n - 1, hit, tOf, tMin, tMax);
    var bound := Bound(prev, tOf, tMax);
    assert hit(cs[n - 1], tMin, bound) == Restrict(last, tOf, bound);
    if Restrict(last, tOf, bound).Some? {
      k := n - 1;
      if prev.Some? {
        assert tOf(last.value) <= tOf(hit(cs[k'], tMin, tMax).value);
      }
    } else {
      k := k';
    }
  }

  /** `ScanIsLastNearest` for the whole child list. */
  lemma ClosestHitIsLastNearest<T, R>(cs: seq<T>, hit: (T, real, real) -> Option<R>,
                                      tOf: R -> real, tMin: real, tMax: real) returns (k: nat)
    requires ReportsInInterval(cs, hit, tOf, tMin)
    requires ReportsNearest(cs, hit, tOf, tMin)
    ensures ClosestHit(cs, hit, tOf, tMin, tMax).Some? ==>
              && k < |cs|
              && hit(cs[k], tMin, tMax) == ClosestHit(cs, hit, tOf, tMin, tMax)
              && (forall i :: 0 <= i < |cs| && hit(cs[i], tMin, tMax).Some? ==>
                    tOf(hit(cs[k], tMin, tMax).value) <= tOf(hit(cs[i], tMin, tMax).value))
              && (forall i :: k < i < |cs| && hit(cs[i], tMin, tMax).Some? ==>
                    tOf(hit(cs[k], tMin, tMax).value) < tOf(hit(cs[i], tMin, tMax).value))
  {
    k := ScanIsLastNearest(cs, |cs|, hit, tOf, tMin, tMax);
  }

  /** A hit the scan returns lies in `[t_min, t_max]`, when every child keeps to its interval. */
  lemma ClosestHitInRange<T, R>(cs: seq<T>, hit: (T, real, real) -> Option<R>,
                                tOf: R -> real, tMin: real, tMax: real)
    requires ReportsInInterval(cs, hit, tOf, tMin)
    ensures ClosestHit(cs, hit, tOf, tMin, tMax).Some? ==>
              tMin <= tOf(ClosestHit(cs, hit, tOf, tMin, tMax).value) <= tMax
  {
    ScanBoundShrinks(cs, |cs|, |cs|, hit, tOf, tMin, tMax);
  }

  /** Whatever the children do, a returned hit is one that some child reported. */
  lemma {:induction false} ScanReturnsAChildHit<T, R>(cs: seq<T>, n: nat, hit: (T, real, real) -> Option<R>,
                                                      tOf: R -> real, tMin: real, tMax: real) returns (k: nat, b: real)
    requires n <= |cs|
    ensures ScanPrefix(cs, n, hit, tOf, tMin, tMax).Some? ==>
              k < n && hit(cs[k], tMin, b) == ScanPrefix(cs, n, hit, tOf, tMin, tMax)
    decreases n
  {
    if n == 0 {
      return 0, tMax;
    }
    var prev := ScanPrefix(cs, n - 1, hit, tOf, tMin, tMax);
    var bound := Bound(prev, tOf, tMax);
    if hit(cs[n - 1], tMin, bound).Some? {
      k, b := n - 1, bound;
    } else {
      k, b := ScanReturnsAChildHit(cs, n - 1, hit, tOf, tMin, tMax);
    }
  }

  /** The scan keeps the child contract itself: asked again with a lower upper bound
      `b'`, it returns the same hit if that still fits and nothing otherwise. So a
      list of children (such as a mesh) can in turn be a child of another list. */
  lemma {:induction false} ScanRestrict<T, R>(cs: seq<T>, n: nat, hit: (T, real, real) -> Option<R>,
                                              tOf: R -> real, tMin: real, b: real, b': real)
    requires n <= |cs| && b' <= b
    requires ReportsInInterval(cs, hit, tOf, tMin)
    requires ReportsNearest(cs, hit, tOf, tMin)
    ensures ScanPrefix(cs, n, hit, tOf, tMin, b') == Restrict(ScanPrefix(cs, n, hit, tOf, tMin, b), tOf, b')
    decreases n
  {
    if n > 0 {
      ScanRestrict(cs, n - 1, hit, tOf, tMin, b, b');
      ScanBoundShrinks(cs, n - 1, n - 1, hit, tOf, tMin, b);
      ScanBoundShrinks(cs, n, n, hit, tOf, tMin, b);
      var prev := ScanPrefix(cs, n - 1, hit, tOf, tMin, b);
      var bound := Bound(prev, tOf, b);
      var bound' := Bound(ScanPrefix(cs, n - 1, hit, tOf, tMin, b'), tOf, b');
      var full := hit(cs[n - 1], tMin, b);
      assert hit(cs[n - 1], tMin, bound) == Restrict(full, tOf, bound);
      assert hit(cs[n - 1], tMin, bound') == Restrict(full, tOf, bound');
    }
  }

  /** `ScanRestrict` for the whole child list, together with the interval contract:
      the aggregate satisfies both contracts it asks of its children. */
  lemma ClosestHitRestrict<T, R>(cs: seq<T>, hit: (T, real, real) -> Option<R>,
                                 tOf: R -> real, tMin: real, b: real, b': real)
    requires b' <= b
    requires ReportsInInterval(cs, hit, tOf, tMin)
    requires ReportsNearest(cs, hit, tOf, tMin)
    ensures ClosestHit(cs, hit, tOf, tMin, b') == Restrict(ClosestHit(cs, hit, tOf, tMin, b), tOf, b')
    ensures ClosestHit(cs, hit, tOf, tMin, b).Some? ==> tMin <= tOf(ClosestHit(cs, hit, tOf, tMin, b).value) <= b
  {
    ScanRestrict(cs, |cs|, hit, tOf, tMin, b, b');
    ClosestHitInRange(cs, hit, tOf, tMin, b);
  }

  /** Scanning children whose hits are the images under `f` of another list's hits,
      with the same distances, gives the image under `f` of that list's scan. */
  lemma {:induction false} ScanMap<T, R, T', R'>(cs: seq<T>, cs': seq<T'>, n: nat,
                                                 hit: (T, real, real) -> Option<R>, hit': (T', real, real) -> Option<R'>,
                                                 tOf: R -> real, tOf': R' -> real, f: R -> R', tMin: real, tMax: real)
    requires n <= |cs| == |cs'|
    requires forall r :: tOf'(f(r)) == tOf(r)
    requires forall i, b :: 0 <= i < |cs| ==> hit'(cs'[i], tMin, b) == MapOption(hit(cs[i], tMin, b), f)
    ensures ScanPrefix(cs', n, hit', tOf', tMin, tMax) == MapOption(ScanPrefix(cs, n, hit, tOf, tMin, tMax), f)
    decreases n
  {
    if n > 0 {
      ScanMap(cs, cs', n - 1, hit, hit', tOf, tOf', f, tMin, tMax);
    }
  }
}
