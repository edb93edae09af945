/** `Plane.ts`: a plane through three anchor points with a unit normal and offset,
    the orientation test `position`, the coplanarity test `inPlane`, the local
    (u, v) coordinates `toUV` / `fromUV` and the projection `project`. */
module Planes {
  import opened Vectors
  import opened Utils
  import opened Rays

  datatype Position = SideA | SideB | Coplanar

  /** The relative tolerance of `inPlane` (1e-12). */
  const InPlaneTol: real := 0.000000000001

  /** The threshold under which `fromPointAndNormal` treats a normal component as zero (1e-3). */
  const ComponentTol: real := 0.001

  /** `orient3dfast(pa, pb, pc, pd)`: the determinant of the rows `pa - pd`, `pb - pd`, `pc - pd`. */
  function Orient3d(pa: V3, pb: V3, pc: V3, pd: V3): real {
    var adx, bdx, cdx := pa.x - pd.x, pb.x - pd.x, pc.x - pd.x;
    var ady, bdy, cdy := pa.y - pd.y, pb.y - pd.y, pc.y - pd.y;
    var adz, bdz, cdz := pa.z - pd.z, pb.z - pd.z, pc.z - pd.z;
    adx * (bdy * cdz - bdz * cdy) + bdx * (cdy * adz - cdz * ady) + cdx * (ady * bdz - adz * bdy)
  }

  /** The sign test of `position`: negative is side A, positive side B, zero coplanar. */
  function Classify(val: real): Position {
    if val < 0.0 then SideA else if val > 0.0 then SideB else Coplanar
  }

  /** Side A and side B exchanged, coplanar kept. */
  function Swapped(pos: Position): Position {
    match pos
    case SideA => SideB
    case SideB => SideA
    case Coplanar => Coplanar
  }

  /** The orientation determinant is minus the triangle normal dotted with `pd - pa`. */
  lemma Orient3dNormal(pa: V3, pb: V3, pc: V3, pd: V3)
    ensures Orient3d(pa, pb, pc, pd) == -Dot(TriNormal(pa, pb, pc), Sub(pd, pa))
  {
  }

  /** Each anchor of the triangle is classified coplanar. */
  lemma AnchorsCoplanar(pa: V3, pb: V3, pc: V3)
    ensures Classify(Orient3d(pa, pb, pc, pa)) == Coplanar
    ensures Classify(Orient3d(pa, pb, pc, pb)) == Coplanar
    ensures Classify(Orient3d(pa, pb, pc, pc)) == Coplanar
  {
    Orient3dNormal(pa, pb, pc, pa);
    Orient3dNormal(pa, pb, pc, pb);
    Orient3dNormal(pa, pb, pc, pc);
    CrossOrth(Sub(pb, pa), Sub(pc, pa));
  }

  /** Exchanging the second and third anchors swaps side A and side B for every point. */
  lemma FlipSwapsSides(pa: V3, pb: V3, pc: V3, pd: V3)
    ensures Orient3d(pa, pc, pb, pd) == -Orient3d(pa, pb, pc, pd)
    ensures Classify(Orient3d(pa, pc, pb, pd)) == Swapped(Classify(Orient3d(pa, pb, pc, pd)))
  {
    Orient3dNormal(pa, pb, pc, pd);
    Orient3dNormal(pa, pc, pb, pd);
    CrossAnti(Sub(pb, pa), Sub(pc, pa));
  }

  /** With collinear anchors every point is classified coplanar. */
  lemma DegenerateAllCoplanar(pa: V3, pb: V3, pc: V3, pd: V3)
    requires TriNormal(pa, pb, pc) == Zero3
    ensures Classify(Orient3d(pa, pb, pc, pd)) == Coplanar
  {
    Orient3dNormal(pa, pb, pc, pd);
  }

  /** The unit normal `set` stores: the normalized cross product of the two edges from `p1`. */
  function UnitNormal(lib: VecLib, p1: V3, p2: V3, p3: V3): V3 {
    Normalize(lib, TriNormal(p1, p2, p3))
  }

  /** The offset `m_d = -(normal . p1)`, written out as `set` computes it. */
  function Offset(normal: V3, p1: V3): real {
    -(normal.x * p1.x) - normal.y * p1.y - normal.z * p1.z
  }

  /** The stored normal, normalized or (for collinear anchors) left zero, is orthogonal to both edges. */
  lemma NormalizedNormalOrth(lib: VecLib, p1: V3, p2: V3, p3: V3)
    ensures Dot(UnitNormal(lib, p1, p2, p3), Sub(p2, p1)) == 0.0
    ensures Dot(UnitNormal(lib, p1, p2, p3), Sub(p3, p1)) == 0.0
  {
    var n := TriNormal(p1, p2, p3);
    CrossOrth(Sub(p2, p1), Sub(p3, p1));
    if Norm(lib, n) != 0.0 {
      ScaleDot(n, 1.0 / Norm(lib, n), Sub(p2, p1));
      ScaleDot(n, 1.0 / Norm(lib, n), Sub(p3, p1));
    }
  }

  /** The plane equation `normal . q + d == 0` holds at all three anchors. */
  lemma AnchorsOnPlane(lib: VecLib, p1: V3, p2: V3, p3: V3)
    ensures var n := UnitNormal(lib, p1, p2, p3);
      && Dot(n, p1) + Offset(n, p1) == 0.0
      && Dot(n, p2) + Offset(n, p1) == 0.0
      && Dot(n, p3) + Offset(n, p1) == 0.0
  {
    var n := UnitNormal(lib, p1, p2, p3);
    NormalizedNormalOrth(lib, p1, p2, p3);
    assert Dot(n, p2) == Dot(n, Sub(p2, p1)) + Dot(n, p1);
    assert Dot(n, p3) == Dot(n, Sub(p3, p1)) + Dot(n, p1);
  }

  /** The mean squared edge length `inPlane` divides by. */
  function MeanLengthSq(p1: V3, p2: V3, p3: V3): real {
    (Norm2(Sub(p2, p1)) + Norm2(Sub(p3, p1)) + Norm2(Sub(p3, p2))) / 3.0
  }

  /** The final comparison of `inPlane`, with its two sign branches. */
  function InPlaneRatio(dot: real, normSq: real, meanLengthSq: real): bool
    requires normSq != 0.0 && meanLengthSq != 0.0
  {
    var dotSq := dot * dot;
    if dot >= 0.0 then
      var signedDistanceSq := dotSq / normSq;
      signedDistanceSq / meanLengthSq < InPlaneTol
    else
      var signedDistanceSq := -dotSq / normSq;
      -signedDistanceSq / meanLengthSq < InPlaneTol
  }

  /** `inPlane(pt)`: the squared distance of `pt` to the plane through the anchors,
      relative to the mean squared edge length, is below 1e-12. A degenerate triangle
      gives 0/0 (NaN) in the source, and a comparison with NaN is false. */
  function InPlaneOf(p1: V3, p2: V3, p3: V3, pt: V3): bool {
    var n := TriNormal(p1, p2, p3);
    if Norm2(n) == 0.0 || MeanLengthSq(p1, p2, p3) == 0.0 then false
    else InPlaneRatio(Dot(n, Sub(pt, p1)), Norm2(n), MeanLengthSq(p1, p2, p3))
  }

  /** The mean squared edge length of a proper triangle is positive. */
  lemma MeanLengthPos(p1: V3, p2: V3, p3: V3)
    requires TriNormal(p1, p2, p3) != Zero3
    ensures MeanLengthSq(p1, p2, p3) > 0.0
  {
    Norm2Pos(Sub(p2, p1));
    Norm2Pos(Sub(p3, p1));
    Norm2Pos(Sub(p3, p2));
    assert Sub(p2, p1) != Zero3;
  }

  /** Both sign branches compute the same ratio: the outcome depends only on the
      squared distance, not on the side of the plane the point lies on. */
  lemma InPlaneSignFree(dot: real, normSq: real, meanLengthSq: real)
    requires normSq != 0.0 && meanLengthSq != 0.0
    ensures InPlaneRatio(dot, normSq, meanLengthSq) == ((dot * dot / normSq) / meanLengthSq < InPlaneTol)
    ensures InPlaneRatio(dot, normSq, meanLengthSq) == InPlaneRatio(-dot, normSq, meanLengthSq)
  {
    assert -(-(dot * dot) / normSq) == dot * dot / normSq;
    assert (-dot) * (-dot) == dot * dot;
  }

  /** A point on the plane of a proper triangle passes `inPlane`. */
  lemma OnPlaneIsInPlane(p1: V3, p2: V3, p3: V3, pt: V3)
    requires TriNormal(p1, p2, p3) != Zero3
    requires Dot(TriNormal(p1, p2, p3), Sub(pt, p1)) == 0.0
    ensures InPlaneOf(p1, p2, p3, pt)
  {
    Norm2Pos(TriNormal(p1, p2, p3));
    MeanLengthPos(p1, p2, p3);
    assert InPlaneRatio(0.0, Norm2(TriNormal(p1, p2, p3)), MeanLengthSq(p1, p2, p3));
  }

  /** A degenerate triangle accepts no point. */
  lemma DegenerateNotInPlane(p1: V3, p2: V3, p3: V3, pt: V3)
    requires TriNormal(p1, p2, p3) == Zero3
    ensures !InPlaneOf(p1, p2, p3, pt)
  {
  }

  /** The three anchors of a proper triangle pass `inPlane`. */
  lemma AnchorsInPlane(p1: V3, p2: V3, p3: V3)
    requires TriNormal(p1, p2, p3) != Zero3
    ensures InPlaneOf(p1, p2, p3, p1) && InPlaneOf(p1, p2, p3, p2) && InPlaneOf(p1, p2, p3, p3)
  {
    CrossOrth(Sub(p2, p1), Sub(p3, p1));
    assert Sub(p1, p1) == Zero3;
    OnPlaneIsInPlane(p1, p2, p3, p1);
    OnPlaneIsInPlane(p1, p2, p3, p2);
    OnPlaneIsInPlane(p1, p2, p3, p3);
  }

  // ---------------------------------------------------------------- local coordinates

  /** The first basis vector of `toUV` / `fromUV`: `p2 - p1` normalized. */
  function AxisU(lib: VecLib, p1: V3, p2: V3): V3 {
    Normalize(lib, Sub(p2, p1))
  }

  /** The second basis vector: `normal x AxisU` normalized. */
  function AxisV(lib: VecLib, normal: V3, p1: V3, p2: V3): V3 {
    Normalize(lib, Cross(normal, AxisU(lib, p1, p2)))
  }

  /** The coordinates `toUV` writes for an explicit `normalize_coords`: the components of
      `p - p1` along the two axes, divided by `|p2 - p1|` when normalizing. */
  function UVOf(lib: VecLib, normal: V3, p1: V3, p2: V3, p: V3, normalizeCoords: bool): V2
    requires Norm(lib, Sub(p2, p1)) != 0.0
  {
    var xn := Norm(lib, Sub(p2, p1));
    var pp := Sub(p, p1);
    var x := AxisU(lib, p1, p2);
    var y := AxisV(lib, normal, p1, p2);
    if normalizeCoords then V2(Dot(x, pp) / xn, Dot(y, pp) / xn)
    else V2(Dot(x, pp), Dot(y, pp))
  }

  /** The coordinates a vector `v` should get in the plane of `p1, p2, p3`: its
      corrected projection (`ProjectionOf`) measured along the two axes. */
  function VectorUVOf(lib: VecLib, p1: V3, p2: V3, p3: V3, v: V3): V2 {
    var w := ProjectionOf(lib, p1, p2, p3, v);
    V2(Dot(AxisU(lib, p1, p2), w), Dot(AxisV(lib, UnitNormal(lib, p1, p2, p3), p1, p2), w))
  }

  /** The coordinates of a vector `w` along the two axes are those of `p1 + w` less those
      of `p1`. */
  lemma VectorUVIsDifference(lib: VecLib, normal: V3, p1: V3, p2: V3, w: V3)
    requires Norm(lib, Sub(p2, p1)) != 0.0
    ensures var a, b := UVOf(lib, normal, p1, p2, p1, false), UVOf(lib, normal, p1, p2, Add(p1, w), false);
      V2(b.x - a.x, b.y - a.y) == V2(Dot(AxisU(lib, p1, p2), w), Dot(AxisV(lib, normal, p1, p2), w))
  {
    assert Sub(p1, p1) == Zero3 && Sub(Add(p1, w), p1) == w;
  }

  /** The point `fromUV` computes: `p1 + u * AxisU + v * AxisV`, with `(u, v)` divided by
      `|p2 - p1|` when the coordinates are normalized. */
  function FromUVPoint(lib: VecLib, normal: V3, p1: V3, p2: V3, uv: V2, normalizedCoords: bool): V3
    requires Norm(lib, Sub(p2, p1)) != 0.0
  {
    var xn := Norm(lib, Sub(p2, p1));
    var u := if normalizedCoords then uv.x / xn else uv.x;
    var v := if normalizedCoords then uv.y / xn else uv.y;
    Add(Add(Scale(AxisU(lib, p1, p2), u), Scale(AxisV(lib, normal, p1, p2), v)), p1)
  }

  /** `p1` has coordinates (0, 0); `p2` has (1, 0) in normalized coordinates and
      (|p2 - p1|, 0) otherwise, whatever the normal. */
  lemma UVOfAnchors(lib: VecLib, normal: V3, p1: V3, p2: V3)
    requires ValidLib(lib) && p1 != p2
    ensures Norm(lib, Sub(p2, p1)) > 0.0
    ensures UVOf(lib, normal, p1, p2, p1, true) == V2(0.0, 0.0)
    ensures UVOf(lib, normal, p1, p2, p1, false) == V2(0.0, 0.0)
    ensures UVOf(lib, normal, p1, p2, p2, true) == V2(1.0, 0.0)
    ensures UVOf(lib, normal, p1, p2, p2, false) == V2(Norm(lib, Sub(p2, p1)), 0.0)
  {
    AxesOnEdge(lib, normal, p1, p2);
    assert Sub(p1, p1) == Zero3;
    var xn := Norm(lib, Sub(p2, p1));
    assert xn / xn == 1.0;
  }

  /** Along the edge `p2 - p1`, the first axis measures its length and the second
      measures nothing. */
  lemma AxesOnEdge(lib: VecLib, normal: V3, p1: V3, p2: V3)
    requires ValidLib(lib) && p1 != p2
    ensures Norm(lib, Sub(p2, p1)) > 0.0
    ensures Dot(AxisU(lib, p1, p2), Sub(p2, p1)) == Norm(lib, Sub(p2, p1))
    ensures Dot(AxisV(lib, normal, p1, p2), Sub(p2, p1)) == 0.0
  {
    var e := Sub(p2, p1);
    assert e != Zero3;
    NormalizeUnit(lib, e);
    NormZeroIff(lib, e);
    var xn := Norm(lib, e);
    var x := AxisU(lib, p1, p2);
    var w := Cross(normal, x);
    // p2 - p1 is xn times the first axis
    ScaleInverse(e, xn);
    calc {
      Dot(x, e);
      { ScaleDot(x, xn, x); }
      xn * Norm2(x);
      xn;
    }
    CrossOrth(normal, x);
    ScaleDot(x, xn, w);
    assert Dot(w, e) == 0.0;
    NormalizeOrth(lib, e, w);
  }

  /** Over a proper triangle, every point `fromUV` computes lies on the plane, so
      `fromUV` succeeds for every (u, v). */
  lemma FromUVInPlane(lib: VecLib, p1: V3, p2: V3, p3: V3, uv: V2, normalizedCoords: bool)
    requires ValidLib(lib) && TriNormal(p1, p2, p3) != Zero3
    ensures Norm(lib, Sub(p2, p1)) != 0.0
    ensures InPlaneOf(p1, p2, p3, FromUVPoint(lib, UnitNormal(lib, p1, p2, p3), p1, p2, uv, normalizedCoords))
  {
    var n := TriNormal(p1, p2, p3);
    var e := Sub(p2, p1);
    assert e != Zero3;
    NormZeroIff(lib, e);
    NormZeroIff(lib, n);
    var x := AxisU(lib, p1, p2);
    var normal := UnitNormal(lib, p1, p2, p3);
    var k := 1.0 / Norm(lib, n);
    // the first axis is along an edge
    CrossOrth(e, Sub(p3, p1));
    NormalizeOrth(lib, n, e);
    assert Dot(n, x) == 0.0;
    // the second axis is orthogonal to the normal
    assert normal == Scale(n, k);
    CrossScale(n, x, k);
    CrossOrth(n, x);
    ScaleDot(Cross(n, x), k, n);
    assert Dot(n, Cross(normal, x)) == 0.0;
    NormalizeOrth(lib, n, Cross(normal, x));
    var y := AxisV(lib, normal, p1, p2);
    assert Dot(n, y) == 0.0;
    var pt := FromUVPoint(lib, normal, p1, p2, uv, normalizedCoords);
    var xn := Norm(lib, e);
    var u := if normalizedCoords then uv.x / xn else uv.x;
    var v := if normalizedCoords then uv.y / xn else uv.y;
    assert Sub(pt, p1) == Add(Scale(x, u), Scale(y, v));
    DotAdd(n, Scale(x, u), Scale(y, v));
    ScaleDot(x, u, n);
    ScaleDot(y, v, n);
    assert Dot(x, n) == 0.0 && Dot(y, n) == 0.0;
    OnPlaneIsInPlane(p1, p2, p3, pt);
  }

  // ---------------------------------------------------------------- projection

  /** The value `project(p)` returns: 0 for a coplanar point; otherwise the length of
      the hit of the ray from `p` along the normal, -1 if that ray reports a degenerate
      triangle, else the length of the hit of the ray along the reversed normal
      (`vec.scale(n, -1)`), and -1 when that one misses too. */
  function ProjectDistance(lib: VecLib, p1: V3, p2: V3, p3: V3, normal: V3, p: V3): real {
    if Classify(Orient3d(p1, p2, p3, p)) == Coplanar then 0.0
    else
      var up := IntersectPlane(lib, MakeRay(lib, p, normal), p1, p2, p3);
      if up.id == 1 then Norm(lib, Sub(up.point, p))
      else if up.id == -1 then -1.0
      else
        var down := IntersectPlane(lib, MakeRay(lib, p, Neg(normal)), p1, p2, p3);
        if down.id == 1 then Norm(lib, Sub(down.point, p)) else -1.0
  }

  /** `project` returns -1 or a non-negative length. */
  lemma ProjectRange(lib: VecLib, p1: V3, p2: V3, p3: V3, normal: V3, p: V3)
    requires ValidLib(lib)
    ensures ProjectDistance(lib, p1, p2, p3, normal, p) == -1.0 || ProjectDistance(lib, p1, p2, p3, normal, p) >= 0.0
  {
    var up := IntersectPlane(lib, MakeRay(lib, p, normal), p1, p2, p3);
    var down := IntersectPlane(lib, MakeRay(lib, p, Neg(normal)), p1, p2, p3);
    NormZeroIff(lib, Sub(up.point, p));
    NormZeroIff(lib, Sub(down.point, p));
  }

  /** The unit normal of a triangle whose normal has length at least `Eps`. */
  lemma UnitNormalFacts(lib: VecLib, p1: V3, p2: V3, p3: V3)
    requires ValidLib(lib) && Norm(lib, TriNormal(p1, p2, p3)) >= Eps
    ensures Norm2(UnitNormal(lib, p1, p2, p3)) == 1.0
    ensures TriNormal(p1, p2, p3) == Scale(UnitNormal(lib, p1, p2, p3), Norm(lib, TriNormal(p1, p2, p3)))
  {
    var n := TriNormal(p1, p2, p3);
    NormZeroIff(lib, n);
    NormalizeUnit(lib, n);
    var nn := Norm(lib, n);
    var u := UnitNormal(lib, p1, p2, p3);
    assert u == Scale(n, 1.0 / nn);
    assert nn * (1.0 / nn) == 1.0;
    assert Scale(u, nn) == n;
  }

  /** The ray from `p` along `s` times the unit normal (`s` is 1 or -1) meets the plane at
      parameter `-s t`, `t` being the signed distance of `p` to the plane. */
  lemma NormalRayHit(lib: VecLib, p1: V3, p2: V3, p3: V3, p: V3, s: real)
    requires ValidLib(lib) && Norm(lib, TriNormal(p1, p2, p3)) >= Eps
    requires s == 1.0 || s == -1.0
    ensures var u := UnitNormal(lib, p1, p2, p3);
      var r := Snap(-s * Dot(u, Sub(p, p1)));
      IntersectPlane(lib, MakeRay(lib, p, Scale(u, s)), p1, p2, p3) ==
        if r < 0.0 then Intersection(0, Zero3) else Intersection(1, Add(p, Scale(Scale(u, s), r)))
  {
    var n := TriNormal(p1, p2, p3);
    var nn := Norm(lib, n);
    var u := UnitNormal(lib, p1, p2, p3);
    var t := Dot(u, Sub(p, p1));
    UnitNormalFacts(lib, p1, p2, p3);
    var dir := Scale(u, s);
    ScaleDot(u, s, dir);
    ScaleDot(u, s, u);
    assert Norm2(dir) == 1.0;
    MakeRayUnit(lib, p, dir);
    var a := -Dot(n, Sub(p, p1));
    var b := Dot(n, dir);
    ScaleDot(u, nn, Sub(p, p1));
    ScaleDot(u, nn, dir);
    HitRatio(nn, t, s, a, b);
  }

  /** Along the unit normal, the hit parameter `a / b` of a point at signed distance
      `t` is `-s * t`, and the denominator passes the `Eps` test. */
  lemma HitRatio(nn: real, t: real, s: real, a: real, b: real)
    requires nn >= Eps && (s == 1.0 || s == -1.0)
    requires a == -(nn * t) && b == nn * (s * 1.0)
    ensures Abs(b) >= Eps && a / b == -s * t
  {
    if s == 1.0 {
      assert b == nn && a == nn * -t;
    } else {
      assert b == -nn && a == -nn * t;
    }
  }

  /** Over a triangle whose normal has length at least `Eps`, `project` returns the
      distance from `p` to the plane, snapped to 0 below `Eps`. */
  lemma ProjectIsDistance(lib: VecLib, p1: V3, p2: V3, p3: V3, p: V3)
    requires ValidLib(lib) && Norm(lib, TriNormal(p1, p2, p3)) >= Eps
    ensures ProjectDistance(lib, p1, p2, p3, UnitNormal(lib, p1, p2, p3), p)
         == Abs(Snap(Dot(UnitNormal(lib, p1, p2, p3), Sub(p, p1))))
  {
    var u := UnitNormal(lib, p1, p2, p3);
    var t := Dot(u, Sub(p, p1));
    OrientIsScaledDistance(lib, p1, p2, p3, p);
    if t != 0.0 {
      UnitNormalFacts(lib, p1, p2, p3);
      assert Scale(u, 1.0) == u;
      NormalRayHit(lib, p1, p2, p3, p, 1.0);
      if Snap(-t) >= 0.0 {
        HitDistance(lib, p, u, Snap(-t));
      } else {
        assert Scale(u, -1.0) == Neg(u);
        NormalRayHit(lib, p1, p2, p3, p, -1.0);
        NegNorm2(u);
        HitDistance(lib, p, Neg(u), Snap(t));
      }
    }
  }

  /** The orientation of `p` against the anchors is its signed distance to the plane,
      scaled by `-|n|`: zero exactly on the plane. */
  lemma OrientIsScaledDistance(lib: VecLib, p1: V3, p2: V3, p3: V3, p: V3)
    requires ValidLib(lib) && Norm(lib, TriNormal(p1, p2, p3)) >= Eps
    ensures var t := Dot(UnitNormal(lib, p1, p2, p3), Sub(p, p1));
      Orient3d(p1, p2, p3, p) == -(Norm(lib, TriNormal(p1, p2, p3)) * t)
      && (Classify(Orient3d(p1, p2, p3, p)) == Coplanar <==> t == 0.0)
  {
    var nn := Norm(lib, TriNormal(p1, p2, p3));
    var u := UnitNormal(lib, p1, p2, p3);
    UnitNormalFacts(lib, p1, p2, p3);
    Orient3dNormal(p1, p2, p3, p);
    ScaleDot(u, nn, Sub(p, p1));
    NonZeroProduct(nn, Dot(u, Sub(p, p1)));
  }

  lemma NonZeroProduct(a: real, b: real)
    requires a > 0.0
    ensures a * b == 0.0 <==> b == 0.0
  {
  }

  /** Moving `r >= 0` along a unit direction covers exactly the distance `r`. */
  lemma HitDistance(lib: VecLib, p: V3, d: V3, r: real)
    requires ValidLib(lib) && Norm2(d) == 1.0 && r >= 0.0
    ensures Norm(lib, Sub(Add(p, Scale(d, r)), p)) == r
  {
    assert Sub(Add(p, Scale(d, r)), p) == Scale(d, r);
    NormScaleUnit(lib, d, r);
  }

  /** Over a triangle too small for `intersectRay3DPlane` (normal shorter than `Eps`),
      `project` returns -1 for every point off the plane. */
  lemma ProjectTinyTriangle(lib: VecLib, p1: V3, p2: V3, p3: V3, p: V3)
    requires ValidLib(lib) && Norm(lib, TriNormal(p1, p2, p3)) < Eps
    requires Classify(Orient3d(p1, p2, p3, p)) != Coplanar
    ensures ProjectDistance(lib, p1, p2, p3, UnitNormal(lib, p1, p2, p3), p) == -1.0
  {
    var n := TriNormal(p1, p2, p3);
    if n == Zero3 {
      DegenerateAllCoplanar(p1, p2, p3, p);
    }
    assert n != Zero3;
    NormalizeUnit(lib, n);
    MakeRayUnit(lib, p, UnitNormal(lib, p1, p2, p3));
  }

  /** The point `project` evidently means to write into `result`: `p` itself when it is
      coplanar, otherwise the hit of the ray from `p` along the normal or, failing that,
      along the reversed normal; `None` when `project` returns -1. */
  function ProjectedPoint(lib: VecLib, p1: V3, p2: V3, p3: V3, normal: V3, p: V3): Option<V3> {
    if Classify(Orient3d(p1, p2, p3, p)) == Coplanar then Some(p)
    else
      var up := IntersectPlane(lib, MakeRay(lib, p, normal), p1, p2, p3);
      if up.id == 1 then Some(up.point)
      else if up.id == -1 then None
      else
        var down := IntersectPlane(lib, MakeRay(lib, p, Neg(normal)), p1, p2, p3);
        if down.id == 1 then Some(down.point) else None
  }

  /** Over a triangle whose normal is at least `Eps` long, the written point is the foot
      of the perpendicular from `p`, `p - t * normal` with `t` the signed distance of
      `p` to the plane, snapped to 0 below `Eps`. */
  lemma ProjectedPointIsFoot(lib: VecLib, p1: V3, p2: V3, p3: V3, p: V3)
    requires ValidLib(lib) && Norm(lib, TriNormal(p1, p2, p3)) >= Eps
    ensures var u := UnitNormal(lib, p1, p2, p3);
      ProjectedPoint(lib, p1, p2, p3, u, p) == Some(Foot(p, u, Dot(u, Sub(p, p1))))
  {
    var u := UnitNormal(lib, p1, p2, p3);
    var t := Dot(u, Sub(p, p1));
    OrientIsScaledDistance(lib, p1, p2, p3, p);
    FootSteps(p, u, t);
    if t != 0.0 {
      NormalRayHit(lib, p1, p2, p3, p, 1.0);
      if Snap(-t) < 0.0 {
        NormalRayHit(lib, p1, p2, p3, p, -1.0);
      }
    }
  }

  /** `p - Snap(t) * u`: the foot of the perpendicular from `p` at signed distance `t`. */
  function Foot(p: V3, u: V3, t: real): V3 {
    Sub(p, Scale(u, Snap(t)))
  }

  /** The arithmetic of the two ray hits: moving from `p` by `Snap(-t)` along `u`, or by
      `Snap(t)` along `-u`, reaches the foot; at `t == 0` the foot is `p`. */
  lemma FootSteps(p: V3, u: V3, t: real)
    ensures Scale(u, 1.0) == u && Scale(u, -1.0) == Neg(u)
    ensures Snap(-t) == -Snap(t)
    ensures Add(p, Scale(Scale(u, 1.0), Snap(-t))) == Foot(p, u, t)
    ensures Add(p, Scale(Scale(u, -1.0), Snap(t))) == Foot(p, u, t)
    ensures t == 0.0 ==> Foot(p, u, t) == p
  {
  }

  /** What `projectVector(v)` evidently means to return: the difference of the points
      the corrected `project` leaves in two zeroed arrays, for `v` and for the origin. */
  function ProjectionOf(lib: VecLib, p1: V3, p2: V3, p3: V3, v: V3): V3 {
    var u := UnitNormal(lib, p1, p2, p3);
    Sub(ProjectedPoint(lib, p1, p2, p3, u, v).GetOr(Zero3), ProjectedPoint(lib, p1, p2, p3, u, Zero3).GetOr(Zero3))
  }

  /** Over a triangle whose normal is at least `Eps` long, and when neither `v` nor the
      origin lies within `Eps` of the plane without lying on it (so no distance is
      snapped), the corrected projection removes exactly the normal component of `v`. */
  lemma ProjectionRemovesNormal(lib: VecLib, p1: V3, p2: V3, p3: V3, v: V3)
    requires ValidLib(lib) && Norm(lib, TriNormal(p1, p2, p3)) >= Eps
    requires var u := UnitNormal(lib, p1, p2, p3);
      Snap(Dot(u, Sub(v, p1))) == Dot(u, Sub(v, p1)) && Snap(Dot(u, Sub(Zero3, p1))) == Dot(u, Sub(Zero3, p1))
    ensures var u := UnitNormal(lib, p1, p2, p3);
      ProjectionOf(lib, p1, p2, p3, v) == Sub(v, Scale(u, Dot(u, v)))
      && Dot(u, ProjectionOf(lib, p1, p2, p3, v)) == 0.0
  {
    var u := UnitNormal(lib, p1, p2, p3);
    ProjectedPointIsFoot(lib, p1, p2, p3, v);
    ProjectedPointIsFoot(lib, p1, p2, p3, Zero3);
    UnitNormalFacts(lib, p1, p2, p3);
    FootDifference(u, v, p1);
  }

  /** With unsnapped distances, the difference of the feet of `v` and of the origin is
      `v` less its component along the unit vector `u`, which is then orthogonal to `u`. */
  lemma FootDifference(u: V3, v: V3, p1: V3)
    requires Norm2(u) == 1.0
    requires Snap(Dot(u, Sub(v, p1))) == Dot(u, Sub(v, p1)) && Snap(Dot(u, Sub(Zero3, p1))) == Dot(u, Sub(Zero3, p1))
    ensures Sub(Foot(v, u, Dot(u, Sub(v, p1))), Foot(Zero3, u, Dot(u, Sub(Zero3, p1)))) == Sub(v, Scale(u, Dot(u, v)))
    ensures Dot(u, Sub(v, Scale(u, Dot(u, v)))) == 0.0
  {
    var tv, t0 := Dot(u, Sub(v, p1)), Dot(u, Sub(Zero3, p1));
    DistanceDifference(u, v, p1);
    FeetApart(u, v, tv, t0, Dot(u, v));
    RemovedComponentOrth(u, v);
  }

  /** `v` less its component along the unit vector `u` is orthogonal to `u`. */
  lemma RemovedComponentOrth(u: V3, v: V3)
    requires Norm2(u) == 1.0
    ensures Dot(u, Sub(v, Scale(u, Dot(u, v)))) == 0.0
  {
    var k := Dot(u, v);
    ScaleDot(u, k, u);
    DotSubLinear(u, v, Scale(u, k));
  }

  lemma DotSubLinear(a: V3, b: V3, c: V3)
    ensures Dot(a, Sub(b, c)) == Dot(a, b) - Dot(a, c)
  {
  }


  /** Two unsnapped feet, of `v` and of the origin, differ by `v - k u` where `k` is the
      difference of their distances. */
  lemma FeetApart(u: V3, v: V3, tv: real, t0: real, k: real)
    requires Snap(tv) == tv && Snap(t0) == t0 && tv - t0 == k
    ensures Sub(Foot(v, u, tv), Foot(Zero3, u, t0)) == Sub(v, Scale(u, k))
  {
    ShiftedScale(u.x, tv, t0, k);
    ShiftedScale(u.y, tv, t0, k);
    ShiftedScale(u.z, tv, t0, k);
  }


  /** The signed distances of `v` and of the origin differ by `u . v`. */
  lemma DistanceDifference(u: V3, v: V3, p1: V3)
    ensures Dot(u, Sub(v, p1)) - Dot(u, Sub(Zero3, p1)) == Dot(u, v)
  {
  }

  lemma ShiftedScale(a: real, tv: real, t0: real, k: real)
    requires tv - t0 == k
    ensures a * tv - a * t0 == a * k
  {
  }



  /** Both axes of the local coordinates are orthogonal to the unit normal. */
  lemma AxesOrthNormal(lib: VecLib, p1: V3, p2: V3, p3: V3)
    ensures var u := UnitNormal(lib, p1, p2, p3);
      Dot(u, AxisU(lib, p1, p2)) == 0.0 && Dot(u, AxisV(lib, u, p1, p2)) == 0.0
  {
    var n := TriNormal(p1, p2, p3);
    var u := UnitNormal(lib, p1, p2, p3);
    var e := Sub(p2, p1);
    CrossOrth(e, Sub(p3, p1));
    NormalizeOrth(lib, n, e);
    if Norm(lib, n) != 0.0 {
      ScaleDot(n, 1.0 / Norm(lib, n), AxisU(lib, p1, p2));
    }
    CrossOrth(u, AxisU(lib, p1, p2));
    NormalizeOrth(lib, u, Cross(u, AxisU(lib, p1, p2)));
  }

  /** With the corrected projection, and no distance snapped, a vector's coordinates are
      its components along the two axes: its normal component contributes nothing. */
  lemma VectorUVOfIsComponents(lib: VecLib, p1: V3, p2: V3, p3: V3, v: V3)
    requires ValidLib(lib) && Norm(lib, TriNormal(p1, p2, p3)) >= Eps
    requires var u := UnitNormal(lib, p1, p2, p3);
      Snap(Dot(u, Sub(v, p1))) == Dot(u, Sub(v, p1)) && Snap(Dot(u, Sub(Zero3, p1))) == Dot(u, Sub(Zero3, p1))
    ensures var u := UnitNormal(lib, p1, p2, p3);
      VectorUVOf(lib, p1, p2, p3, v) == V2(Dot(AxisU(lib, p1, p2), v), Dot(AxisV(lib, u, p1, p2), v))
  {
    var u := UnitNormal(lib, p1, p2, p3);
    ProjectionRemovesNormal(lib, p1, p2, p3, v);
    AxesOrthNormal(lib, p1, p2, p3);
    ComponentsDropNormal(AxisU(lib, p1, p2), AxisV(lib, u, p1, p2), u, v, Dot(u, v));
  }

  /** Removing a multiple of `u` from `v` does not change its components along two axes
      orthogonal to `u`. */
  lemma ComponentsDropNormal(x: V3, y: V3, u: V3, v: V3, k: real)
    requires Dot(u, x) == 0.0 && Dot(u, y) == 0.0
    ensures Dot(x, Sub(v, Scale(u, k))) == Dot(x, v) && Dot(y, Sub(v, Scale(u, k))) == Dot(y, v)
  {
    ScaleDot(u, k, x);
    ScaleDot(u, k, y);
  }


  /** The corrected projection keeps a vector that already lies along the plane (orthogonal
      to the triangle's normal), wherever it sits as a point. */
  lemma ProjectionKeepsInPlane(lib: VecLib, p1: V3, p2: V3, p3: V3, v: V3)
    requires ValidLib(lib) && Norm(lib, TriNormal(p1, p2, p3)) >= Eps
    requires var u := UnitNormal(lib, p1, p2, p3);
      Snap(Dot(u, Sub(v, p1))) == Dot(u, Sub(v, p1)) && Snap(Dot(u, Sub(Zero3, p1))) == Dot(u, Sub(Zero3, p1))
    requires Dot(TriNormal(p1, p2, p3), v) == 0.0
    ensures ProjectionOf(lib, p1, p2, p3, v) == v
  {
    var u := UnitNormal(lib, p1, p2, p3);
    ProjectionRemovesNormal(lib, p1, p2, p3, v);
    UnitNormalFacts(lib, p1, p2, p3);
    ScaleDot(u, Norm(lib, TriNormal(p1, p2, p3)), v);
    assert Dot(u, v) == 0.0;
    assert Sub(v, Scale(u, 0.0)) == v;
  }

  // ---------------------------------------------------------------- plane from a point and a normal

  /** The in-plane vector `fromPointAndNormal` builds before normalizing it, chosen by the
      first normal component (y, then x, then z) whose magnitude exceeds 1e-3; `None`
      where the source throws. */
  function CompanionRaw(normal: V3): Option<V3> {
    if Abs(normal.y) > ComponentTol then
      Some(V3(-normal.y, normal.x - (normal.z * normal.z) / normal.y, normal.z))
    else if Abs(normal.x) > ComponentTol then
      Some(V3(normal.y - (normal.z * normal.z) / normal.x, -normal.x, normal.z))
    else if Abs(normal.z) > ComponentTol then
      Some(V3(normal.x, -normal.z, normal.y - (normal.x * normal.x) / normal.z))
    else None
  }

  /** The companion vector is non-zero and orthogonal to the normal. */
  lemma CompanionOrth(normal: V3)
    requires CompanionRaw(normal).Some?
    ensures CompanionRaw(normal).value != Zero3
    ensures Dot(CompanionRaw(normal).value, normal) == 0.0
  {
    if Abs(normal.y) > ComponentTol {
      CompanionOrthY(normal);
    } else if Abs(normal.x) > ComponentTol {
      CompanionOrthX(normal);
    } else {
      CompanionOrthZ(normal);
    }
  }

  /** The first branch, `(-y, x - z^2/y, z)`. */
  lemma CompanionOrthY(normal: V3)
    requires Abs(normal.y) > ComponentTol
    ensures CompanionRaw(normal).Some? && CompanionRaw(normal).value.x != 0.0
    ensures Dot(CompanionRaw(normal).value, normal) == 0.0
  {
    var q := (normal.z * normal.z) / normal.y;
    DivMul(normal.z * normal.z, normal.y);
    CancelsY(normal, CompanionRaw(normal).value, q);
  }

  /** The second branch, `(y - z^2/x, -x, z)`. */
  lemma CompanionOrthX(normal: V3)
    requires Abs(normal.y) <= ComponentTol && Abs(normal.x) > ComponentTol
    ensures CompanionRaw(normal).Some? && CompanionRaw(normal).value.y != 0.0
    ensures Dot(CompanionRaw(normal).value, normal) == 0.0
  {
    var q := (normal.z * normal.z) / normal.x;
    DivMul(normal.z * normal.z, normal.x);
    CancelsX(normal, CompanionRaw(normal).value, q);
  }

  /** The third branch, `(x, -z, y - x^2/z)`. */
  lemma CompanionOrthZ(normal: V3)
    requires Abs(normal.y) <= ComponentTol && Abs(normal.x) <= ComponentTol && Abs(normal.z) > ComponentTol
    ensures CompanionRaw(normal).Some? && CompanionRaw(normal).value.y != 0.0
    ensures Dot(CompanionRaw(normal).value, normal) == 0.0
  {
    var q := (normal.x * normal.x) / normal.z;
    DivMul(normal.x * normal.x, normal.z);
    CancelsZ(normal, CompanionRaw(normal).value, q);
  }

  /** The cancellations behind the three branches, with the quotient `q` as a plain number. */
  lemma CancelsY(n: V3, r: V3, q: real)
    requires r == V3(-n.y, n.x - q, n.z) && q * n.y == n.z * n.z
    ensures Dot(r, n) == 0.0
  {
  }

  lemma CancelsX(n: V3, r: V3, q: real)
    requires r == V3(n.y - q, -n.x, n.z) && q * n.x == n.z * n.z
    ensures Dot(r, n) == 0.0
  {
  }

  lemma CancelsZ(n: V3, r: V3, q: real)
    requires r == V3(n.x, -n.z, n.y - q) && q * n.z == n.x * n.x
    ensures Dot(r, n) == 0.0
  {
  }

  /** The three anchors `fromPointAndNormal` passes to the constructor: `p`, `p + vec2`
      and `p + vec2 x normal`, `vec2` being the normalized companion vector. */
  function PointNormalAnchors(lib: VecLib, p: V3, normal: V3): Option<(V3, V3, V3)> {
    match CompanionRaw(normal)
    case None => None
    case Some(raw) =>
      var vec2 := Normalize(lib, raw);
      var vec3 := Cross(vec2, normal);
      Some((p, Add(p, vec2), Add(p, vec3)))
  }

  /** `fromPointAndNormal` fails exactly when every normal component is within 1e-3 of
      zero. Otherwise the plane passes through `p`, and its edges from `p` span a
      triangle whose normal is exactly `-normal`: the built plane faces away from the
      given normal. */
  lemma PointNormalPlane(lib: VecLib, p: V3, normal: V3)
    requires ValidLib(lib)
    ensures PointNormalAnchors(lib, p, normal).None? <==>
      Abs(normal.x) <= ComponentTol && Abs(normal.y) <= ComponentTol && Abs(normal.z) <= ComponentTol
    ensures PointNormalAnchors(lib, p, normal).Some? ==>
      var (a, b, c) := PointNormalAnchors(lib, p, normal).value;
      a == p && TriNormal(a, b, c) == Neg(normal)
  {
    if CompanionRaw(normal).Some? {
      var raw := CompanionRaw(normal).value;
      CompanionOrth(normal);
      NormalizeUnit(lib, raw);
      var vec2 := Normalize(lib, raw);
      ScaleDot(raw, 1.0 / Norm(lib, raw), normal);
      assert Dot(vec2, normal) == 0.0;
      var vec3 := Cross(vec2, normal);
      assert Sub(Add(p, vec2), p) == vec2;
      assert Sub(Add(p, vec3), p) == vec3;
      TripleCross(vec2, vec2, normal);
      assert Scale(vec2, 0.0) == Zero3;
      assert Scale(normal, 1.0) == normal;
    }
  }

  /** A plane built from a point and a normal stores the opposite unit normal. */
  lemma PointNormalFlipped(lib: VecLib, p: V3, normal: V3)
    requires ValidLib(lib) && PointNormalAnchors(lib, p, normal).Some?
    ensures var (a, b, c) := PointNormalAnchors(lib, p, normal).value;
      UnitNormal(lib, a, b, c) == Neg(Normalize(lib, normal))
  {
    PointNormalPlane(lib, p, normal);
    NormalizeNeg(lib, normal);
  }

  // ---------------------------------------------------------------- the Plane class

  /** Exchanging the last two anchors negates the unit normal and swaps every side. */
  lemma FlippedPlane(lib: VecLib, a: V3, b: V3, c: V3)
    ensures UnitNormal(lib, a, c, b) == Scale(UnitNormal(lib, a, b, c), -1.0)
    ensures UnitNormal(lib, a, c, b) == Neg(UnitNormal(lib, a, b, c))
    ensures forall p :: Classify(Orient3d(a, c, b, p)) == Swapped(Classify(Orient3d(a, b, c, p)))
  {
    CrossAnti(Sub(c, a), Sub(b, a));
    NormalizeNeg(lib, TriNormal(a, b, c));
    forall p
      ensures Classify(Orient3d(a, c, b, p)) == Swapped(Classify(Orient3d(a, b, c, p)))
    {
      FlipSwapsSides(a, b, c, p);
    }
  }

  class Plane {
    const lib: VecLib
    var p1: V3
    var p2: V3
    var p3: V3
    var normal: V3
    var d: real

    /** The normal and offset are those `set` derives from the anchors. */
    ghost predicate Valid()
      reads this
    {
      normal == UnitNormal(lib, p1, p2, p3) && d == Offset(normal, p1)
    }

    constructor (lib0: VecLib, a: V3, b: V3, c: V3)
      ensures lib == lib0 && p1 == a && p2 == b && p3 == c && Valid()
    {
      lib := lib0;
      new;
      Set(a, b, c);
    }

    /** `set(p1, p2, p3)`: stores the anchors and derives the unit normal and the offset,
        so that all three anchors satisfy the plane equation `normal . q + d == 0`. */
    method Set(a: V3, b: V3, c: V3)
      modifies this
      ensures p1 == a && p2 == b && p3 == c && Valid()
      ensures Dot(normal, p1) + d == 0.0 && Dot(normal, p2) + d == 0.0 && Dot(normal, p3) + d == 0.0
    {
      p1 := a;
      p2 := b;
      p3 := c;
      var d1 := Sub(p2, p1);
      var d2 := Sub(p3, p1);
      normal := Normalize(lib, Cross(d1, d2));
      d := -(normal.x * p1.x) - normal.y * p1.y - normal.z * p1.z;
      AnchorsOnPlane(lib, p1, p2, p3);
    }

    /** `position(p)`: the side of the plane `p` lies on, by the sign of `orient3dfast`. */
    function Position(p: V3): Position
      reads this
    {
      Classify(Orient3d(p1, p2, p3, p))
    }

    /** `flipOrientation()`: exchanges `p2` and `p3` and negates the normal; the plane stays
        consistent and every point changes side (coplanar points stay coplanar). */
    method FlipOrientation()
      requires Valid()
      modifies this
      ensures Valid()
      ensures p1 == old(p1) && p2 == old(p3) && p3 == old(p2) && normal == Neg(old(normal))
      ensures forall p :: Position(p) == Swapped(old(Position(p)))
    {
      FlippedPlane(lib, p1, p2, p3);
      var q := p2;
      p2 := p3;
      p3 := q;
      normal := Scale(normal, -1.0);
      d := Offset(normal, p1);
    }

    /** `getNorm()`: the length of the edge `p2 - p1`, zero exactly when the two anchors coincide. */
    function GetNorm(): (r: real)
      reads this
      ensures ValidLib(lib) ==> r >= 0.0 && (r == 0.0 <==> p1 == p2)
    {
      NormFacts(lib, Sub(p2, p1));
      Norm(lib, Sub(p2, p1))
    }

    /** `inPlane(pt)`. */
    function InPlane(pt: V3): bool
      reads this
    {
      InPlaneOf(p1, p2, p3, pt)
    }

    /** `toUV(p, result, normalize_coords)`. With `normalize_coords` given, it fails exactly
        when `p2 == p1` and otherwise writes the coordinates of `p` into `result`. Without
        it, the call goes through `toUVFromVector`, which rebinds `result` locally: the
        caller's array is never written, and the outcome again only says whether `p2 != p1`. */
    method ToUV(p: V3, result: array<real>, normalizeCoords: Option<bool>) returns (ok: bool)
      requires Valid() && result.Length == 2
      modifies result
      decreases if normalizeCoords.None? then 2 else 0
      ensures ok <==> GetNorm() != 0.0
      ensures normalizeCoords.Some? && ok ==>
        var uv := UVOf(lib, normal, p1, p2, p, normalizeCoords.value);
        result[..] == [uv.x, uv.y]
      ensures normalizeCoords.None? || !ok ==> result[..] == old(result[..])
    {
      if normalizeCoords.None? {
        ok := ToUVFromVector(p, result);
        return;
      }
      var x := Sub(p2, p1);
      var xn := Norm(lib, x);
      if xn == 0.0 {
        return false;
      }
      x := Normalize(lib, x);
      var z := normal;
      var y := Cross(z, x);
      y := Normalize(lib, y);
      var pp := Sub(p, p1);
      var written;
      if normalizeCoords.value {
        written := SetV2(result, Dot(x, pp) / xn, Dot(y, pp) / xn);
      } else {
        written := SetV2(result, Dot(x, pp), Dot(y, pp));
      }
      assert result[..] == result[..2];
      return true;
    }

    /** `toUVFromVector(v, result)`: computes the coordinates of `p1` and of
        `p1 + projectVector(v)` into fresh arrays, then rebinds `result` to their
        difference, which the caller never sees. */
    method ToUVFromVector(v: V3, result: array<real>) returns (ok: bool)
      requires Valid()
      decreases 1
      ensures ok <==> GetNorm() != 0.0
    {
      var projected := ProjectVector(v);
      var p1uv := new real[2](_ => 0.0);
      var r1 := ToUV(p1, p1uv, Some(false));
      var shifted := Add(p1, projected);
      var shiftedUV := new real[2](_ => 0.0);
      var r2 := ToUV(shifted, shiftedUV, Some(false));
      var r := V2(shiftedUV[0] - p1uv[0], shiftedUV[1] - p1uv[1]);
      // `result = createV2(r)` only rebinds the parameter.
      ok := r1 && r2;
    }

    /** `toUVFromVector` as evidently intended: the difference of the coordinates of
        `p1 + projectVector(v)` and of `p1`, with the corrected `projectVector`, is
        written into the caller's `result`, so `result` holds the coordinates of the
        projected vector. */
    method ToUVFromVectorFixed(v: V3, result: array<real>) returns (ok: bool)
      requires Valid() && result.Length == 2
      modifies result
      ensures ok <==> GetNorm() != 0.0
      ensures ok ==> var uv := VectorUVOf(lib, p1, p2, p3, v); result[..] == [uv.x, uv.y]
      ensures !ok ==> result[..] == old(result[..])
    {
      var projected := ProjectVectorFixed(v);
      ok := WriteVectorUV(projected, result);
    }

    /** The tail of the corrected `toUVFromVector`: the coordinates of `p1 + w` less those
        of `p1`, written into `result`; these are the components of `w` along the axes. */
    method WriteVectorUV(w: V3, result: array<real>) returns (ok: bool)
      requires Valid() && result.Length == 2
      modifies result
      ensures ok <==> GetNorm() != 0.0
      ensures ok ==> result[..] == [Dot(AxisU(lib, p1, p2), w), Dot(AxisV(lib, normal, p1, p2), w)]
      ensures !ok ==> result[..] == old(result[..])
    {
      var p1uv := new real[2](_ => 0.0);
      var r1 := ToUV(p1, p1uv, Some(false));
      var shifted := Add(p1, w);
      var shiftedUV := new real[2](_ => 0.0);
      var r2 := ToUV(shifted, shiftedUV, Some(false));
      ok := r1 && r2;
      if ok {
        var a, b := UVOf(lib, normal, p1, p2, p1, false), UVOf(lib, normal, p1, p2, shifted, false);
        assert p1uv[0] == a.x && p1uv[1] == a.y;
        assert shiftedUV[0] == b.x && shiftedUV[1] == b.y;
        VectorUVIsDifference(lib, normal, p1, p2, w);
        var written := SetV2(result, shiftedUV[0] - p1uv[0], shiftedUV[1] - p1uv[1]);
        assert result[..] == result[..2];
      }
    }


    /** `fromUV(uv, result, normalized_coords)`: fails when `p1 == p2`; otherwise computes
        the point with coordinates `uv` and reports whether it passes `inPlane`. The point
        is assigned to a local rebinding of `result`, so the caller's array is never
        written (the method modifies nothing). */
    method FromUV(uv: V2, result: array<real>, normalizedCoords: bool) returns (ok: bool)
      ensures ok <==> (GetNorm() != 0.0 &&
                       InPlaneOf(p1, p2, p3, FromUVPoint(lib, normal, p1, p2, uv, normalizedCoords)))
    {
      var z := normal;
      var x := Sub(p2, p1);
      var xn := Norm(lib, x);
      if xn == 0.0 {
        return false;
      }
      x := Normalize(lib, x);
      var y := Cross(z, x);
      y := Normalize(lib, y);
      var u, v;
      if normalizedCoords {
        u := uv.x / xn;
        v := uv.y / xn;
      } else {
        u := uv.x;
        v := uv.y;
      }
      x := Scale(x, u);
      y := Scale(y, v);
      x := Add(x, y);
      x := Add(x, p1);
      // `result = createV3(x)` only rebinds the parameter.
      ok := InPlane(x);
    }

    /** `fromUV` as evidently intended (the `result.set(x)` its source leaves commented
        out): the point `FromUV` computes, `FromUVPoint`, is written into the caller's
        `result`. Over a proper
        triangle the call succeeds for every (u, v) and `result` holds that point. */
    method FromUVFixed(uv: V2, result: array<real>, normalizedCoords: bool) returns (ok: bool)
      requires Valid() && result.Length == 3
      modifies result
      ensures ok <==> (GetNorm() != 0.0 &&
                       InPlaneOf(p1, p2, p3, FromUVPoint(lib, normal, p1, p2, uv, normalizedCoords)))
      ensures GetNorm() != 0.0 ==>
        var pt := FromUVPoint(lib, normal, p1, p2, uv, normalizedCoords);
        result[..] == [pt.x, pt.y, pt.z]
      ensures GetNorm() == 0.0 ==> result[..] == old(result[..])
      ensures ValidLib(lib) && TriNormal(p1, p2, p3) != Zero3 ==>
        var pt := FromUVPoint(lib, normal, p1, p2, uv, normalizedCoords);
        ok && result[..] == [pt.x, pt.y, pt.z]
    {
      if Norm(lib, Sub(p2, p1)) == 0.0 {
        return false;
      }
      var pt := FromUVPoint(lib, normal, p1, p2, uv, normalizedCoords);
      var written := SetV3(result, pt.x, pt.y, pt.z);
      assert result[..] == result[..3];
      ok := InPlane(pt);
      if ValidLib(lib) && TriNormal(p1, p2, p3) != Zero3 {
        FromUVInPlane(lib, p1, p2, p3, uv, normalizedCoords);
      }
    }

    /** `project(p, result)`: returns `ProjectDistance`. Only a coplanar point is written
        into `result` (as itself); in the other branches `result` is rebound locally and
        the caller's array keeps its contents. Without `result`, a fresh array from
        `projectVector(p)` takes its place. */
    method Project(p: V3, result: Option<array<real>>) returns (dist: real)
      requires Valid()
      requires result.Some? ==> result.value.Length == 3
      modifies if result.Some? then {result.value} else {}
      decreases if result.None? then 2 else 0
      ensures dist == ProjectDistance(lib, p1, p2, p3, normal, p)
      ensures result.Some? ==>
        result.value[..] == if Position(p) == Coplanar then [p.x, p.y, p.z] else old(result.value[..])
    {
      var out: array<real>;
      if result.None? {
        var pv := ProjectVector(p);
        out := new real[3] [pv.x, pv.y, pv.z];
      } else {
        out := result.value;
      }
      if Position(p) == Coplanar {
        var written := SetV3(out, p.x, p.y, p.z);
        assert out[..] == out[..3];
        return 0.0;
      }
      var n := normal;
      var up := MakeRay(lib, p, n);
      var iUp := IntersectPlane(lib, up, p1, p2, p3);
      if iUp.id == 1 {
        // `result = createV3(i_up.point)` only rebinds the parameter.
        return Norm(lib, Sub(iUp.point, p));
      } else if iUp.id == -1 {
        return -1.0;
      }
      var down := MakeRay(lib, p, Scale(n, -1.0));
      assert Scale(n, -1.0) == Neg(n);
      var iDown := IntersectPlane(lib, down, p1, p2, p3);
      if iDown.id == 1 {
        return Norm(lib, Sub(iDown.point, p));
      } else {
        return -1.0;
      }
    }

    /** `projectVector(p)`: the difference of the arrays `project` fills for `p` and for the
        origin. Since `project` writes only coplanar points, this is `p` itself when `p`
        is coplanar and the zero vector otherwise. */
    method ProjectVector(p: V3) returns (r: V3)
      requires Valid()
      decreases 1
      ensures r == if Position(p) == Coplanar then p else Zero3
    {
      var first := Zero3;
      var second := p;
      var firstProjected := new real[3](_ => 0.0);
      var secondProjected := new real[3](_ => 0.0);
      var d1 := Project(first, Some(firstProjected));
      var d2 := Project(second, Some(secondProjected));
      r := V3(secondProjected[0] - firstProjected[0], secondProjected[1] - firstProjected[1],
              secondProjected[2] - firstProjected[2]);
    }

    /** `project` as evidently intended: the hit point is written into the caller's
        `result` (where the source rebinds `result = createV3(i_up.point)` and
        `createV3(i_down.point)`); the returned distance is unchanged. */
    method ProjectFixed(p: V3, result: Option<array<real>>) returns (dist: real)
      requires Valid()
      requires result.Some? ==> result.value.Length == 3
      modifies if result.Some? then {result.value} else {}
      decreases if result.None? then 2 else 0
      ensures dist == ProjectDistance(lib, p1, p2, p3, normal, p)
      ensures result.Some? ==> var pt := ProjectedPoint(lib, p1, p2, p3, normal, p);
        result.value[..] == if pt.Some? then [pt.value.x, pt.value.y, pt.value.z] else old(result.value[..])
    {
      var out: array<real>;
      if result.None? {
        var pv := ProjectVectorFixed(p);
        out := new real[3] [pv.x, pv.y, pv.z];
      } else {
        out := result.value;
      }
      if Position(p) == Coplanar {
        var written := SetV3(out, p.x, p.y, p.z);
        assert out[..] == out[..3];
        return 0.0;
      }
      var n := normal;
      var up := MakeRay(lib, p, n);
      var iUp := IntersectPlane(lib, up, p1, p2, p3);
      if iUp.id == 1 {
        var written := SetV3(out, iUp.point.x, iUp.point.y, iUp.point.z);
        assert out[..] == out[..3];
        return Norm(lib, Sub(iUp.point, p));
      } else if iUp.id == -1 {
        return -1.0;
      }
      var down := MakeRay(lib, p, Scale(n, -1.0));
      assert Scale(n, -1.0) == Neg(n);
      var iDown := IntersectPlane(lib, down, p1, p2, p3);
      if iDown.id == 1 {
        var written := SetV3(out, iDown.point.x, iDown.point.y, iDown.point.z);
        assert out[..] == out[..3];
        return Norm(lib, Sub(iDown.point, p));
      } else {
        return -1.0;
      }
    }

    /** `projectVector` over the corrected `project`: the projection `ProjectionOf`,
        which removes the normal component of `p` (`ProjectionRemovesNormal`). */
    method ProjectVectorFixed(p: V3) returns (r: V3)
      requires Valid()
      decreases 1
      ensures r == ProjectionOf(lib, p1, p2, p3, p)
    {
      var first := Zero3;
      var second := p;
      var firstProjected := new real[3](_ => 0.0);
      var secondProjected := new real[3](_ => 0.0);
      var d1 := ProjectFixed(first, Some(firstProjected));
      var d2 := ProjectFixed(second, Some(secondProjected));
      r := V3(secondProjected[0] - firstProjected[0], secondProjected[1] - firstProjected[1],
              secondProjected[2] - firstProjected[2]);
    }

    /** `Plane.fromPointAndNormal(p, normal)`: throws (here `Err`) when every component
        of the normal is within 1e-3 of zero, and otherwise builds the plane through the
        anchors `PointNormalAnchors` names. */
    static method FromPointAndNormal(lib: VecLib, p: V3, normal: V3) returns (r: Result<Plane>)
      ensures r.Err? <==> PointNormalAnchors(lib, p, normal).None?
      ensures r.Ok? ==> fresh(r.value) && r.value.lib == lib && r.value.Valid()
      ensures r.Ok? ==> (r.value.p1, r.value.p2, r.value.p3) == PointNormalAnchors(lib, p, normal).value
    {
      var companion := CompanionRaw(normal);
      if companion.None? {
        return Err("Error in creating a Plane from point and normal");
      }
      var vec2 := Normalize(lib, companion.value);
      var vec3 := Cross(vec2, normal);
      var plane := new Plane(lib, p, Add(p, vec2), Add(p, vec3));
      return Ok(plane);
    }
  }
}

/** A worked instance of `Plane.ts` on a horizontal triangle. */
module PlaneExamples {
  import opened Vectors
  import opened Rays
  import opened Planes

  /** On the horizontal triangle (0,0,1), (1,0,1), (0,1,1), the field vector (1,0,0) lies
      along the plane (it is orthogonal to the normal), yet read as a point it is off the
      plane, so as written `project` writes nothing for it and `projectVector` returns the
      zero vector (`Plane.ProjectVector`). The corrected projection keeps it
      (`ProjectionKeepsInPlane`). */
  lemma ProjectVectorDropsInPlaneVector()
    ensures V3(1.0, 0.0, 0.0) != Zero3
    ensures Classify(Orient3d(V3(0.0, 0.0, 1.0), V3(1.0, 0.0, 1.0), V3(0.0, 1.0, 1.0), V3(1.0, 0.0, 0.0))) != Coplanar
    ensures Dot(TriNormal(V3(0.0, 0.0, 1.0), V3(1.0, 0.0, 1.0), V3(0.0, 1.0, 1.0)), V3(1.0, 0.0, 0.0)) == 0.0
  {
    HorizontalOffPlane();
    HorizontalAlongPlane();
  }

  /** The point (1,0,0) lies below the horizontal triangle at height 1. */
  lemma HorizontalOffPlane()
    ensures Classify(Orient3d(V3(0.0, 0.0, 1.0), V3(1.0, 0.0, 1.0), V3(0.0, 1.0, 1.0), V3(1.0, 0.0, 0.0))) != Coplanar
  {
    assert Orient3d(V3(0.0, 0.0, 1.0), V3(1.0, 0.0, 1.0), V3(0.0, 1.0, 1.0), V3(1.0, 0.0, 0.0)) == 1.0;
  }

  /** The vector (1,0,0) is orthogonal to the horizontal triangle's normal. */
  lemma HorizontalAlongPlane()
    ensures Dot(TriNormal(V3(0.0, 0.0, 1.0), V3(1.0, 0.0, 1.0), V3(0.0, 1.0, 1.0)), V3(1.0, 0.0, 0.0)) == 0.0
  {
    HorizontalNormalIsVertical(V3(0.0, 0.0, 1.0), V3(1.0, 0.0, 1.0), V3(0.0, 1.0, 1.0));
  }

  /** A triangle at constant height has a vertical normal. */
  lemma HorizontalNormalIsVertical(a: V3, b: V3, c: V3)
    requires a.z == b.z && b.z == c.z
    ensures TriNormal(a, b, c).x == 0.0 && TriNormal(a, b, c).y == 0.0
  {
    assert Sub(b, a).z == 0.0 && Sub(c, a).z == 0.0;
  }
}
