/** `Ray.ts`: a 3D half-line (origin, direction, validity) and its intersection
    with the plane spanned by a triangle (`intersectRay3DPlane`, `intersectPlane`). */
module Rays {
  import opened Vectors
  import opened Utils

  /** The tolerance of `intersectRay3DPlane` (1e-10). */
  const Eps: real := 0.0000000001

  datatype Ray = Ray(origin: V3, direction: V3, valid: bool)

  /** `new Ray(origin, direction)`: copies both vectors; the ray is invalid when the
      direction has zero norm. The result of `vec.normalize` is discarded, so the
      stored direction is the unit vector only when the library normalizes in place. */
  function MakeRay(lib: VecLib, origin: V3, direction: V3): Ray {
    if Norm(lib, direction) == 0.0 then Ray(origin, direction, false)
    else Ray(origin, if lib.mutates then Normalize(lib, direction) else direction, true)
  }

  /** The ray keeps its origin, is valid exactly for a non-zero direction, and its
      direction points the same way as the input whether or not `vec.normalize`
      writes in place. */
  lemma MakeRayFacts(lib: VecLib, origin: V3, direction: V3)
    requires ValidLib(lib)
    ensures MakeRay(lib, origin, direction).origin == origin
    ensures MakeRay(lib, origin, direction).valid <==> direction != Zero3
    ensures MakeRay(lib, origin, direction).valid ==>
      Normalize(lib, MakeRay(lib, origin, direction).direction) == Normalize(lib, direction)
  {
    NormZeroIff(lib, direction);
    if direction != Zero3 && lib.mutates {
      NormalizeUnit(lib, direction);
      NormalizeOfUnit(lib, Normalize(lib, direction));
    }
  }

  /** A ray built from a unit direction stores exactly that direction. */
  lemma MakeRayUnit(lib: VecLib, origin: V3, direction: V3)
    requires ValidLib(lib) && Norm2(direction) == 1.0
    ensures MakeRay(lib, origin, direction) == Ray(origin, direction, true)
  {
    NormalizeOfUnit(lib, direction);
  }

  /** The outcome of `intersectRay3DPlane`: -1 degenerate triangle, 0 no hit,
      1 hit at `point`, 2 the ray lies in the plane. */
  datatype PlaneHit = PlaneHit(flag: int, point: Option<V3>)

  /** The (unnormalized) normal `u x v` of the triangle. */
  function TriNormal(v0: V3, v1: V3, v2: V3): V3 {
    Cross(Sub(v1, v0), Sub(v2, v0))
  }

  /** A ray parameter within `Eps` of zero is taken as zero. */
  function Snap(r: real): real {
    if Abs(r) < Eps then 0.0 else r
  }

  function IntersectRay3DPlane(lib: VecLib, ray: Ray, v0: V3, v1: V3, v2: V3): (h: PlaneHit)
    ensures h.flag in {-1, 0, 1, 2}
    ensures h.point.Some? <==> h.flag == 1
    ensures h.flag == -1 <==> Norm(lib, TriNormal(v0, v1, v2)) < Eps
  {
    var n := TriNormal(v0, v1, v2);
    if Norm(lib, n) < Eps then PlaneHit(-1, None)
    else
      var a := -Dot(n, Sub(ray.origin, v0));
      var b := Dot(n, ray.direction);
      if Abs(b) < Eps then
        if Abs(a) < Eps then PlaneHit(2, None) else PlaneHit(0, None)
      else
        var r := Snap(a / b);
        if r < 0.0 then PlaneHit(0, None)
        else PlaneHit(1, Some(Add(ray.origin, Scale(ray.direction, r))))
  }

  /** A reported hit lies on the ray, never behind its origin. */
  lemma HitAhead(lib: VecLib, ray: Ray, v0: V3, v1: V3, v2: V3)
    requires IntersectRay3DPlane(lib, ray, v0, v1, v2).flag == 1
    ensures exists r: real {:trigger Scale(ray.direction, r)} ::
              r >= 0.0 &&
              IntersectRay3DPlane(lib, ray, v0, v1, v2).point == Some(Add(ray.origin, Scale(ray.direction, r)))
  {
    var n := TriNormal(v0, v1, v2);
    var a := -Dot(n, Sub(ray.origin, v0));
    var b := Dot(n, ray.direction);
    var r := Snap(a / b);
    assert r >= 0.0;
    assert IntersectRay3DPlane(lib, ray, v0, v1, v2).point == Some(Add(ray.origin, Scale(ray.direction, r)));
  }

  /** `n . (o + r d - v0) == n . (o - v0) + r (n . d)`. */
  lemma DotAlongRay(n: V3, o: V3, d: V3, r: real, v0: V3)
    ensures Dot(n, Sub(Add(o, Scale(d, r)), v0)) == Dot(n, Sub(o, v0)) + r * Dot(n, d)
  {
  }

  /** A hit that was not snapped onto the origin lies on the triangle's plane. */
  lemma HitOnPlane(lib: VecLib, ray: Ray, v0: V3, v1: V3, v2: V3)
    requires IntersectRay3DPlane(lib, ray, v0, v1, v2).flag == 1
    requires IntersectRay3DPlane(lib, ray, v0, v1, v2).point != Some(ray.origin)
    ensures Dot(TriNormal(v0, v1, v2), Sub(IntersectRay3DPlane(lib, ray, v0, v1, v2).point.value, v0)) == 0.0
  {
    var n := TriNormal(v0, v1, v2);
    var a := -Dot(n, Sub(ray.origin, v0));
    var b := Dot(n, ray.direction);
    assert b != 0.0;
    var r := a / b;
    assert Add(ray.origin, Scale(ray.direction, 0.0)) == ray.origin;
    assert Snap(r) == r;
    DotAlongRay(n, ray.origin, ray.direction, r, v0);
    assert r * b == a;
  }

  /** Collinear anchors make the triangle degenerate. */
  lemma CollinearIsDegenerate(lib: VecLib, ray: Ray, v0: V3, v1: V3, v2: V3)
    requires ValidLib(lib) && TriNormal(v0, v1, v2) == Zero3
    ensures IntersectRay3DPlane(lib, ray, v0, v1, v2).flag == -1
  {
    NormZeroIff(lib, Zero3);
  }

  /** A ray that starts on the plane of a proper triangle and runs along it is
      reported as lying in the plane. */
  lemma RayInPlane(lib: VecLib, ray: Ray, v0: V3, v1: V3, v2: V3)
    requires Norm(lib, TriNormal(v0, v1, v2)) >= Eps
    requires Dot(TriNormal(v0, v1, v2), Sub(ray.origin, v0)) == 0.0
    requires Dot(TriNormal(v0, v1, v2), ray.direction) == 0.0
    ensures IntersectRay3DPlane(lib, ray, v0, v1, v2).flag == 2
  {
  }

  /** The result of `intersectPlane`: the flag as `id`, and the hit point (zero unless `id == 1`). */
  datatype Intersection = Intersection(id: int, point: V3)

  function IntersectPlane(lib: VecLib, ray: Ray, p1: V3, p2: V3, p3: V3): (r: Intersection)
    ensures !ray.valid ==> r == Intersection(0, Zero3)
    ensures ray.valid ==> r.id == IntersectRay3DPlane(lib, ray, p1, p2, p3).flag
    ensures r.id == 1 ==> Some(r.point) == IntersectRay3DPlane(lib, ray, p1, p2, p3).point
    ensures r.id != 1 ==> r.point == Zero3
  {
    if !ray.valid then Intersection(0, Zero3)
    else
      var h := IntersectRay3DPlane(lib, ray, p1, p2, p3);
      if h.flag == 1 then Intersection(1, h.point.value) else Intersection(h.flag, Zero3)
  }
}
