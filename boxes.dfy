/** Axis-aligned boxes.

    `Box` stands for the `BBox` class of @youwol/geometry that the octree and the
    surface tracer use (a `min` and a `max` corner); `Bounds` is the six-number
    layout `[minx, miny, minz, maxx, maxy, maxz]` of `src/lib/types.ts:10` that the
    dynamic tracers receive. The box tests of @youwol/geometry are not part of this
    model; `Contains`, `Intersect` and `Intersection` are the closed-box readings
    of `contains`, `intersect` and `getIntersection`. */
module Boxes {
  import opened Vectors

  datatype Box = Box(min: V3, max: V3)

  /** `BBox.contains`: the point lies in the closed box. */
  predicate Contains(b: Box, p: V3) {
    && b.min.x <= p.x <= b.max.x
    && b.min.y <= p.y <= b.max.y
    && b.min.z <= p.z <= b.max.z
  }

  /** `BBox.empty`: some extent is negative. */
  predicate Empty(b: Box) {
    b.min.x > b.max.x || b.min.y > b.max.y || b.min.z > b.max.z
  }

  /** `BBox.intersect`: the two closed boxes overlap on every axis. */
  predicate Intersect(a: Box, b: Box) {
    && a.min.x <= b.max.x && b.min.x <= a.max.x
    && a.min.y <= b.max.y && b.min.y <= a.max.y
    && a.min.z <= b.max.z && b.min.z <= a.max.z
  }

  function Max(a: real, b: real): real { if a >= b then a else b }
  function Min(a: real, b: real): real { if a <= b then a else b }

  /** `BBox.getIntersection`: the overlap, empty when the boxes are disjoint. */
  function Intersection(a: Box, b: Box): (r: Box)
    ensures forall p :: Contains(r, p) <==> Contains(a, p) && Contains(b, p)
    ensures Empty(r) <==> !Intersect(a, b) || Empty(a) || Empty(b)
  {
    Box(V3(Max(a.min.x, b.min.x), Max(a.min.y, b.min.y), Max(a.min.z, b.min.z)),
        V3(Min(a.max.x, b.max.x), Min(a.max.y, b.max.y), Min(a.max.z, b.max.z)))
  }

  /** The box layout of `src/lib/types.ts`. */
  datatype Bounds = Bounds(minx: real, miny: real, minz: real, maxx: real, maxy: real, maxz: real)

  /** `Math.max` of the three extents of a `Bounds`. */
  function MaxExtent(b: Bounds): (m: real)
    ensures m >= b.maxx - b.minx && m >= b.maxy - b.miny && m >= b.maxz - b.minz
    ensures m == b.maxx - b.minx || m == b.maxy - b.miny || m == b.maxz - b.minz
  {
    Max(Max(b.maxx - b.minx, b.maxy - b.miny), b.maxz - b.minz)
  }
}
