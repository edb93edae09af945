/** `StreamLinesOnSurface` of `src/lib/surfaceStreamlines.ts`: seeds one line per
    facet of a triangulated surface at the facet's centroid and walks it across
    neighbouring facets, up to 40 facet crossings deep.

    The half-edge surface (`Mesh`) and every geometric routine the tracer calls on
    it (plane projections, 2D ray intersection, box tests: `Geometry`) are oracles;
    the model keeps the tracer's own state and control flow: the per-facet
    `visited`/`skip` flags, the seed filter, the recursion budget, the current
    line, the point octree and the append-only solution. */
module Surface {
  import opened Utils
  import opened Vectors
  import opened Boxes
  import opened Planes
  import Rays
  import Rays2D
  import opened Octrees
  import OctreeSpec

  // ---------------------------------------------------------------- the surface

  /** A facet: its node indices and one of its halfedges. */
  datatype Facet = Facet(nodes: seq<nat>, halfedge: nat)

  /** The part of the @youwol/geometry `Surface` the tracer reads. Halfedges are
      numbered: `next(e)` is `e.next`, `facetOf(e)` is `e.facet` and
      `oppositeFacetOf(e)` is `e.opposite.facet` (absent along the border). */
  datatype Mesh = Mesh(
    positions: seq<V3>,
    facets: seq<Facet>,
    next: nat -> nat,
    facetOf: nat -> Option<nat>,
    oppositeFacetOf: nat -> Option<nat>,
    borderEdges: seq<nat>,
    bounds: Bounds)

  /** A triangle whose three nodes exist. */
  predicate TriangleOk(m: Mesh, t: Facet) {
    |t.nodes| == 3 && t.nodes[0] < |m.positions| && t.nodes[1] < |m.positions| && t.nodes[2] < |m.positions|
  }

  /** Every facet is a triangle, and halfedges only name existing facets. */
  ghost predicate ValidMesh(m: Mesh) {
    && (forall i :: 0 <= i < |m.facets| ==> TriangleOk(m, m.facets[i]))
    && (forall e :: m.facetOf(e).Some? ==> m.facetOf(e).value < |m.facets|)
    && (forall e :: m.oppositeFacetOf(e).Some? ==> m.oppositeFacetOf(e).value < |m.facets|)
  }

  /** `order` lists every one of the `n` facets (and nothing else): the facet array
      after the library's `sort`. */
  ghost predicate Lists(order: seq<nat>, n: nat) {
    && (forall k :: 0 <= k < |order| ==> order[k] < n)
    && (forall f :: 0 <= f < n ==> f in order)
  }

  function Corner(m: Mesh, f: nat, k: nat): V3
    requires f < |m.facets| && TriangleOk(m, m.facets[f]) && k < 3
  {
    m.positions[m.facets[f].nodes[k]]
  }

  /** The three halfedges of a facet: `halfedge`, its `next` and the one after. */
  function EdgesOf(m: Mesh, f: nat): seq<nat>
    requires f < |m.facets|
  {
    var h := m.facets[f].halfedge;
    [h, m.next(h), m.next(m.next(h))]
  }

  /** `borderPolygon(e, polygon)`: the facet on the other side of `e` when `polygon`
      is one of the two facets of `e`, and nothing otherwise. */
  function BorderPolygon(m: Mesh, e: nat, polygon: nat): (r: Option<nat>)
    ensures r.Some? ==>
      (m.facetOf(e) == Some(polygon) && m.oppositeFacetOf(e) == r) ||
      (m.oppositeFacetOf(e) == Some(polygon) && m.facetOf(e) == r)
    ensures m.facetOf(e) == Some(polygon) ==> r == m.oppositeFacetOf(e)
    ensures m.oppositeFacetOf(e) == Some(polygon) && m.facetOf(e) != Some(polygon) ==> r == m.facetOf(e)
    ensures m.facetOf(e) != Some(polygon) && m.oppositeFacetOf(e) != Some(polygon) ==> r.None?
  {
    if m.facetOf(e) == Some(polygon) then m.oppositeFacetOf(e)
    else if m.oppositeFacetOf(e) == Some(polygon) then m.facetOf(e)
    else None
  }

  /** Crossing `e` back from the facet `borderPolygon` found returns to the start. */
  lemma BorderPolygonInvolution(m: Mesh, e: nat, f: nat, g: nat)
    requires BorderPolygon(m, e, f) == Some(g)
    ensures BorderPolygon(m, e, g) == Some(f)
  {
    if m.facetOf(e) == Some(f) {
      assert m.oppositeFacetOf(e) == Some(g);
    } else {
      assert m.oppositeFacetOf(e) == Some(f) && m.facetOf(e) == Some(g);
    }
  }

  /** `g` is reached from `f` by crossing fewer than `n` edges, each time into the
      facet `borderPolygon` names. */
  ghost predicate Reachable(m: Mesh, f: nat, g: nat, n: nat)
    decreases n
  {
    n > 0 &&
    (f == g ||
     (f < |m.facets| &&
      exists k :: 0 <= k < 3 && BorderPolygon(m, EdgesOf(m, f)[k], f).Some? &&
        Reachable(m, BorderPolygon(m, EdgesOf(m, f)[k], f).value, g, n - 1)))
  }

  /** A larger budget reaches at least as far. */
  lemma {:induction false} ReachableMono(m: Mesh, f: nat, g: nat, n: nat)
    requires Reachable(m, f, g, n)
    ensures Reachable(m, f, g, n + 1)
    decreases n
  {
    if f != g {
      var k :| 0 <= k < 3 && BorderPolygon(m, EdgesOf(m, f)[k], f).Some? &&
        Reachable(m, BorderPolygon(m, EdgesOf(m, f)[k], f).value, g, n - 1);
      ReachableMono(m, BorderPolygon(m, EdgesOf(m, f)[k], f).value, g, n - 1);
    }
  }

  /** One crossing into a neighbour adds one to the budget needed. */
  lemma ReachableStep(m: Mesh, f: nat, k: nat, g: nat, n: nat)
    requires f < |m.facets| && k < 3
    requires BorderPolygon(m, EdgesOf(m, f)[k], f).Some?
    requires Reachable(m, BorderPolygon(m, EdgesOf(m, f)[k], f).value, g, n)
    ensures Reachable(m, f, g, n + 1)
  {
  }

  /** Flags only ever go from false to true. */
  ghost predicate Grew(a: seq<bool>, b: seq<bool>) {
    |a| == |b| && forall g :: 0 <= g < |a| && a[g] ==> b[g]
  }

  /** Every flag newly set between `a` and `b` belongs to a facet within `n` of `f`. */
  ghost predicate NewWithin(m: Mesh, a: seq<bool>, b: seq<bool>, f: nat, n: nat) {
    forall g :: 0 <= g < |a| && g < |b| && b[g] && !a[g] ==> Reachable(m, f, g, n)
  }

  lemma NewWithinMono(m: Mesh, a: seq<bool>, b: seq<bool>, f: nat, n: nat)
    requires NewWithin(m, a, b, f, n)
    ensures NewWithin(m, a, b, f, n + 1)
  {
    forall g | 0 <= g < |a| && g < |b| && b[g] && !a[g]
      ensures Reachable(m, f, g, n + 1)
    {
      ReachableMono(m, f, g, n);
    }
  }

  lemma NewWithinStep(m: Mesh, a: seq<bool>, b: seq<bool>, f: nat, k: nat, n: nat)
    requires f < |m.facets| && k < 3 && BorderPolygon(m, EdgesOf(m, f)[k], f).Some?
    requires NewWithin(m, a, b, BorderPolygon(m, EdgesOf(m, f)[k], f).value, n)
    ensures NewWithin(m, a, b, f, n + 1)
  {
    forall g | 0 <= g < |a| && g < |b| && b[g] && !a[g]
      ensures Reachable(m, f, g, n + 1)
    {
      ReachableStep(m, f, k, g, n);
    }
  }

  lemma NewWithinTrans(m: Mesh, a: seq<bool>, b: seq<bool>, c: seq<bool>, f: nat, n: nat)
    requires Grew(a, b) && NewWithin(m, a, b, f, n) && NewWithin(m, b, c, f, n) && |b| == |c|
    ensures NewWithin(m, a, c, f, n)
  {
  }

  // ---------------------------------------------------------------- the geometry oracles

  /** What the plane, ray and box routines report to the tracer. Per facet `f`
      (whose plane runs through its three corners):
      - `uvOk(f)`: `toUV` on that plane succeeds (its first two corners differ);
        every `toUV` call on one plane succeeds or fails with this;
      - `uv(f, p)`: the coordinates `toUV(p, out, false)` writes;
      - `vectorUV(f, v)`: what `pV` holds after `pV = createV2(); toUV(v, pV)`;
      - `fromUV(f, uv)`: whether `fromUV` succeeds, and what its output array
        then holds;
      - `project(f, p)`: what `project(p, out)` leaves in a zeroed `out`;
      - `crossing(f, e, start, dir)`: the edge test of `recursiveSL` (`EdgeTest`,
        with `curSeg` running from the first corner of edge `e` along the edge and
        `segment` from `start` along `dir`): when it passes, the array `iC` that
        `intersectRay` filled, which as written holds `(b + k1 * f, 0)` (the
        y-coordinate of the crossing, then an untouched zero; see
        `Rays2D.Ray2D.IntersectRay`);
      - `inDomain(a, b)`: the inflated, scaled surface box contains `BBox(a, b)`;
      - `workBox`: `bbox3_`, the surface box scaled by 1.2 and inflated.
      The surface box is shared and grows with every `generate` and every
      `recursiveSL`; here both boxes are fixed (see README). */
  datatype Geometry = Geometry(
    uvOk: nat -> bool,
    uv: (nat, V3) -> V2,
    vectorUV: (nat, V3) -> V2,
    fromUV: (nat, V2) -> Option<V3>,
    project: (nat, V3) -> V3,
    crossing: (nat, nat, V2, V2) -> Option<V2>,
    inDomain: (V3, V3) -> bool,
    workBox: Box)

  /** The geometry as this repository's `Plane` delivers it: `toUV` without its
      `normalize_coords` flag never writes its output array (`VectorUV`), so the
      projected field vectors stay at `[0, 0]`; nor does `fromUV` (`PointFromUV`), so
      a point mapped back to space stays at the origin. */
  ghost predicate AsWritten(geo: Geometry) {
    && (forall f, v :: geo.vectorUV(f, v) == Zero2)
    && (forall f, uv :: geo.fromUV(f, uv).Some? ==> geo.fromUV(f, uv) == Some(Zero3))
  }

  /** `const pV = createV2(); plane.toUV(v, pV)`, as `projectedVector` projects a field
      vector: it reports whether the plane is proper, and `pV` keeps its zeros. */
  method VectorUV(plane: Plane, v: V3) returns (ok: bool, seen: V2)
    requires plane.Valid()
    ensures ok <==> plane.GetNorm() != 0.0
    ensures seen == Zero2
  {
    var created := CreateV2(Absent, None);
    var pV := created.value;
    ok := plane.ToUV(v, pV, None);
    seen := V2(pV[0], pV[1]);
  }

  /** `const out = [0, 0, 0]; plane.fromUV(uv, out, false)`, as `genSL` and `recursiveSL`
      map coordinates back to space: over a proper triangle the call succeeds, yet `out`
      keeps its zeros instead of the point with coordinates `uv`. */
  method PointFromUV(plane: Plane, uv: V2) returns (ok: bool, seen: V3)
    requires plane.Valid()
    ensures ok <==> (plane.GetNorm() != 0.0 &&
                     InPlaneOf(plane.p1, plane.p2, plane.p3,
                               FromUVPoint(plane.lib, plane.normal, plane.p1, plane.p2, uv, false)))
    ensures ValidLib(plane.lib) && Rays.TriNormal(plane.p1, plane.p2, plane.p3) != Zero3 ==> ok
    ensures seen == Zero3
  {
    var out := new real[3](_ => 0.0);
    ok := plane.FromUV(uv, out, false);
    seen := V3(out[0], out[1], out[2]);
    if ValidLib(plane.lib) && Rays.TriNormal(plane.p1, plane.p2, plane.p3) != Zero3 {
      FromUVInPlane(plane.lib, plane.p1, plane.p2, plane.p3, uv, false);
    }
  }

  // ---------------------------------------------------------------- the edge test

  /** The edge test of `recursiveSL` as written. `edge` is `curSeg`, the ray from the
      first corner of an edge along it (`pV`, of length `edgeLen`); `segment` runs from
      the step's start along `pSV` (of length `segLen`). The test passes on a crossing
      with `dist > 0` and `0 < other_dist`, `other_dist` below both `norm(pV)` and
      `norm(pSV)`: the parameter along the segment is bounded twice and the parameter
      along the edge not at all, so a pass is a common point ahead on the edge's line
      and inside the segment. The result is `(dist, other_dist)`. */
  function EdgeTest(edge: Rays2D.Ray2D, segment: Rays2D.Ray2D, edgeLen: real, segLen: real): (r: Option<(real, real)>)
    requires Rays2D.Wf(edge)
    ensures r.Some? ==> edge.At(r.value.0) == segment.At(r.value.1)
    ensures r.Some? ==> 0.0 < r.value.0 && 0.0 < r.value.1 < segLen && r.value.1 < edgeLen
  {
    var c := edge.Crossing(segment);
    if c.Some? && c.value.0 > 0.0 && c.value.1 < edgeLen && c.value.1 > 0.0 && c.value.1 < segLen then
      Rays2D.CrossingMeets(edge, segment);
      c
    else None
  }

  /** The edge test as evidently intended, with `dist < norm(pV)` in place of the
      second bound on `other_dist`: a pass is a common point strictly inside both the
      edge and the segment. */
  function EdgeTestFixed(edge: Rays2D.Ray2D, segment: Rays2D.Ray2D, edgeLen: real, segLen: real): (r: Option<(real, real)>)
    requires Rays2D.Wf(edge)
    ensures r.Some? ==> edge.At(r.value.0) == segment.At(r.value.1)
    ensures r.Some? ==> 0.0 < r.value.0 < edgeLen && 0.0 < r.value.1 < segLen
  {
    var c := edge.Crossing(segment);
    if c.Some? && c.value.0 > 0.0 && c.value.0 < edgeLen && c.value.1 > 0.0 && c.value.1 < segLen then
      Rays2D.CrossingMeets(edge, segment);
      c
    else None
  }

  /** The corrected test misses no crossing: a common point strictly inside the edge and
      the segment, on lines not parallel within the tolerance, passes with its own
      parameters. */
  lemma EdgeTestFixedComplete(edge: Rays2D.Ray2D, segment: Rays2D.Ray2D, edgeLen: real, segLen: real, k1: real, k2: real)
    requires Rays2D.Wf(edge) && edge.valid && Abs(edge.Det(segment)) >= Rays2D.Tol
    requires 0.0 < k1 < edgeLen && 0.0 < k2 < segLen && edge.At(k1) == segment.At(k2)
    ensures EdgeTestFixed(edge, segment, edgeLen, segLen) == Some((k1, k2))
  {
    Rays2D.CrossingComplete(edge, segment, k1, k2);
  }

  /** Counterexample for the edge test: the unit edge from (0,0) to (1,0) and the unit
      segment from (2,-0.5) to (2,0.5) do not meet, yet as written the test passes at
      `dist == 2`, beyond the edge's end; the corrected test rejects them. */
  lemma EdgeTestPassesBeyondEdge()
    ensures EdgeTest(Rays2D.Ray2D(V2(0.0, 0.0), V2(1.0, 0.0), true),
                     Rays2D.Ray2D(V2(2.0, -0.5), V2(0.0, 1.0), true), 1.0, 1.0) == Some((2.0, 0.5))
    ensures EdgeTestFixed(Rays2D.Ray2D(V2(0.0, 0.0), V2(1.0, 0.0), true),
                          Rays2D.Ray2D(V2(2.0, -0.5), V2(0.0, 1.0), true), 1.0, 1.0).None?
  {
    BeyondEdgeCrossing();
  }

  /** The lines of that edge and that segment cross at (2,0): 2 along the edge, 0.5
      along the segment. */
  lemma BeyondEdgeCrossing()
    ensures Rays2D.Ray2D(V2(0.0, 0.0), V2(1.0, 0.0), true).Crossing(Rays2D.Ray2D(V2(2.0, -0.5), V2(0.0, 1.0), true))
         == Some((2.0, 0.5))
  {
    var edge := Rays2D.Ray2D(V2(0.0, 0.0), V2(1.0, 0.0), true);
    var segment := Rays2D.Ray2D(V2(2.0, -0.5), V2(0.0, 1.0), true);
    assert edge.Det(segment) == -1.0;
    assert edge.K2(segment) == 0.5;
    assert edge.K1(segment, 0.5) == 2.0;
  }

  // ---------------------------------------------------------------- seeding

  /** The mean of a triangle's corners. */
  function Centroid(a: V3, b: V3, c: V3): V3 {
    Scale(Add(Add(a, b), c), 1.0 / 3.0)
  }

  function BarycenterOf(m: Mesh, f: nat): V3
    requires f < |m.facets| && TriangleOk(m, m.facets[f])
  {
    Centroid(Corner(m, f, 0), Corner(m, f, 1), Corner(m, f, 2))
  }

  /** The centroid lies in every box holding the three corners. */
  lemma CentroidInBox(bx: Box, a: V3, b: V3, c: V3)
    requires Contains(bx, a) && Contains(bx, b) && Contains(bx, c)
    ensures Contains(bx, Centroid(a, b, c))
  {
  }

  /** `genOneSL`'s accumulation of the seed facet's corners, scaled by 1/3. */
  method Barycenter(m: Mesh, f: nat) returns (b: V3)
    requires f < |m.facets| && TriangleOk(m, m.facets[f])
    ensures b == BarycenterOf(m, f)
    ensures Scale(b, 3.0) == Add(Add(Corner(m, f, 0), Corner(m, f, 1)), Corner(m, f, 2))
  {
    var nop := m.facets[f].nodes;
    var c0, c1, c2 := Corner(m, f, 0), Corner(m, f, 1), Corner(m, f, 2);
    var sum := Zero3;
    for k := 0 to |nop|
      invariant sum == if k == 0 then Zero3 else if k == 1 then c0 else if k == 2 then Add(c0, c1) else Add(Add(c0, c1), c2)
    {
      var p := m.positions[nop[k]];
      sum := V3(sum.x + p.x, sum.y + p.y, sum.z + p.z);
    }
    b := Scale(sum, 1.0 / 3.0);
  }

  /** The smallest item of a serie (`minMax(attr)[0]`). */
  function MinOf(s: seq<real>): (r: real)
    requires |s| > 0
    ensures forall i :: 0 <= i < |s| ==> r <= s[i]
    ensures r in s
  {
    if |s| == 1 then s[0] else Min(MinOf(s[..|s| - 1]), s[|s| - 1])
  }

  /** The largest item of a serie (`minMax(attr)[1]`). */
  function MaxOf(s: seq<real>): (r: real)
    requires |s| > 0
    ensures forall i :: 0 <= i < |s| ==> s[i] <= r
    ensures r in s
  {
    if |s| == 1 then s[0] else Max(MaxOf(s[..|s| - 1]), s[|s| - 1])
  }

  lemma UnitRatio(a: real, b: real)
    requires 0.0 <= a <= b && b > 0.0
    ensures 0.0 <= a / b <= 1.0
  {
    var q := a / b;
    assert q * b == a;
  }

  /** Item `i` of the min-max normalized seed serie, `(v - min) / (max - min)`; absent
      where JavaScript gets NaN: no such item, or a constant serie (`0 / 0`). */
  function Normalized(attr: seq<real>, i: int): (r: Option<real>)
    ensures r.Some? ==> 0 <= i < |attr| && 0.0 <= r.value <= 1.0
    ensures r.None? ==> !(0 <= i < |attr|) || MinOf(attr) == MaxOf(attr)
  {
    if 0 <= i < |attr| && MinOf(attr) != MaxOf(attr) then
      UnitRatio(attr[i] - MinOf(attr), MaxOf(attr) - MinOf(attr));
      Some((attr[i] - MinOf(attr)) / (MaxOf(attr) - MinOf(attr)))
    else None
  }

  /** The threshold test of `run`: `val > up || val < down`, false on NaN. */
  predicate Rejected(attr: seq<real>, up: real, down: real, i: int) {
    var v := Normalized(attr, i);
    v.Some? && (v.value > up || v.value < down)
  }

  /** The `skip` flags `run` leaves: only a seed serie can mark a facet. */
  function SkipFlags(nf: nat, seedAttr: Option<seq<real>>, up: real, down: real): (r: seq<bool>)
    ensures |r| == nf
    ensures seedAttr.None? ==> forall f :: 0 <= f < nf ==> !r[f]
  {
    seq(nf, f => seedAttr.Some? && Rejected(seedAttr.value, up, down, f))
  }

  /** Thresholds that bracket [0, 1] keep every facet, whatever the serie. */
  lemma WideThresholdsKeepAll(attr: seq<real>, up: real, down: real, nf: nat)
    requires down <= 0.0 && 1.0 <= up
    ensures forall f :: 0 <= f < nf ==> !SkipFlags(nf, Some(attr), up, down)[f]
  {
    forall f | 0 <= f < nf
      ensures !Rejected(attr, up, down, f)
    {
      var v := Normalized(attr, f);
    }
  }

  /** A constant seed serie normalizes to NaN everywhere, so it marks no facet. */
  lemma ConstantSerieKeepsAll(attr: seq<real>, up: real, down: real, nf: nat)
    requires |attr| > 0 && forall i :: 0 <= i < |attr| ==> attr[i] == attr[0]
    ensures forall f :: 0 <= f < nf ==> !SkipFlags(nf, Some(attr), up, down)[f]
  {
    var mn, mx := MinOf(attr), MaxOf(attr);
    assert mn == attr[0] && mx == attr[0];
  }

  /** As written, the points `run` keeps from the first `n` facets: the centroid of
      every facet that is not skipped and whose centroid lies in `box`, in facet order. */
  function SeedPoints(m: Mesh, skip: seq<bool>, box: Box, n: nat): (r: seq<V3>)
    requires ValidMesh(m) && n <= |m.facets| && n <= |skip|
    ensures |r| <= n
    ensures forall p :: p in r ==> Contains(box, p)
    ensures forall p :: p in r ==> exists f :: 0 <= f < n && !skip[f] && p == BarycenterOf(m, f)
  {
    if n == 0 then []
    else
      var b := BarycenterOf(m, n - 1);
      var r0 := SeedPoints(m, skip, box, n - 1);
      var r := r0 + (if !skip[n - 1] && Contains(box, b) then [b] else []);
      assert forall p :: p in r ==> p in r0 || (p == b && !skip[n - 1]);
      r
  }

  /** What `run`'s loop has emitted so far, on values: `sol` is `sol0` followed by the
      coordinates of the points `pts`, the octree holds exactly those points, and all
      of them lie inside `box`. */
  ghost predicate Emitted(box: Box, pts: seq<V3>, items: multiset<V3>, sol0: seq<real>, sol: seq<real>) {
    && sol == sol0 + Flatten(pts)
    && items == multiset(pts)
    && (forall p :: p in pts ==> Contains(box, p))
  }

  /** Emitting the in-box points `kept` of one more line keeps `Emitted`. */
  lemma EmittedStep(box: Box, pts: seq<V3>, kept: seq<V3>, items: multiset<V3>, items': multiset<V3>,
                    sol0: seq<real>, sol: seq<real>, sol': seq<real>)
    requires Emitted(box, pts, items, sol0, sol)
    requires sol' == sol + Flatten(kept) && items' == items + multiset(kept)
    requires forall p :: p in kept ==> Contains(box, p)
    ensures Emitted(box, pts + kept, items', sol0, sol')
  {
    SolutionStep(pts, kept, sol0, sol, sol');
    InBoxStep(box, pts, kept);
  }

  lemma SolutionStep(pts: seq<V3>, kept: seq<V3>, sol0: seq<real>, sol: seq<real>, sol': seq<real>)
    requires sol == sol0 + Flatten(pts)
    requires sol' == sol + Flatten(kept)
    ensures sol' == sol0 + Flatten(pts + kept)
  {
    FlattenAppend(pts, kept);
  }

  lemma InBoxStep(box: Box, pts: seq<V3>, kept: seq<V3>)
    requires forall p :: p in pts ==> Contains(box, p)
    requires forall p :: p in kept ==> Contains(box, p)
    ensures forall p :: p in pts + kept ==> Contains(box, p)
  {
  }

  /** As written, after the first `f` facets: the points emitted are the in-box
      centroids of the kept facets among them, and no facet from `f` on is visited. */
  ghost predicate SeededUpTo(m: Mesh, skip: seq<bool>, box: Box, f: nat, pts: seq<V3>, visited: seq<bool>) {
    && ValidMesh(m) && f <= |m.facets| && f <= |skip| && pts == SeedPoints(m, skip, box, f)
    && forall g :: f <= g < |visited| ==> !visited[g]
  }

  /** One facet more, as written: a skipped facet emits nothing and visits nothing; a
      kept one is visited and emits its centroid if it lies in the box. */
  lemma SeededStep(m: Mesh, skip: seq<bool>, box: Box, f: nat, pts: seq<V3>, kept: seq<V3>,
                   visited: seq<bool>, visited': seq<bool>)
    requires SeededUpTo(m, skip, box, f, pts, visited)
    requires f < |m.facets| && f < |skip| && f < |visited| && |visited'| == |visited|
    requires skip[f] ==> kept == [] && visited' == visited
    requires !skip[f] && !visited[f] ==>
      visited' == visited[f := true] &&
      kept == (if Contains(box, BarycenterOf(m, f)) then [BarycenterOf(m, f)] else [])
    ensures SeededUpTo(m, skip, box, f + 1, pts + kept, visited')
  {
    SeedPointsStep(m, skip, box, f);
    forall g | f + 1 <= g < |visited'|
      ensures !visited'[g]
    {
      assert visited'[g] == visited[g];
    }
  }

  lemma SeedPointsStep(m: Mesh, skip: seq<bool>, box: Box, f: nat)
    requires ValidMesh(m) && f < |m.facets| && f < |skip|
    ensures SeedPoints(m, skip, box, f + 1) == SeedPoints(m, skip, box, f) +
      (if !skip[f] && Contains(box, BarycenterOf(m, f)) then [BarycenterOf(m, f)] else [])
  {
  }

  // ---------------------------------------------------------------- projectedVector

  /** `createV3(vectorAttr[n])`: the field vector at node `n`, zero for a missing item. */
  function FieldAt(field: seq<V3>, n: nat): V3 {
    if n < |field| then field[n] else Zero3
  }

  /** `vec.scale(v, k)` with its result dropped: it only takes effect if the library
      scales in place. */
  function ScaledInPlace(lib: VecLib, v: V2, k: real): V2 {
    if lib.mutates then Scale2(v, k) else v
  }

  /** The orientation fixes and the barycentric weighting that end `projectedVector`:
      on the first step, corners 1 and 2 are turned to agree with corner 0; `reverse`
      turns all three; later steps turn each to agree with `streamDir` when both of
      its components are non-zero; the weights are `1 - etha - ksi`, `etha`, `ksi`. */
  function Blend(lib: VecLib, v0: V2, v1: V2, v2: V2, etha: real, ksi: real,
                 streamDir: V2, reverse: bool, firstStep: bool): V2
  {
    var a1 := if firstStep && Dot2(v0, v1) < 0.0 then ScaledInPlace(lib, v1, -1.0) else v1;
    var a2 := if firstStep && Dot2(v0, v2) < 0.0 then ScaledInPlace(lib, v2, -1.0) else v2;
    var b0 := if reverse then ScaledInPlace(lib, v0, -1.0) else v0;
    var b1 := if reverse then ScaledInPlace(lib, a1, -1.0) else a1;
    var b2 := if reverse then ScaledInPlace(lib, a2, -1.0) else a2;
    var turn := !firstStep && streamDir.x != 0.0 && streamDir.y != 0.0;
    var c0 := if turn && Dot2(b0, streamDir) < 0.0 then ScaledInPlace(lib, b0, -1.0) else b0;
    var c1 := if turn && Dot2(b1, streamDir) < 0.0 then ScaledInPlace(lib, b1, -1.0) else b1;
    var c2 := if turn && Dot2(b2, streamDir) < 0.0 then ScaledInPlace(lib, b2, -1.0) else b2;
    var w0 := ScaledInPlace(lib, c0, 1.0 - etha - ksi);
    var w1 := ScaledInPlace(lib, c1, etha);
    var w2 := ScaledInPlace(lib, c2, ksi);
    V2(w0.x + w1.x + w2.x, w0.y + w1.y + w2.y)
  }

  /** With a `vec.scale` that returns a new vector, none of the turns or weights take
      effect: the result is the plain sum of the three projected vectors. */
  lemma BlendWithoutInPlaceScale(lib: VecLib, v0: V2, v1: V2, v2: V2, etha: real, ksi: real,
                                 streamDir: V2, reverse: bool, firstStep: bool)
    requires !lib.mutates
    ensures Blend(lib, v0, v1, v2, etha, ksi, streamDir, reverse, firstStep) ==
      V2(v0.x + v1.x + v2.x, v0.y + v1.y + v2.y)
  {
  }

  /** The coordinates of `pIC` in the UV triangle of facet `f`: `(etha, ksi)`. */
  function BaryWeights(p0: V2, p1: V2, p2: V2, q: V2): (real, real) {
    var x1x0, x2x0 := p1.x - p0.x, p2.x - p0.x;
    var y1y0, y2y0 := p1.y - p0.y, p2.y - p0.y;
    var det := x1x0 * y2y0 - x2x0 * y1y0;
    // JavaScript's 1 / 0 is Infinity; a real has none (see README).
    var alpha := if det != 0.0 then 1.0 / det else 0.0;
    var xx0, yy0 := q.x - p0.x, q.y - p0.y;
    (alpha * (y2y0 * xx0 - x2x0 * yy0), alpha * (x1x0 * yy0 - y1y0 * xx0))
  }

  /** `projectedVector`: the field at `pIC`, interpolated from the projected field
      vectors at the facet's corners; absent when the plane is degenerate or a
      projected corner vector has zero length. */
  function ProjectedVector(m: Mesh, geo: Geometry, lib: VecLib, field: seq<V3>, pIC: V2, f: nat,
                           streamDir: V2, reverse: bool, firstStep: bool): (r: Option<V2>)
    requires f < |m.facets| && TriangleOk(m, m.facets[f])
    ensures r.Some? ==> geo.uvOk(f)
    ensures r.Some? ==> forall k :: 0 <= k < 3 ==>
      Norm2D(lib, geo.vectorUV(f, FieldAt(field, m.facets[f].nodes[k]))) != 0.0
  {
    if !geo.uvOk(f) then None
    else
      var nop := m.facets[f].nodes;
      var w := BaryWeights(geo.uv(f, Corner(m, f, 0)), geo.uv(f, Corner(m, f, 1)), geo.uv(f, Corner(m, f, 2)), pIC);
      var v0 := geo.vectorUV(f, FieldAt(field, nop[0]));
      var v1 := geo.vectorUV(f, FieldAt(field, nop[1]));
      var v2 := geo.vectorUV(f, FieldAt(field, nop[2]));
      if Norm2D(lib, v0) == 0.0 || Norm2D(lib, v1) == 0.0 || Norm2D(lib, v2) == 0.0 then None
      else Some(Blend(lib, v0, v1, v2, w.0, w.1, streamDir, reverse, firstStep))
  }

  /** As written, `projectedVector` never succeeds: the projected field vectors stay
      at zero length, so no streamline ever gets a direction. */
  lemma ProjectedVectorAsWritten(m: Mesh, geo: Geometry, lib: VecLib, field: seq<V3>, pIC: V2, f: nat,
                                 streamDir: V2, reverse: bool, firstStep: bool)
    requires f < |m.facets| && TriangleOk(m, m.facets[f])
    requires AsWritten(geo) && ValidLib(lib)
    ensures ProjectedVector(m, geo, lib, field, pIC, f, streamDir, reverse, firstStep).None?
  {
    Norm2DZeroIff(lib, Zero2);
    assert geo.vectorUV(f, FieldAt(field, m.facets[f].nodes[0])) == Zero2;
  }

  /** The geometry of facet `f` once `toUVFromVector` writes its result
      (`Plane.ToUVFromVectorFixed` on the plane through the facet's corners): `toUV`
      succeeds exactly when the first two corners differ, and a field vector's
      coordinates are those of its corrected projection (`VectorUVOf`). */
  ghost predicate FixedVectorUVAt(m: Mesh, geo: Geometry, lib: VecLib, f: nat)
    requires f < |m.facets| && TriangleOk(m, m.facets[f])
  {
    var c0, c1, c2 := Corner(m, f, 0), Corner(m, f, 1), Corner(m, f, 2);
    && (geo.uvOk(f) <==> Norm(lib, Sub(c1, c0)) != 0.0)
    && (Norm(lib, Sub(c1, c0)) != 0.0 ==> forall v :: geo.vectorUV(f, v) == VectorUVOf(lib, c0, c1, c2, v))
  }

  /** With the corrected `toUVFromVector`, `projectedVector` gives a direction on every
      facet whose first two corners differ and whose three corner field vectors have
      non-zero coordinates under the corrected projection, and only there. */
  lemma ProjectedVectorFixed(m: Mesh, geo: Geometry, lib: VecLib, field: seq<V3>, pIC: V2, f: nat,
                             streamDir: V2, reverse: bool, firstStep: bool)
    requires f < |m.facets| && TriangleOk(m, m.facets[f]) && ValidLib(lib)
    requires FixedVectorUVAt(m, geo, lib, f)
    ensures ProjectedVector(m, geo, lib, field, pIC, f, streamDir, reverse, firstStep).Some? <==>
      && Corner(m, f, 0) != Corner(m, f, 1)
      && forall k :: 0 <= k < 3 ==>
           VectorUVOf(lib, Corner(m, f, 0), Corner(m, f, 1), Corner(m, f, 2), FieldAt(field, m.facets[f].nodes[k])) != Zero2
  {
    var c0, c1, c2 := Corner(m, f, 0), Corner(m, f, 1), Corner(m, f, 2);
    NormZeroIff(lib, Sub(c1, c0));
    assert Sub(c1, c0) == Zero3 <==> c0 == c1;
    if c0 != c1 {
      var nop := m.facets[f].nodes;
      forall k | 0 <= k < 3
        ensures Norm2D(lib, geo.vectorUV(f, FieldAt(field, nop[k]))) == 0.0 <==>
                VectorUVOf(lib, c0, c1, c2, FieldAt(field, nop[k])) == Zero2
      {
        Norm2DZeroIff(lib, geo.vectorUV(f, FieldAt(field, nop[k])));
      }
    }
  }

  /** At the UV position of its first corner, the interpolation returns that corner's
      projected vector, when `vec.scale` works in place and no vector is turned. */
  lemma ProjectedVectorAtFirstCorner(m: Mesh, geo: Geometry, lib: VecLib, field: seq<V3>, f: nat, streamDir: V2)
    requires f < |m.facets| && TriangleOk(m, m.facets[f])
    requires lib.mutates && (streamDir.x == 0.0 || streamDir.y == 0.0)
    requires ProjectedVector(m, geo, lib, field, geo.uv(f, Corner(m, f, 0)), f, streamDir, false, false).Some?
    ensures ProjectedVector(m, geo, lib, field, geo.uv(f, Corner(m, f, 0)), f, streamDir, false, false) ==
      Some(geo.vectorUV(f, FieldAt(field, m.facets[f].nodes[0])))
  {
    var p0, p1, p2 := geo.uv(f, Corner(m, f, 0)), geo.uv(f, Corner(m, f, 1)), geo.uv(f, Corner(m, f, 2));
    var w := BaryWeights(p0, p1, p2, p0);
    assert w.0 == 0.0 && w.1 == 0.0;
  }

  /** At the UV position of its second corner the interpolation returns that
      corner's vector, when the UV triangle is proper. */
  lemma ProjectedVectorAtSecondCorner(m: Mesh, geo: Geometry, lib: VecLib, field: seq<V3>, f: nat, streamDir: V2)
    requires f < |m.facets| && TriangleOk(m, m.facets[f])
    requires lib.mutates && (streamDir.x == 0.0 || streamDir.y == 0.0)
    requires var p0, p1, p2 := geo.uv(f, Corner(m, f, 0)), geo.uv(f, Corner(m, f, 1)), geo.uv(f, Corner(m, f, 2));
      (p1.x - p0.x) * (p2.y - p0.y) - (p2.x - p0.x) * (p1.y - p0.y) != 0.0
    requires ProjectedVector(m, geo, lib, field, geo.uv(f, Corner(m, f, 1)), f, streamDir, false, false).Some?
    ensures ProjectedVector(m, geo, lib, field, geo.uv(f, Corner(m, f, 1)), f, streamDir, false, false) ==
      Some(geo.vectorUV(f, FieldAt(field, m.facets[f].nodes[1])))
  {
    var p0, p1, p2 := geo.uv(f, Corner(m, f, 0)), geo.uv(f, Corner(m, f, 1)), geo.uv(f, Corner(m, f, 2));
    var det := (p1.x - p0.x) * (p2.y - p0.y) - (p2.x - p0.x) * (p1.y - p0.y);
    var alpha := 1.0 / det;
    InverseCancels(1.0, det, alpha);
    var w := BaryWeights(p0, p1, p2, p1);
    assert w.0 == alpha * det by {
      assert (p2.y - p0.y) * (p1.x - p0.x) - (p2.x - p0.x) * (p1.y - p0.y) == det;
    }
    assert w.1 == 0.0 by {
      assert (p1.x - p0.x) * (p1.y - p0.y) - (p1.y - p0.y) * (p1.x - p0.x) == 0.0;
    }
  }

  // ---------------------------------------------------------------- tooNear

  /** The loop of `tooNear`: whether some item lies strictly closer than `d` to `p`. */
  method AnyCloser(lib: VecLib, items: seq<V3>, p: V3, d: real) returns (near: bool)
    ensures near <==> exists i :: 0 <= i < |items| && Norm(lib, Sub(p, items[i])) < d
  {
    near := false;
    if |items| > 0 {
      for i := 0 to |items|
        invariant !near
        invariant forall j :: 0 <= j < i ==> Norm(lib, Sub(p, items[j])) >= d
      {
        if Norm(lib, Sub(p, items[i])) < d {
          near := true;
          break;
        }
      }
    }
  }

  /** A coordinate difference never exceeds the distance. */
  lemma CoordWithinNorm(lib: VecLib, a: V3)
    requires ValidLib(lib)
    ensures Abs(a.x) <= Norm(lib, a) && Abs(a.y) <= Norm(lib, a) && Abs(a.z) <= Norm(lib, a)
  {
    var n2 := Norm2(a);
    var s := lib.sqrt(n2);
    assert s >= 0.0 && s * s == n2 by {
      Norm2Pos(a);
    }
    assert n2 == a.x * a.x + a.y * a.y + a.z * a.z;
    SquareBelow(s, a.x, a.y * a.y + a.z * a.z);
    SquareBelow(s, a.y, a.x * a.x + a.z * a.z);
    SquareBelow(s, a.z, a.x * a.x + a.y * a.y);
  }

  lemma SquareBelow(s: real, x: real, rest: real)
    requires s >= 0.0 && s * s == x * x + rest
    requires rest >= 0.0
    ensures Abs(x) <= s
  {
    var ax := Abs(x);
    if ax > s {
      calc {
        ax * ax;
      > { assert (ax - s) * ax > 0.0; }
        s * ax;
      >= { assert s * (ax - s) >= 0.0; }
        s * s;
      ==
        x * x + rest;
      >=
        x * x;
      == { if x < 0.0 { assert ax * ax == (-x) * (-x); } }
        ax * ax;
      }
    }
  }

  // ---------------------------------------------------------------- the tracer

  /** The defaults of `generate` and `surfaceStreamlines`: the upper and lower seed
      thresholds, and the divisor of the largest extent that gives the step. */
  const DefaultSeedUp: real := 1.0
  const DefaultSeedDown: real := 0.5
  const DefaultStepDivisor: real := 1000.0

  class StreamLinesOnSurface {
    var surface: Option<Mesh>
    var firstCalculus: bool
    var integStep: real
    var dSep: real
    var vectorAttr: Option<seq<V3>>
    var seedAttr: Option<seq<real>>
    var seedThresholdUp: real
    var seedThresholdDown: real
    /** `bbox3_`; meaningless until `run` sets it. */
    var bbox3: Box
    var ptsOctree: Octree?
    var borderEdges: seq<nat>
    /** The points of the line being traced (`curSL`). */
    var curSL: seq<V3>
    /** `solution_`: the flat coordinates of every kept point, across all calls. */
    var solution: seq<real>
    /** The `visited` and `skip` properties `run` puts on each facet. */
    var visited: seq<bool>
    var skip: seq<bool>

    constructor ()
      ensures surface == None && firstCalculus
      ensures integStep == 0.0 && dSep == 0.0
      ensures vectorAttr == None && seedAttr == None
      ensures seedThresholdUp == 1.0 && seedThresholdDown == 0.0
      ensures ptsOctree == null && borderEdges == [] && curSL == [] && solution == []
      ensures Ready()
    {
      surface := None;
      firstCalculus := true;
      integStep := 0.0;
      dSep := 0.0;
      vectorAttr := None;
      seedAttr := None;
      seedThresholdUp := 1.0;
      seedThresholdDown := 0.0;
      bbox3 := Box(Zero3, Zero3);
      ptsOctree := null;
      borderEdges := [];
      curSL := [];
      solution := [];
      visited := [];
      skip := [];
    }

    /** Before the first `generate` there is no surface; after it, a proper one. */
    ghost predicate Ready()
      reads this
    {
      firstCalculus || (surface.Some? && ValidMesh(surface.value))
    }

    /** The state `run` sets up before it traces: a surface, a field, one flag of each
        kind per facet and a well-formed point octree. */
    ghost predicate Tracing()
      reads this, ptsOctree
    {
      && surface.Some? && ValidMesh(surface.value) && vectorAttr.Some?
      && |visited| == |surface.value.facets| && |skip| == |surface.value.facets|
      && ptsOctree != null && ptsOctree.Valid()
    }

    /** Everything but the line, the flags and the solution is as it was. */
    twostate predicate SameSetup()
      reads this
    {
      && old(surface) == surface && old(firstCalculus) == firstCalculus
      && old(integStep) == integStep && old(dSep) == dSep
      && old(vectorAttr) == vectorAttr && old(seedAttr) == seedAttr
      && old(seedThresholdUp) == seedThresholdUp && old(seedThresholdDown) == seedThresholdDown
      && old(bbox3) == bbox3 && old(ptsOctree) == ptsOctree && old(borderEdges) == borderEdges
    }

    /** `tooNear(iP)` as written: the octree query never fills `items`, so the answer
        is always false. */
    method TooNear(lib: VecLib, p: V3) returns (near: bool)
      requires ptsOctree != null && ptsOctree.Valid()
      ensures !near
    {
      var lo := V3(p.x - dSep, p.y - dSep, p.z - dSep);
      var hi := V3(p.x + dSep, p.y + dSep, p.z + dSep);
      var items := new PointList();
      ptsOctree.GetItemsIn(Box(lo, hi), items);
      near := AnyCloser(lib, items.elems, p, dSep);
    }

    /** `tooNear(iP)` over the query as evidently intended: true exactly when some
        stored point lies strictly closer than `d_sep_`. */
    method TooNearFixed(lib: VecLib, p: V3) returns (near: bool)
      requires ptsOctree != null && ptsOctree.Valid() && ValidLib(lib)
      ensures near <==> exists q :: q in ptsOctree.AllItems() && Norm(lib, Sub(p, q)) < dSep
    {
      var lo := V3(p.x - dSep, p.y - dSep, p.z - dSep);
      var hi := V3(p.x + dSep, p.y + dSep, p.z + dSep);
      var items := new PointList();
      ptsOctree.GetItemsInFixed(Box(lo, hi), items);
      near := AnyCloser(lib, items.elems, p, dSep);
      NearCandidates(lib, ptsOctree, p, dSep, items.elems);
    }

    /** The candidates of the fixed query within `d` of `p` are exactly the stored
        points within `d` of `p`. */
    static lemma NearCandidates(lib: VecLib, tree: Octree, p: V3, d: real, cands: seq<V3>)
      requires tree.Valid() && ValidLib(lib)
      requires var fit := Intersection(Box(V3(p.x - d, p.y - d, p.z - d), V3(p.x + d, p.y + d, p.z + d)), tree.bbox);
        cands == if Empty(fit) then [] else OctreeSpec.IntersectedItems(tree.cells, 0, fit)
      ensures (exists i :: 0 <= i < |cands| && Norm(lib, Sub(p, cands[i])) < d) <==>
              (exists q :: q in tree.AllItems() && Norm(lib, Sub(p, q)) < d)
    {
      var cells := tree.cells;
      var q := Box(V3(p.x - d, p.y - d, p.z - d), V3(p.x + d, p.y + d, p.z + d));
      var fit := Intersection(q, tree.bbox);
      OctreeSpec.AllItemsFlat(cells, tree.maxDepth, tree.bbox);
      if !Empty(fit) {
        OctreeSpec.QueryBox(cells, tree.maxDepth, tree.bbox, fit);
      }
      if i :| 0 <= i < |cands| && Norm(lib, Sub(p, cands[i])) < d {
        assert cands[i] in multiset(cands);
        assert cands[i] in multiset(tree.AllItems());
      }
      if x :| x in tree.AllItems() && Norm(lib, Sub(p, x)) < d {
        OctreeSpec.SubtreeInBox(cells, tree.maxDepth, tree.bbox, 0, x);
        CoordWithinNorm(lib, Sub(p, x));
        assert Contains(q, x);
        assert x in multiset(tree.AllItems());
        assert x in OctreeSpec.Stored(cells);
        assert x in cands;
      }
    }

    /** `genOneSL(seed)`: an already visited seed is left alone; otherwise the seed is
        marked, its centroid starts the line (`tooNear` never objects) and the line is
        traced both ways from it. */
    method GenOneSL(geo: Geometry, lib: VecLib, seed: nat)
      requires Tracing() && seed < |visited|
      modifies this
      ensures Tracing() && SameSetup() && solution == old(solution) && skip == old(skip)
      ensures Grew(old(visited), visited) && NewWithin(surface.value, old(visited), visited, seed, 40)
      ensures old(visited[seed]) ==> visited == old(visited) && curSL == old(curSL)
      ensures !old(visited[seed]) ==> visited[seed] && old(curSL) + [BarycenterOf(surface.value, seed)] <= curSL
      ensures AsWritten(geo) && ValidLib(lib) ==>
        visited == old(visited)[seed := true] &&
        curSL == old(curSL) + (if old(visited[seed]) then [] else [BarycenterOf(surface.value, seed)])
    {
      if visited[seed] {
        return;
      }
      visited := visited[seed := true];
      var m := surface.value;
      var barycenter := Barycenter(m, seed);
      var near := TooNear(lib, barycenter);
      if !near {
        curSL := curSL + [barycenter];
        ghost var mid := visited;
        ghost var line := curSL;
        GenSL(geo, lib, barycenter, seed, false);
        ghost var mid2 := visited;
        GenSL(geo, lib, barycenter, seed, true);
        NewWithinTrans(m, mid, mid2, visited, seed, 40);
        assert Reachable(m, seed, seed, 40);
        if AsWritten(geo) && ValidLib(lib) {
          ProjectedVectorAsWritten(m, geo, lib, vectorAttr.value, geo.uv(seed, barycenter), seed, Zero2, false, true);
          ProjectedVectorAsWritten(m, geo, lib, vectorAttr.value, geo.uv(seed, barycenter), seed, Zero2, true, true);
        }
      }
    }

    /** `genSL(iP, polygon, reverse)`: starts one half of the line. Without a
        projection of `iP` or a field direction nothing happens; otherwise `iP` is
        pushed and `recursiveSL` continues with a budget of 40. */
    method GenSL(geo: Geometry, lib: VecLib, iP: V3, polygon: nat, reverse: bool)
      requires Tracing() && polygon < |visited|
      modifies this
      ensures Tracing() && SameSetup() && solution == old(solution) && skip == old(skip)
      ensures Grew(old(visited), visited) && NewWithin(surface.value, old(visited), visited, polygon, 40)
      ensures old(curSL) <= curSL
      ensures (!geo.uvOk(polygon) ||
               ProjectedVector(surface.value, geo, lib, vectorAttr.value, geo.uv(polygon, iP), polygon, Zero2, reverse, true).None?) ==>
        visited == old(visited) && curSL == old(curSL)
    {
      var m := surface.value;
      if !geo.uvOk(polygon) {
        return;
      }
      var pIP := geo.uv(polygon, iP);
      var hv := ProjectedVector(m, geo, lib, vectorAttr.value, pIP, polygon, Zero2, reverse, true);
      if hv.None? {
        return;
      }
      var dir := Scale2(Normalize2D(lib, hv.value), integStep);
      // The sum `vec.add(nextPIP, hv)` is assigned to `hv`; `nextPIP` only moves if
      // `vec.add` writes into its first argument.
      var nextPIP := if lib.mutates then Add2(pIP, dir) else pIP;
      var nextIP := geo.fromUV(polygon, nextPIP);
      if nextIP.None? {
        return;
      }
      var near := TooNear(lib, iP);
      if near {
        return;
      }
      curSL := curSL + [iP];
      RecursiveSL(geo, lib, polygon, iP, nextIP.value, None, reverse, 40);
    }

    /** `recursiveSL(polygon, fSP, sSP, entryEdge, reverse, maxIter)`: with budget left,
        marks `polygon` visited and, unless the segment leaves the domain or enters
        through a border edge, tries each other edge of `polygon` (`CrossEdge`); when
        the segment crosses none, it continues inside `polygon` (`FollowField`). Every
        call below gets `maxIter - 1`, so only facets fewer than `maxIter` crossings
        away are ever marked. */
    method RecursiveSL(geo: Geometry, lib: VecLib, polygon: nat, fSP: V3, sSP: V3,
                       entryEdge: Option<nat>, reverse: bool, maxIter: nat)
      requires Tracing() && polygon < |visited|
      modifies this
      decreases maxIter, 1
      ensures Tracing() && SameSetup() && solution == old(solution) && skip == old(skip)
      ensures Grew(old(visited), visited) && NewWithin(surface.value, old(visited), visited, polygon, maxIter)
      ensures old(curSL) <= curSL
      ensures maxIter > 0 ==> visited[polygon]
      ensures maxIter == 0 ==> visited == old(visited) && curSL == old(curSL)
    {
      if maxIter == 0 {
        return;
      }
      visited := visited[polygon := true];
      assert Reachable(surface.value, polygon, polygon, maxIter);
      var m := surface.value;
      if !geo.inDomain(fSP, sSP) || (entryEdge.Some? && entryEdge.value in borderEdges) {
        return;
      }
      var pFSP := geo.project(polygon, fSP);
      var pSSP := geo.project(polygon, sSP);
      // Both projections, and those of the edge ends in `CrossEdge`, use this
      // facet's plane: they all succeed or all fail.
      if !geo.uvOk(polygon) {
        return;
      }
      var pFSPuv := geo.uv(polygon, pFSP);
      var pSSPuv := geo.uv(polygon, pSSP);
      var pSV := Sub2(pSSPuv, pFSPuv);
      var intersectFound := false;
      for i := 0 to 3
        invariant Tracing() && SameSetup() && solution == old(solution) && skip == old(skip)
        invariant Grew(old(visited), visited) && NewWithin(m, old(visited), visited, polygon, maxIter)
        invariant old(curSL) <= curSL && visited[polygon]
      {
        var edge := EdgesOf(m, polygon)[i];
        if entryEdge != Some(edge) {
          ghost var before := visited;
          var stop, crossed := CrossEdge(geo, lib, polygon, i, pFSPuv, pSV, pSSP, reverse, maxIter);
          NewWithinTrans(m, old(visited), before, visited, polygon, maxIter);
          if stop {
            return;
          }
          intersectFound := intersectFound || crossed;
        }
      }
      if !intersectFound {
        ghost var before := visited;
        FollowField(geo, lib, polygon, pSSP, pSSPuv, pSV, reverse, maxIter);
        NewWithinTrans(m, old(visited), before, visited, polygon, maxIter);
      }
    }

    /** One pass of the edge loop of `recursiveSL`, for the `i`-th edge of `polygon`:
        when the segment crosses it, the crossing point is lifted back to 3D and the
        walk goes on into the facet beyond, if that facet exists and is unvisited;
        `stop` says that `recursiveSL` returns. */
    method CrossEdge(geo: Geometry, lib: VecLib, polygon: nat, i: nat, pFSPuv: V2, pSV: V2, pSSP: V3,
                     reverse: bool, maxIter: nat) returns (stop: bool, crossed: bool)
      requires Tracing() && polygon < |visited| && i < 3 && maxIter > 0
      modifies this
      decreases maxIter, 0
      ensures Tracing() && SameSetup() && solution == old(solution) && skip == old(skip)
      ensures Grew(old(visited), visited) && NewWithin(surface.value, old(visited), visited, polygon, maxIter)
      ensures old(curSL) <= curSL
      ensures crossed ==> geo.crossing(polygon, EdgesOf(surface.value, polygon)[i], pFSPuv, pSV).Some?
    {
      var m := surface.value;
      var edge := EdgesOf(m, polygon)[i];
      stop, crossed := false, false;
      var iC := geo.crossing(polygon, edge, pFSPuv, pSV);
      if iC.None? {
        return;
      }
      var uIP := geo.fromUV(polygon, iC.value);
      if uIP.None? {
        return true, false;
      }
      var near := TooNear(lib, uIP.value);
      if near {
        return true, false;
      }
      var mate := BorderPolygon(m, edge, polygon);
      if mate.None? || visited[mate.value] {
        return true, false;
      }
      RecursiveSL(geo, lib, mate.value, uIP.value, pSSP, Some(edge), reverse, maxIter - 1);
      NewWithinStep(m, old(visited), visited, polygon, i, maxIter - 1);
      crossed := true;
    }

    /** The end of `recursiveSL` when the segment crosses no edge: `pSSP` joins the
        line and, given a field direction there, the walk continues inside `polygon`
        one integration step further. */
    method FollowField(geo: Geometry, lib: VecLib, polygon: nat, pSSP: V3, pSSPuv: V2, pSV: V2,
                       reverse: bool, maxIter: nat)
      requires Tracing() && polygon < |visited| && maxIter > 0
      modifies this
      decreases maxIter, 0
      ensures Tracing() && SameSetup() && solution == old(solution) && skip == old(skip)
      ensures Grew(old(visited), visited) && NewWithin(surface.value, old(visited), visited, polygon, maxIter)
      ensures old(curSL) + [pSSP] <= curSL
    {
      var m := surface.value;
      var near := TooNear(lib, pSSP);
      if near {
        return;
      }
      curSL := curSL + [pSSP];
      var pIV := ProjectedVector(m, geo, lib, vectorAttr.value, pSSPuv, polygon, pSV, reverse, false);
      if pIV.None? {
        return;
      }
      var dir := Scale2(Normalize2D(lib, pIV.value), integStep);
      var next := geo.fromUV(polygon, Add2(pSSPuv, dir));
      if next.None? {
        return;
      }
      RecursiveSL(geo, lib, polygon, pSSP, next.value, None, reverse, maxIter - 1);
      NewWithinMono(m, old(visited), visited, polygon, maxIter - 1);
    }

    /** The first `forEachFace` of `run`: every facet becomes unvisited and unskipped. */
    method ResetFlags()
      requires surface.Some?
      modifies this
      ensures SameSetup() && solution == old(solution) && curSL == old(curSL)
      ensures |visited| == |surface.value.facets| && |skip| == |surface.value.facets|
      ensures forall g :: 0 <= g < |visited| ==> !visited[g] && !skip[g]
    {
      var n := |surface.value.facets|;
      visited, skip := [], [];
      for i := 0 to n
        invariant SameSetup() && solution == old(solution) && curSL == old(curSL)
        invariant |visited| == i && |skip| == i
        invariant forall g :: 0 <= g < i ==> !visited[g] && !skip[g]
      {
        visited, skip := visited + [false], skip + [false];
      }
    }

    /** The threshold pass of `run` over the facets in `order` (the facets sorted by
        decreasing seed value): a facet whose normalized value lies above
        `seedThresholdUp` or below `seedThresholdDown` is skipped. The outcome does not
        depend on `order`, only on which facets it lists. */
    method MarkSkipped(order: seq<nat>)
      requires seedAttr.Some? && forall k :: 0 <= k < |order| ==> order[k] < |skip|
      modifies this
      ensures SameSetup() && solution == old(solution) && curSL == old(curSL) && visited == old(visited)
      ensures |skip| == old(|skip|)
      ensures forall f :: 0 <= f < |skip| ==>
        skip[f] == (old(skip[f]) || (f in order && Rejected(seedAttr.value, seedThresholdUp, seedThresholdDown, f)))
    {
      for i := 0 to |order|
        invariant SameSetup() && solution == old(solution) && curSL == old(curSL) && visited == old(visited)
        invariant |skip| == old(|skip|)
        invariant forall f :: 0 <= f < |skip| ==>
          skip[f] == (old(skip[f]) || (f in order[..i] && Rejected(seedAttr.value, seedThresholdUp, seedThresholdDown, f)))
      {
        var f := order[i];
        var val := Normalized(seedAttr.value, f);
        if val.Some? && (val.value > seedThresholdUp || val.value < seedThresholdDown) {
          skip := skip[f := true];
        }
        assert order[..i + 1] == order[..i] + [f];
      }
      assert order[..|order|] == order;
    }

    /** The second half of `run`'s step for one facet: every point of the current line
        that lies in `bbox3_` goes into the octree and, as three coordinates, onto
        `solution_` (all at once, and only if there is any). */
    method EmitLine() returns (ghost kept: seq<V3>)
      requires ptsOctree != null && ptsOctree.Valid() && ptsOctree.bbox == bbox3
      modifies this, ptsOctree
      ensures SameSetup() && curSL == old(curSL) && visited == old(visited) && skip == old(skip)
      ensures kept == Filter(curSL, InBox(bbox3))
      ensures solution == old(solution) + Flatten(kept)
      ensures ptsOctree.Valid()
      ensures multiset(ptsOctree.AllItems()) == multiset(old(ptsOctree.AllItems())) + multiset(kept)
    {
      var lines;
      lines, kept := InsertInside(ptsOctree, curSL);
      if |lines| > 0 {
        solution := solution + lines;
      }
    }

    /** `run`: with a field, sets up the octree over `bbox3_`, resets the flags, applies
        the seed filter, then traces a line from every facet that is not skipped and
        emits its points. `pts` are the points emitted, in order. As written, those
        are exactly the in-box centroids of the kept facets. */
    method Run(geo: Geometry, lib: VecLib, order: seq<nat>) returns (ghost pts: seq<V3>)
      requires surface.Some? && ValidMesh(surface.value) && Lists(order, |surface.value.facets|)
      modifies this
      ensures surface == old(surface) && firstCalculus == old(firstCalculus) && integStep == old(integStep)
      ensures vectorAttr == old(vectorAttr) && seedAttr == old(seedAttr)
      ensures seedThresholdUp == old(seedThresholdUp) && seedThresholdDown == old(seedThresholdDown)
      ensures solution == old(solution) + Flatten(pts)
      ensures vectorAttr.None? ==> pts == []
      ensures vectorAttr.Some? ==>
        && Tracing() && fresh(ptsOctree) && bbox3 == geo.workBox && dSep == integStep
        && borderEdges == surface.value.borderEdges
        && skip == SkipFlags(|surface.value.facets|, seedAttr, seedThresholdUp, seedThresholdDown)
        && multiset(ptsOctree.AllItems()) == multiset(pts)
        && (forall p :: p in pts ==> Contains(geo.workBox, p))
      ensures vectorAttr.Some? && AsWritten(geo) && ValidLib(lib) ==>
        pts == SeedPoints(surface.value, skip, geo.workBox, |surface.value.facets|)
    {
      pts := [];
      if vectorAttr.None? {
        return;
      }
      var m := surface.value;
      borderEdges := m.borderEdges;
      dSep := integStep;
      bbox3 := geo.workBox;
      var tree := new Octree(bbox3, 5, 10);
      ptsOctree := tree;
      ResetFlags();
      if seedAttr.Some? {
        MarkSkipped(order);
      }
      assert skip == SkipFlags(|m.facets|, seedAttr, seedThresholdUp, seedThresholdDown);
      pts := TraceAll(geo, lib);
    }

    /** `run`'s loop over the facets, from an empty octree: every kept facet's line is
        traced and emitted in turn. As written, the points emitted are the in-box
        centroids of the kept facets. */
    method TraceAll(geo: Geometry, lib: VecLib) returns (ghost pts: seq<V3>)
      requires Tracing() && ptsOctree.bbox == bbox3 && multiset(ptsOctree.AllItems()) == multiset{}
      requires AsWritten(geo) && ValidLib(lib) ==> forall g :: 0 <= g < |visited| ==> !visited[g]
      modifies this, ptsOctree
      ensures Tracing() && SameSetup() && skip == old(skip)
      ensures solution == old(solution) + Flatten(pts)
      ensures multiset(ptsOctree.AllItems()) == multiset(pts)
      ensures forall p :: p in pts ==> Contains(bbox3, p)
      ensures AsWritten(geo) && ValidLib(lib) ==> pts == SeedPoints(surface.value, skip, bbox3, |skip|)
    {
      pts := [];
      var tree := ptsOctree;
      ghost var aw := AsWritten(geo) && ValidLib(lib);
      for f := 0 to |skip|
        invariant Tracing() && SameSetup() && skip == old(skip) && ptsOctree == tree && tree.bbox == bbox3
        invariant Emitted(bbox3, pts, multiset(tree.AllItems()), old(solution), solution)
        invariant aw ==> SeededUpTo(surface.value, skip, bbox3, f, pts, visited)
      {
        ghost var (visited0, items0, solution0) := (visited, multiset(tree.AllItems()), solution);
        var kept := TraceFacet(geo, lib, f);
        EmittedStep(bbox3, pts, kept, items0, multiset(tree.AllItems()), old(solution), solution0, solution);
        if aw {
          SeededStep(surface.value, skip, bbox3, f, pts, kept, visited0, visited);
        }
        pts := pts + kept;
      }
    }

    /** One turn of `run`'s loop over the facets: a facet the seed filter keeps starts
        a fresh line, which is traced and emitted. */
    method TraceFacet(geo: Geometry, lib: VecLib, f: nat) returns (ghost kept: seq<V3>)
      requires Tracing() && f < |visited| && ptsOctree.bbox == bbox3
      modifies this, ptsOctree
      ensures Tracing() && SameSetup() && skip == old(skip) && ptsOctree.bbox == bbox3
      ensures Grew(old(visited), visited)
      ensures solution == old(solution) + Flatten(kept)
      ensures multiset(ptsOctree.AllItems()) == multiset(old(ptsOctree.AllItems())) + multiset(kept)
      ensures forall p :: p in kept ==> Contains(bbox3, p)
      ensures skip[f] ==> kept == [] && visited == old(visited)
      ensures AsWritten(geo) && ValidLib(lib) && !skip[f] && !old(visited[f]) ==>
        visited == old(visited)[f := true] &&
        kept == (if Contains(bbox3, BarycenterOf(surface.value, f)) then [BarycenterOf(surface.value, f)] else [])
    {
      kept := [];
      if !skip[f] {
        curSL := [];
        GenOneSL(geo, lib, f);
        kept := EmitLine();
        if AsWritten(geo) && ValidLib(lib) && !old(visited[f]) {
          FilterOne(BarycenterOf(surface.value, f), InBox(bbox3));
        }
      }
    }

    /** `generate`: the first call fixes the surface and derives the integration step
        (and `d_sep_`) from its largest extent; later calls keep both, whatever mesh
        they pass. Without a field it fails; otherwise it records the field (and the
        seed serie with its thresholds, when given), runs, and returns `solution_`,
        which only ever grows, by three numbers per emitted point. Absent thresholds
        and step divisor take the defaults 1, 0.5 and 1000. */
    method Generate(geo: Geometry, lib: VecLib, mesh: Mesh, fieldAttribute: Option<seq<V3>>,
                    seedAttribute: Option<seq<real>>, seedUp: Option<real>, seedDown: Option<real>,
                    integration: Option<real>, order: seq<nat>) returns (r: Result<seq<real>>)
      requires Ready() && (firstCalculus ==> ValidMesh(mesh) && integration != Some(0.0))
      requires Lists(order, |(if firstCalculus then mesh else surface.value).facets|)
      modifies this
      ensures var up, down := seedUp.GetOr(DefaultSeedUp), seedDown.GetOr(DefaultSeedDown);
        fieldAttribute.Some? && seedAttribute.Some? ==> seedThresholdUp == up && seedThresholdDown == down
      ensures var istep := integration.GetOr(DefaultStepDivisor);
        old(firstCalculus) ==> surface == Some(mesh) && integStep == MaxExtent(mesh.bounds) / istep
      ensures Ready() && !firstCalculus
      ensures !old(firstCalculus) ==> surface == old(surface) && integStep == old(integStep)
      ensures fieldAttribute.None? ==>
        r.Err? && solution == old(solution) && vectorAttr == old(vectorAttr) && seedAttr == old(seedAttr)
      ensures fieldAttribute.Some? ==> r == Ok(solution) && vectorAttr == fieldAttribute && dSep == integStep
      ensures fieldAttribute.Some? && seedAttribute.Some? ==> seedAttr == seedAttribute
      ensures fieldAttribute.Some? && seedAttribute.None? ==>
        seedAttr == old(seedAttr) && seedThresholdUp == old(seedThresholdUp) && seedThresholdDown == old(seedThresholdDown)
      ensures old(solution) <= solution && (|solution| - |old(solution)|) % 3 == 0
      ensures fieldAttribute.Some? ==>
        skip == SkipFlags(|surface.value.facets|, seedAttr, seedThresholdUp, seedThresholdDown)
      ensures fieldAttribute.Some? && AsWritten(geo) && ValidLib(lib) ==>
        solution == old(solution) + Flatten(SeedPoints(surface.value, skip, geo.workBox, |surface.value.facets|))
    {
      Configure(mesh, fieldAttribute, seedAttribute, seedUp.GetOr(DefaultSeedUp),
                seedDown.GetOr(DefaultSeedDown), integration.GetOr(DefaultStepDivisor));
      if fieldAttribute.None? {
        return Err("Vector field attribute is undefined");
      }
      ghost var pts := Run(geo, lib, order);
      assert |solution| - |old(solution)| == 3 * |pts|;
      r := Ok(solution);
    }

    /** The part of `generate` before `run`: the first call fixes the surface and the
        integration step; a given field, and a given seed serie with its thresholds,
        replace the recorded ones. */
    method Configure(mesh: Mesh, fieldAttribute: Option<seq<V3>>, seedAttribute: Option<seq<real>>,
                     up: real, down: real, istep: real)
      requires Ready() && (firstCalculus ==> ValidMesh(mesh) && istep != 0.0)
      modifies this
      ensures Ready() && !firstCalculus && solution == old(solution)
      ensures old(firstCalculus) ==>
        surface == Some(mesh) && integStep == MaxExtent(mesh.bounds) / istep && dSep == integStep
      ensures !old(firstCalculus) ==> surface == old(surface) && integStep == old(integStep) && dSep == old(dSep)
      ensures fieldAttribute.None? ==> vectorAttr == old(vectorAttr) && seedAttr == old(seedAttr)
      ensures fieldAttribute.Some? ==> vectorAttr == fieldAttribute
      ensures fieldAttribute.Some? && seedAttribute.Some? ==>
        seedAttr == seedAttribute && seedThresholdUp == up && seedThresholdDown == down
      ensures fieldAttribute.Some? && seedAttribute.None? ==>
        seedAttr == old(seedAttr) && seedThresholdUp == old(seedThresholdUp) && seedThresholdDown == old(seedThresholdDown)
    {
      if firstCalculus {
        firstCalculus := false;
        surface := Some(mesh);
        integStep := MaxExtent(mesh.bounds) / istep;
        dSep := integStep;
      }
      if fieldAttribute.None? {
        return;
      }
      vectorAttr := fieldAttribute;
      if seedAttribute.Some? {
        seedThresholdUp := up;
        seedThresholdDown := down;
        seedAttr := seedAttribute;
      }
    }
  }

  /** `p => bbox.contains(p)`. */
  function InBox(b: Box): V3 -> bool {
    p => Contains(b, p)
  }

  /** The `forEach` over the current line in `run`: the points inside the octree's
      box are added to it and their coordinates collected (`lines.push(...point)`). */
  method InsertInside(tree: Octree, line: seq<V3>) returns (flat: seq<real>, ghost kept: seq<V3>)
    requires tree.Valid()
    modifies tree
    ensures kept == Filter(line, InBox(tree.bbox)) && flat == Flatten(kept)
    ensures tree.Valid()
    ensures multiset(tree.AllItems()) == multiset(old(tree.AllItems())) + multiset(kept)
  {
    flat, kept := [], [];
    for k := 0 to |line|
      invariant tree.Valid()
      invariant kept == Filter(line[..k], InBox(tree.bbox)) && flat == Flatten(kept)
      invariant multiset(tree.AllItems()) == multiset(old(tree.AllItems())) + multiset(kept)
    {
      FilterSnoc(line, k, tree.bbox);
      if Contains(tree.bbox, line[k]) {
        tree.AddItem(line[k]);
        FlattenPush(kept, line[k]);
        flat := flat + Flat(line[k]);
        kept := kept + [line[k]];
      }
    }
    assert line[..|line|] == line;
  }

  lemma FilterSnoc(s: seq<V3>, k: nat, b: Box)
    requires k < |s|
    ensures Filter(s[..k + 1], InBox(b)) == Filter(s[..k], InBox(b)) + (if Contains(b, s[k]) then [s[k]] else [])
  {
    assert s[..k + 1][..k] == s[..k];
  }

  lemma FilterOne(p: V3, keep: V3 -> bool)
    ensures Filter([p], keep) == if keep(p) then [p] else []
  {
    assert [p][..0] == [];
  }

  /** `surfaceStreamlines`: a fresh tracer's `generate`, with `maxSeed` as the upper and
      `minSeed` as the lower threshold (by default 1 and 0.5, and the step divisor
      1000). As written, the result is the flat list of the
      in-box centroids of the facets the seed filter keeps. */
  method SurfaceStreamlines(geo: Geometry, lib: VecLib, mesh: Mesh, fieldAttribute: Option<seq<V3>>,
                            seedAttribute: Option<seq<real>>, integrationStep: Option<real>,
                            minSeed: Option<real>, maxSeed: Option<real>, order: seq<nat>)
    returns (r: Result<seq<real>>)
    requires ValidMesh(mesh) && integrationStep != Some(0.0) && Lists(order, |mesh.facets|)
    ensures r.Err? <==> fieldAttribute.None?
    ensures r.Ok? ==> |r.value| % 3 == 0
    ensures var up, down := maxSeed.GetOr(DefaultSeedUp), minSeed.GetOr(DefaultSeedDown);
      fieldAttribute.Some? && AsWritten(geo) && ValidLib(lib) ==>
      r == Ok(Flatten(SeedPoints(mesh, SkipFlags(|mesh.facets|, seedAttribute, up, down), geo.workBox, |mesh.facets|)))
  {
    var s := new StreamLinesOnSurface();
    var up, down := maxSeed.GetOr(DefaultSeedUp), minSeed.GetOr(DefaultSeedDown);
    r := s.Generate(geo, lib, mesh, fieldAttribute, seedAttribute, Some(up), Some(down), integrationStep, order);
    if fieldAttribute.Some? {
      ghost var skip := SkipFlags(|mesh.facets|, seedAttribute, up, down);
      assert s.skip == skip by {
        if seedAttribute.None? {
          SkipFlagsIgnoreThresholds(|mesh.facets|, 1.0, 0.0, up, down);
        }
      }
      ghost var out := Flatten(SeedPoints(mesh, skip, geo.workBox, |mesh.facets|));
      assert [] + out == out;
    }
  }

  lemma SkipFlagsIgnoreThresholds(nf: nat, up: real, down: real, up': real, down': real)
    ensures SkipFlags(nf, None, up, down) == SkipFlags(nf, None, up', down')
  {
    var a, b := SkipFlags(nf, None, up, down), SkipFlags(nf, None, up', down');
    assert forall f :: 0 <= f < nf ==> a[f] == b[f];
  }
}
