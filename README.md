# streamlines, modelled in Dafny

A model of the library part of `@youwol/streamlines`. The library traces streamlines and streambands through a
vector field, in two settings:

- **Free field.** `DynanicStreamLines` and `DynanicStreamBands` step from a seed along a field function until they
  leave a bounding box or run out of steps.
- **Triangulated surface.** `surfaceStreamlines` / `StreamLinesOnSurface` seed one line per facet at the facet's
  centroid. A line crosses into neighbouring facets through the projected (UV) field, up to 40 crossings deep, and
  the points are collected in a point octree and a flat solution array.

The helpers these rely on are modelled too:

- `Octree`, an arena of cells that splits a full leaf into eight octants;
- `Plane`, with orientation tests, UV coordinates, projection and the point-normal constructor;
- `Ray` / `intersectRay3DPlane`, and `Ray2D.intersectRay`;
- the small vector constructors of `utils.ts`.

Modules, one per source file plus shared value types:

| module | what it holds |
|---|---|
| `Vectors` | `V2`/`V3` values; `VecLib`, the square root and whether `vec.normalize`/`vec.scale`/`vec.add` write into their (first) argument; `PointList`, a caller's `Array<Vector3>` |
| `Boxes` | the `BBox` operations the core calls |
| `Utils` | `utils.ts`, plus the `Option`/`Result` wrappers |
| `Octrees`, `OctreeSpec` | `Octree.ts`: the class, and the functions and lemmas over its cell arena |
| `Planes` | `Plane.ts` |
| `PlaneExamples` | a worked instance of `Plane.ts` on a horizontal triangle |
| `Rays` | `Ray.ts` |
| `Rays2D` | `Ray2D.ts` |
| `Walks` | the bounded stepping loop the two dynamic tracers share, with its characterisation |
| `StreamLines` | `DynanicStreamLines.ts` |
| `StreamBands` | `DynanicStreamBands.ts` |
| `Surface` | `surfaceStreamlines.ts` |

Numbers are exact reals. The square root is a parameter (`VecLib.sqrt`); `ValidLib` says it is exact on non-negative
arguments. The surface (`Mesh`) and the geometric routines the surface tracer calls per facet (`Geometry`) are
parameters. That tracer's own state is modelled in full: the visited and skip flags, the seed filter, the recursion
budget, the current line, the octree and the solution.

## Model

| member | source | states |
|---|---|---|
| Utils.CreateV2 | src/lib/utils.ts:13-18 | a fresh array: `[v, y]` when `y` is given, a copy of a given vector, `[0, 0]` without arguments; spreading a lone number is the error case |
| Utils.CreateV3 | src/lib/utils.ts:31-36 | a fresh array: `[v, y, z]` only when both `y` and `z` are given, else a copy of `v` or `[0, 0, 0]`; a number without both companions is the error case |
| Utils.CopyIsIndependent | src/lib/utils.ts:35 | the copy `createV3(v)` makes is a different array: writing into it leaves `v` unchanged |
| Utils.SetV2 | src/lib/utils.ts:38-42 | writes `x, y` into the first two slots, keeps the rest, and returns the same array |
| Utils.SetV3 | src/lib/utils.ts:44-49 | writes `x, y, z` into the first three slots, keeps the rest, and returns the same array |
| Boxes.Intersection | src/lib/Octree.ts:88-90 | a point is in the overlap exactly when it is in both boxes; the overlap is empty exactly when the boxes are disjoint or one is empty |
| Boxes.MaxExtent | src/lib/DynanicStreamLines.ts:69-73 | the largest of the three extents: at least each of them and equal to one of them |
| Octrees.Filter | src/lib/Octree.ts:23-27 | keeps, in order, only elements that pass the test |
| Octrees.SelectInside | src/lib/Octree.ts:22-28 | the loop of `addItems` collects exactly the `Filter` of the items by `inside` |
| Octrees.Octree.constructor | src/lib/Octree.ts:11-16 | a single empty root cell over `box`, with the given limits, forming a valid octree |
| Octrees.Octree.ChildContaining | src/lib/Octree.ts:208-241 | the child of `j` in `pt`'s octant (coordinates `<=` the midpoint go low); it is a child of `j` and holds `pt` whenever `j` does |
| Octrees.Octree.GetCellContaining | src/lib/Octree.ts:96-103 | the descent ends in a leaf, and that leaf's box holds `pt` whenever the root's does |
| Octrees.Octree.Dispatch | src/lib/Octree.ts:314-319 | the items of the split cell move into the children that hold them; the stored multiset is unchanged and only `j` and its children change |
| Octrees.Octree.Subdivide | src/lib/Octree.ts:247-325 | a cell at `maxDepth`, or a leaf within capacity, is untouched; otherwise its whole subtree ends settled, the stored items are unchanged, new cells hang below `j`, and cells outside the subtree are unchanged |
| Octrees.Octree.Split | src/lib/Octree.ts:256-324 | the splitting branch: children created, items moved down, and every cell below `j` settled without losing or duplicating an item |
| Octrees.Octree.SubdivideChildren | src/lib/Octree.ts:320-324 | after the loop over the eight children, every branch below `j` is settled and nothing outside `j`'s subtree has changed |
| Octrees.Octree.AddItem | src/lib/Octree.ts:33-44 | a point inside the root box is added to the stored multiset once, and the tree stays valid; a point outside leaves the tree unchanged |
| Octrees.Octree.AddItems | src/lib/Octree.ts:18-31 | the stored multiset grows by exactly the accepted points, and the tree stays valid |
| Octrees.Octree.GetCellCenter | src/lib/Octree.ts:50-56 | the midpoint of the cell's box (the root by default); it lies inside any non-empty box |
| Octrees.Octree.DoGetAllItems | src/lib/Octree.ts:179-190 | appends the items below `j` to the caller's list; with `SubtreeItemsFlat`, that is every stored item of the subtree exactly once |
| Octrees.Octree.GetAllItemsInCell | src/lib/Octree.ts:105-107 | `do_get_all_items` on the given cell, or on the root by default |
| Octrees.Octree.GetIntersectedItems | src/lib/Octree.ts:192-206 | appends the items of the leaves reached through children that meet the query box |
| Octrees.Octree.GetItemsIn | src/lib/Octree.ts:86-94 | as written: the caller's list is left exactly as it was |
| Octrees.Octree.GetItemsInFixed | src/lib/Octree.ts:86-94 | as intended: appends the items of the cells that meet the part of the query inside the root box (complete by `QueryBox`) |
| Octrees.Octree.GetItemsNear | src/lib/Octree.ts:58-84 | as written: the caller's list is left exactly as it was |
| Octrees.Octree.GetItemsNearFixed | src/lib/Octree.ts:58-84 | as intended: appends the items of the leaf holding `pt`, or those under its mother when the leaf is empty and `checkMother` is set |
| Octrees.Octree.DoGetActualMaxDepth | src/lib/Octree.ts:327-337 | raises the record to the deepest leaf depth below `j` and leaves it alone if it is already deeper |
| Octrees.Octree.GetActualMaxDepth | src/lib/Octree.ts:125-129 | the deepest leaf's depth: no leaf is deeper, and it never exceeds `maxDepth` |
| Octrees.Octree.VisitTerminalChildren | src/lib/Octree.ts:109-111 | the callback visits exactly the leaves of the tree |
| Octrees.Octree.DoVisitTerminalChildren | src/lib/Octree.ts:339-345 | the leaves below `j`, children in slot order |
| Octrees.ItemsInLosesResults | src/lib/Octree.ts:86-94 | counterexample: a tree storing `p` returns `[p]` from `getAllItemsInCell` but leaves `getItemsIn`'s list empty |
| OctreeSpec.OctantIndex | src/lib/Octree.ts:208-241 | the octant slot is one of the eight children |
| OctreeSpec.OctantIndexContains | src/lib/Octree.ts:208-241 | a point of the cell lies in the octant it is sent to |
| OctreeSpec.OctantsCover | src/lib/Octree.ts:256-313 | the eight octants of a box lie inside it, are non-empty when it is, and cover it |
| OctreeSpec.LeftAlone | src/lib/Octree.ts:248-255 | a cell that `do_subdivide` leaves alone is settled and has nothing below it |
| OctreeSpec.DescendLeaf | src/lib/Octree.ts:96-103 | following `get_child_containing` from `j` reaches a leaf in `j`'s subtree whose box holds the point |
| OctreeSpec.DepthBound | src/lib/Octree.ts:248-255 | no cell is deeper than `maxDepth` (apart from a root already at that depth) |
| OctreeSpec.MaxLeafDepthIsMax | src/lib/Octree.ts:327-337 | every leaf below `j` is at most as deep as the reported maximum |
| OctreeSpec.IntersectedSub | src/lib/Octree.ts:192-206 | a box query returns a sub-multiset of what `do_get_all_items` returns |
| OctreeSpec.IntersectedAll | src/lib/Octree.ts:192-206 | a query box covering a non-empty cell returns everything below it |
| OctreeSpec.SubtreeItemsFlat | src/lib/Octree.ts:179-190 | the items collected below `x` are, as a multiset, exactly the items stored in `x`'s subtree |
| OctreeSpec.AllItemsFlat | src/lib/Octree.ts:105-107 | the items collected from the root are exactly the stored items |
| OctreeSpec.SubtreeInBox | src/lib/Octree.ts:179-190 | every item listed below a cell lies in that cell's box |
| OctreeSpec.IntersectedComplete | src/lib/Octree.ts:192-206 | a box query misses no stored item that lies in the query box |
| OctreeSpec.QueryBox | src/lib/Octree.ts:86-94 | from the root, a query returns every stored item in the box, with no more copies than are stored |
| OctreeSpec.NearItemsLocal | src/lib/Octree.ts:58-84 | everything `getItemsNear` reports lies in one cell box that also holds the point |
| OctreeSpec.LeavesExact | src/lib/Octree.ts:339-345 | the visit reaches a cell exactly when it is a leaf below `j` |
| Planes.AnchorsCoplanar | src/lib/Plane.ts:130-141 | each of the three anchors is classified `COPLANAR` |
| Planes.FlipSwapsSides | src/lib/Plane.ts:118-141 | exchanging `p2` and `p3` exchanges side A and side B for every point |
| Planes.DegenerateAllCoplanar | src/lib/Plane.ts:12-37 | with collinear anchors the orientation is zero for every point |
| Planes.AnchorsOnPlane | src/lib/Plane.ts:51-63 | the plane equation `normal . q + d == 0` holds at all three anchors |
| Planes.InPlaneSignFree | src/lib/Plane.ts:260-276 | both sign branches compute the same ratio, so only the squared distance matters |
| Planes.OnPlaneIsInPlane | src/lib/Plane.ts:260-276 | a point on the plane of a proper triangle passes `inPlane` |
| Planes.DegenerateNotInPlane | src/lib/Plane.ts:260-276 | a degenerate triangle accepts no point |
| Planes.AnchorsInPlane | src/lib/Plane.ts:260-276 | the anchors of a proper triangle pass `inPlane` |
| Planes.UVOfAnchors | src/lib/Plane.ts:152-182 | `p1` maps to (0, 0) and `p2` to (1, 0), or to (\|p2 - p1\|, 0) without normalization |
| Planes.FromUVInPlane | src/lib/Plane.ts:185-225 | for a proper triangle every point `fromUV` computes lies on the plane, so the call succeeds for all (u, v) |
| Planes.ProjectRange | src/lib/Plane.ts:227-258 | `project` returns -1 or a non-negative length |
| Planes.ProjectIsDistance | src/lib/Plane.ts:227-258 | on a triangle whose normal is at least `Eps` long, `project` returns the point's distance to the plane, snapped to 0 below `Eps` |
| Planes.ProjectTinyTriangle | src/lib/Plane.ts:227-258 | on a triangle whose normal is shorter than `Eps`, `project` returns -1 for every point off the plane |
| Planes.CompanionOrth | src/lib/Plane.ts:65-96 | the helper vector `fromPointAndNormal` builds is non-zero and orthogonal to the normal |
| Planes.PointNormalPlane | src/lib/Plane.ts:65-96 | fails exactly when every normal component is within 1e-3 of zero; otherwise the plane passes through `p` and its triangle normal is exactly `-normal` |
| Planes.PointNormalFlipped | src/lib/Plane.ts:65-96 | the plane built from a point and a normal stores the opposite unit normal |
| Planes.FlippedPlane | src/lib/Plane.ts:118-128 | exchanging the last two anchors negates the unit normal and swaps every side |
| Planes.Plane.constructor | src/lib/Plane.ts:47-49 | the plane through the three anchors, consistent with them |
| Planes.Plane.Set | src/lib/Plane.ts:51-63 | stores the anchors and the derived unit normal and offset, so the plane stays valid |
| Planes.Plane.FlipOrientation | src/lib/Plane.ts:118-128 | `p2` and `p3` exchanged and the normal negated; the plane stays valid |
| Planes.Plane.GetNorm | src/lib/Plane.ts:147-150 | the length of `p2 - p1`, zero exactly when the two coincide |
| Planes.Plane.ToUV | src/lib/Plane.ts:152-182 | with the flag it fails exactly when `p2 == p1` and otherwise writes the coordinates; without it, the caller's array is never written |
| Planes.Plane.ToUVFromVector | src/lib/Plane.ts:278-296 | reports whether `p2 != p1` and never writes the caller's array |
| Planes.Plane.FromUV | src/lib/Plane.ts:185-225 | fails when `p1 == p2` and otherwise reports the `inPlane` test of the computed point; the caller's array is never written |
| Planes.Plane.FromUVFixed | src/lib/Plane.ts:185-225 | as intended: the computed point is written into the caller's array; over a proper triangle the call succeeds for every (u, v) and the array holds the point with those coordinates |
| Planes.VectorUVIsDifference | src/lib/Plane.ts:278-296 | for any vector `w`, the coordinates of `p1 + w` less those of `p1`, as `toUVFromVector` computes them, are the components of `w` along the two axes |
| Planes.Plane.WriteVectorUV | src/lib/Plane.ts:281-295 | fails exactly when `p2 == p1`, and otherwise writes into the caller's array the components of `w` along the two axes |
| Planes.Plane.ToUVFromVectorFixed | src/lib/Plane.ts:278-296 | as intended: fails exactly when `p2 == p1`, and otherwise writes into the caller's array the coordinates of the corrected projection of `v` (`VectorUVOf`, its components along the two axes by `VectorUVOfIsComponents`) |
| Planes.Plane.Project | src/lib/Plane.ts:227-258 | returns the distance code of `ProjectDistance`; only a coplanar point is written into `result`, as itself |
| Planes.Plane.ProjectVector | src/lib/Plane.ts:298-306 | as written: `p` itself when `p` is coplanar, the zero vector otherwise |
| Planes.Plane.ProjectFixed | src/lib/Plane.ts:227-258 | as intended: the same distance as `project`, and the hit point (`ProjectedPoint`) written into the caller's array whenever there is one |
| Planes.Plane.ProjectVectorFixed | src/lib/Plane.ts:298-306 | with the corrected `project`, the difference of the projections of `p` and of the origin (`ProjectionOf`) |
| Planes.ProjectedPointIsFoot | src/lib/Plane.ts:232-257 | on a triangle whose normal is at least `Eps` long, the point `project` means to write is the foot `p - t * normal`, with `t` the signed distance snapped to 0 below `Eps` |
| Planes.ProjectionRemovesNormal | src/lib/Plane.ts:298-306 | with no distance snapped, the corrected `projectVector(v)` is `v` less its component along the unit normal, and is orthogonal to the normal |
| Planes.ProjectionKeepsInPlane | src/lib/Plane.ts:298-306 | a vector orthogonal to the normal is kept by the corrected projection, wherever it sits as a point |
| Planes.AxesOrthNormal | src/lib/Plane.ts:152-182 | both local axes are orthogonal to the unit normal |
| Planes.VectorUVOfIsComponents | src/lib/Plane.ts:278-306 | with the corrected projection, a vector's coordinates are its components along the two axes; its normal component contributes nothing |
| PlaneExamples.ProjectVectorDropsInPlaneVector | src/lib/Plane.ts:240-253 | counterexample: on the horizontal triangle (0,0,1), (1,0,1), (0,1,1), the vector (1,0,0) is orthogonal to the normal yet off the plane as a point, so `projectVector` as written returns the zero vector for it |
| Planes.Plane.FromPointAndNormal | src/lib/Plane.ts:65-96 | `Err` exactly for a normal within 1e-3 of zero; otherwise a valid plane through `p` |
| Rays.MakeRayFacts | src/lib/Ray.ts:9-16 | keeps the origin; valid exactly for a non-zero direction; the stored direction points along the input whether or not `normalize` writes in place |
| Rays.MakeRayUnit | src/lib/Ray.ts:9-16 | a unit direction is stored unchanged |
| Rays.IntersectRay3DPlane | src/lib/Ray.ts:67-117 | the flag is one of -1, 0, 1, 2; there is a point exactly on a hit; -1 exactly when the triangle normal is shorter than `Eps` |
| Rays.HitAhead | src/lib/Ray.ts:101-116 | a reported hit lies on the ray, never behind its origin |
| Rays.HitOnPlane | src/lib/Ray.ts:112-116 | a hit that was not snapped onto the origin lies on the triangle's plane |
| Rays.CollinearIsDegenerate | src/lib/Ray.ts:71-79 | collinear anchors give -1 |
| Rays.RayInPlane | src/lib/Ray.ts:86-99 | a ray starting on the plane and running along it gives 2 |
| Rays.IntersectPlane | src/lib/Ray.ts:28-50 | an invalid ray gives id 0 and the point (0, 0, 0); otherwise the flag of `intersectRay3DPlane`, with its point only on a hit |
| Rays2D.MakeRay2DFacts | src/lib/Ray2D.ts:20-29 | keeps the origin, is valid exactly for a non-zero direction, and stores the normalized direction |
| Rays2D.MakeRay2DUnit | src/lib/Ray2D.ts:20-29 | a unit direction is stored unchanged |
| Rays2D.Ray2D.Crossing | src/lib/Ray2D.ts:36-61 | a crossing is reported only by a valid receiver, and only at non-negative parameters along both rays |
| Rays2D.Ray2D.IntersectRay | src/lib/Ray2D.ts:31-70 | as written: on success both distances are set and `intersection[0]` ends up holding the y-coordinate, with `intersection[1]` untouched; on failure nothing is written |
| Rays2D.Ray2D.IntersectRayFixed | src/lib/Ray2D.ts:63-67 | with `intersection[1]` written, a success leaves the crossing point in `intersection` |
| Rays2D.CrossingMeets | src/lib/Ray2D.ts:47-57 | a reported crossing is a point of both rays |
| Rays2D.CrossingComplete | src/lib/Ray2D.ts:36-61 | conversely, a common point at non-negative parameters of a valid receiver and a ray not parallel to it within 1e-6 is exactly the crossing reported |
| Rays2D.CommonPointParameters | src/lib/Ray2D.ts:47-57 | at a common point of non-parallel lines, the computed `k2` and `k1` are that point's parameters |
| Rays2D.SolvedLinesMeet | src/lib/Ray2D.ts:47-57 | for non-parallel lines the computed parameters name a common point |
| Rays2D.ParallelNoCrossing | src/lib/Ray2D.ts:38-46 | rays parallel within 1e-6 never cross |
| Rays2D.InvalidNoCrossing | src/lib/Ray2D.ts:36 | an invalid receiver never reports a crossing |
| Rays2D.IntersectionLosesX | src/lib/Ray2D.ts:63-67 | counterexample: two rays crossing at (1, 0) leave `intersection[0] == 0` |
| Walks.WalkIsChain | src/lib/DynanicStreamLines.ts:89-110 | the bounded loop yields a chain of steps; if it is shorter than its budget, the step from its end is refused |
| Walks.ChainIsWalk | src/lib/DynanicStreamLines.ts:89-110 | conversely, a chain that stopped because the budget ran out or a step was refused is the loop's output |
| StreamLines.DefaultStep | src/lib/DynanicStreamLines.ts:68-74 | the largest box extent over 500 |
| StreamLines.Budget | src/lib/DynanicStreamLines.ts:89 | the number of turns `nbPoints < maxPoints` allows: `maxPoints`, or 0 when it is negative |
| StreamLines.AdvanceIsUnitStep | src/lib/DynanicStreamLines.ts:90-98 | a step moves exactly `\|dt\|` along the normalized field; only a zero field refuses it |
| StreamLines.DynanicStreamLines.constructor | src/lib/DynanicStreamLines.ts:53-78 | `maxPoints` defaults to 100 and `dt` to the largest extent over 500 |
| StreamLines.DynanicStreamLines.Next | src/lib/DynanicStreamLines.ts:90-102 | the next point exists only for a non-zero field and a candidate inside the box |
| StreamLines.DynanicStreamLines.TraceInside | src/lib/DynanicStreamLines.ts:89-104 | every traced point passed `inside`, and each is the step `Advance` takes from its predecessor (the seed first) with the field sampled there |
| StreamLines.DynanicStreamLines.TraceStopsAtFirstExit | src/lib/DynanicStreamLines.ts:100-102 | a line shorter than its budget stopped at the first missing or outside candidate, which it does not contain |
| StreamLines.DynanicStreamLines.TraceSteps | src/lib/DynanicStreamLines.ts:89-110 | every point of the line, seed included, is one step from the one before |
| StreamLines.DynanicStreamLines.Generate | src/lib/DynanicStreamLines.ts:83-113 | the seed followed by the traced points, three numbers per point |
| StreamBands.StepTriangles | src/lib/DynanicStreamBands.ts:89-95 | the first step emits (seed, P0, A0); step `i` emits (P[i-1], P[i], A[i]) and (P[i-1], A[i], A[i-1]) |
| StreamBands.PushTriangles | src/lib/DynanicStreamBands.ts:89-95 | appends step `i`'s triangles, branching on whether an earlier edge point exists |
| StreamBands.BandIndicesInRange | src/lib/DynanicStreamBands.ts:86-95 | after `k` steps every index names one of the `1 + 2k` points pushed |
| StreamBands.BandIndicesGrow | src/lib/DynanicStreamBands.ts:89-95 | indices are only appended: earlier lists are prefixes of later ones |
| StreamBands.IndicesEmittedInRange | src/lib/DynanicStreamBands.ts:86-95 | step `i`'s indices stay below the count of points pushed by then |
| StreamBands.BandPointsAt | src/lib/DynanicStreamBands.ts:86-87 | the seed is point 0, and step `i`'s spine and edge points sit at `2i+1` and `2i+2` |
| StreamBands.EdgePointDistance | src/lib/DynanicStreamBands.ts:82-84 | the edge point lies `\|width\|` from the current point, at right angles to the step and to the normal |
| StreamBands.DynanicStreamBands.constructor | src/lib/DynanicStreamBands.ts:17-33 | `maxPoints` defaults to 100 and `dt` to the largest extent over 500; `width` is kept |
| StreamBands.DynanicStreamBands.TraceInside | src/lib/DynanicStreamBands.ts:65-84 | each spine point is the step `Advance` from the one before it (the seed first) along the field sampled there and passed `inside`, and each edge point is beside its step |
| StreamBands.DynanicStreamBands.TraceStopsAtFirstExit | src/lib/DynanicStreamBands.ts:78-80 | a band shorter than its budget stopped at the first missing or outside spine candidate |
| StreamBands.DynanicStreamBands.AcceptStep | src/lib/DynanicStreamBands.ts:86-104 | an accepted step extends the chain and adds its two points and its triangles |
| StreamBands.DynanicStreamBands.Step | src/lib/DynanicStreamBands.ts:65-84 | the spine candidate one step ahead and its edge point, or nothing where the loop breaks |
| StreamBands.DynanicStreamBands.Generate | src/lib/DynanicStreamBands.ts:38-111 | the band's points in push order, flattened, together with exactly the triangles of its steps |
| Surface.BorderPolygon | src/lib/surfaceStreamlines.ts:506-514 | the facet across `e` from `polygon`; nothing when `polygon` is on neither side of `e` |
| Surface.BorderPolygonInvolution | src/lib/surfaceStreamlines.ts:506-514 | crossing back over the same edge returns to the starting facet |
| Surface.VectorUV | src/lib/surfaceStreamlines.ts:563-571 | the 2-argument `toUV` reports whether the plane is proper and leaves the vector at `[0, 0]` |
| Surface.PointFromUV | src/lib/surfaceStreamlines.ts:287-290 | over a proper triangle `fromUV` succeeds, yet the caller's `[0, 0, 0]` stays at the origin |
| Surface.Barycenter | src/lib/surfaceStreamlines.ts:241-250 | three times the seed point is the sum of the facet's corners |
| Surface.Normalized | src/lib/surfaceStreamlines.ts:190-215 | a normalized seed value lies in [0, 1]; it is absent only for a missing item or a constant serie |
| Surface.SkipFlags | src/lib/surfaceStreamlines.ts:173-215 | one flag per facet; without a seed serie none is set |
| Surface.WideThresholdsKeepAll | src/lib/surfaceStreamlines.ts:190-215 | thresholds that bracket [0, 1] skip no facet |
| Surface.ConstantSerieKeepsAll | src/lib/surfaceStreamlines.ts:190-215 | a constant seed serie normalizes to NaN and skips no facet |
| Surface.SeedPoints | src/lib/surfaceStreamlines.ts:217-236 | at most one point per facet, all in the box, each the centroid of a facet that is not skipped |
| Surface.SeededStep | src/lib/surfaceStreamlines.ts:217-236 | one more facet: a skipped facet adds nothing, a kept one is visited and adds its centroid if that lies in the box |
| Surface.ProjectedVector | src/lib/surfaceStreamlines.ts:516-614 | a result requires a proper UV frame and non-zero projected vectors at all three corners |
| Surface.ProjectedVectorAsWritten | src/lib/surfaceStreamlines.ts:563-575 | as written, `projectedVector` never gives a direction |
| Surface.ProjectedVectorFixed | src/lib/surfaceStreamlines.ts:549-575 | with the corrected `toUVFromVector`, `projectedVector` gives a direction exactly on a facet whose first two corners differ and whose three corner field vectors have non-zero coordinates under the corrected projection (`VectorUVOf`: with no distance snapped, their components along the facet's axes) |
| Surface.ProjectedVectorAtFirstCorner | src/lib/surfaceStreamlines.ts:549-613 | at the first corner's UV position, the interpolation returns that corner's vector |
| Surface.ProjectedVectorAtSecondCorner | src/lib/surfaceStreamlines.ts:549-613 | at the second corner of a proper UV triangle, the interpolation returns that corner's vector |
| Surface.AnyCloser | src/lib/surfaceStreamlines.ts:314-322 | true exactly when some candidate lies strictly closer than `d` |
| Surface.CoordWithinNorm | src/lib/surfaceStreamlines.ts:300-325 | no coordinate difference exceeds the distance, so the `d_sep` box around a point holds every point within `d_sep` |
| Surface.StreamLinesOnSurface.constructor | src/lib/surfaceStreamlines.ts:66-82 | the field initialisers: first call pending, no surface, thresholds 1 and 0, empty solution |
| Surface.StreamLinesOnSurface.TooNear | src/lib/surfaceStreamlines.ts:300-325 | as written: always false |
| Surface.StreamLinesOnSurface.TooNearFixed | src/lib/surfaceStreamlines.ts:300-325 | with the query fixed: true exactly when a stored point lies strictly within `d_sep` |
| Surface.StreamLinesOnSurface.NearCandidates | src/lib/surfaceStreamlines.ts:300-325 | the box query's candidates within `d` are exactly the stored points within `d` |
| Surface.StreamLinesOnSurface.GenOneSL | src/lib/surfaceStreamlines.ts:241-264 | a visited seed is left alone; otherwise it is marked and its centroid starts the line; as written nothing more is added |
| Surface.StreamLinesOnSurface.GenSL | src/lib/surfaceStreamlines.ts:266-298 | without a UV projection or a field direction nothing changes; otherwise `iP` is pushed and the walk goes on with a budget of 40 |
| Surface.StreamLinesOnSurface.RecursiveSL | src/lib/surfaceStreamlines.ts:327-504 | a budget of 0 changes nothing; otherwise `polygon` is visited, the line only grows, and newly visited facets are reachable within the budget |
| Surface.EdgeTest | src/lib/surfaceStreamlines.ts:403-419 | as written: a pass is a common point of the edge's line, ahead of its first corner, and of the segment, strictly inside it; the parameter along the edge is not bounded by the edge's length |
| Surface.EdgeTestFixed | src/lib/surfaceStreamlines.ts:403-419 | as intended: a pass is a common point strictly inside both the edge and the segment |
| Surface.EdgeTestFixedComplete | src/lib/surfaceStreamlines.ts:403-419 | the corrected test misses no crossing strictly inside both, on lines not parallel within 1e-6 |
| Surface.EdgeTestPassesBeyondEdge | src/lib/surfaceStreamlines.ts:414-419 | counterexample: the edge from (0,0) to (1,0) and the segment from (2,-0.5) to (2,0.5) do not meet, yet the test passes at `dist == 2`; the corrected test rejects them |
| Surface.StreamLinesOnSurface.CrossEdge | src/lib/surfaceStreamlines.ts:381-457 | a crossing is reported only where the `crossing` oracle (the edge test) passes; the walk continues only into an unvisited neighbour |
| Surface.StreamLinesOnSurface.FollowField | src/lib/surfaceStreamlines.ts:459-503 | the second segment point joins the line, and new visits stay within the budget |
| Surface.StreamLinesOnSurface.ResetFlags | src/lib/surfaceStreamlines.ts:173-176 | every facet unvisited and unskipped |
| Surface.StreamLinesOnSurface.MarkSkipped | src/lib/surfaceStreamlines.ts:190-215 | a facet is skipped exactly when it was already skipped or its normalized value falls outside the thresholds, whatever the order |
| Surface.StreamLinesOnSurface.EmitLine | src/lib/surfaceStreamlines.ts:222-234 | the in-box points of the current line go into the octree and onto the solution, three numbers each |
| Surface.StreamLinesOnSurface.Run | src/lib/surfaceStreamlines.ts:148-239 | the solution grows by the emitted points, which are all in the work box and exactly the octree's contents; as written they are the in-box centroids of the kept facets |
| Surface.StreamLinesOnSurface.TraceAll | src/lib/surfaceStreamlines.ts:217-236 | the loop over the facets: the octree holds exactly what was appended to the solution |
| Surface.StreamLinesOnSurface.TraceFacet | src/lib/surfaceStreamlines.ts:218-235 | a skipped facet emits nothing; a kept, unvisited one emits, as written, just its centroid when in the box |
| Surface.StreamLinesOnSurface.Generate | src/lib/surfaceStreamlines.ts:84-146 | the first call fixes the surface and the step; no field is an error; absent thresholds and step divisor default to 1, 0.5 and 1000; otherwise the solution only grows, by whole points, and as written by the in-box centroids of the kept facets |
| Surface.StreamLinesOnSurface.Configure | src/lib/surfaceStreamlines.ts:105-137 | the first call fixes the surface and the step `maxExtent / istep`; later calls keep both; a given field and seed serie replace the recorded ones |
| Surface.InsertInside | src/lib/surfaceStreamlines.ts:222-234 | keeps exactly the line's points inside the octree box, in order, adds them to the octree and flattens them |
| Surface.SurfaceStreamlines | src/lib/surfaceStreamlines.ts:29-62 | an error exactly when no field is given; a result is whole points; as written it is the in-box centroids of the facets the seed filter keeps, with `maxSeed`/`minSeed` (default 1 and 0.5) as thresholds and the step divisor defaulting to 1000 |

## Left out

- Floating point: every number is an exact real. NaN, Infinity and rounding are not modelled. A zero-length field
  (NaN in JavaScript) is modelled as the stop that the NaN's failing `inside` test causes, and `vec.normalize` of the
  zero vector gives the zero vector.
- `@youwol/math` and `@youwol/geometry` are not part of this model. The square root is a parameter. Whether
  `vec.normalize`, `vec.scale` and `vec.add` write into their (first) argument is not known from this repository,
  so it is the parameter `VecLib.mutates`, and lemmas state both cases where they differ. For `vec.add` this
  decides whether `nextPIP` moves in `genSL` (surfaceStreamlines.ts:285-288).
- `BBox.inside`, the test `addItems` applies, is a parameter, required only to accept points inside the box
  (`inside(p) ==> Contains(bbox, p)`).
- The dynamic tracers import a free function `inside` from `./utils` (DynanicStreamLines.ts:3,
  DynanicStreamBands.ts:4), but utils.ts exports no `inside`, so that import does not resolve. Their test is a
  parameter `inside(bbox, p, tol)` with no constraint: the traced points are proved only to pass it.
- The surface (`Mesh`) and the per-facet geometry (`Geometry`) are parameters:
  - the plane, UV and crossing arithmetic `recursiveSL` calls;
  - the 2D ray intersection of an edge;
  - `fromUV`;
  - the box tests of the work domain.

  Their own behaviour is proved in `Planes`, `Rays` and `Rays2D`.
- The growth of the shared surface box. `run` takes `surface.bbox` by reference, then scales it by 1.2 and inflates
  it in place on every `generate` (surfaceStreamlines.ts:167-169). `recursiveSL` also takes `surface.bbox` by
  reference, then inflates it and scales it by 1.02 on every call (surfaceStreamlines.ts:341-343). So `bbox3_`
  and the point octree's root box (which keeps the same object, Octree.ts:11-16) keep growing. The model has one
  fixed `workBox` and a domain test `inDomain` that does not change over time. This matters only once
  `projectedVector` can succeed, because only then does `recursiveSL` run.
- The library `sort` of the facets by seed value is a parameter: `order` lists every facet once. The outcome does not
  depend on the order.
- `Serie`, `minMax` and `Serie.create` are modelled as sequences with their minimum and maximum.
- `verbose` console output and timing are left out.
- The border-node set and the unused `b` in `run` are left out.
- That `generate` returns the tracer's own `solution_` array, which the next call keeps appending to, is modelled as a
  result equal to the accumulated solution.
- Surface.StreamLinesOnSurface.Configure: requires a non-zero integration step on the first call, the only call that
  reads it (surfaceStreamlines.ts:105-110), because JavaScript's `Infinity` step for `istep == 0` has no real
  counterpart.
- Surface.StreamLinesOnSurface.Generate: the same for `integration == 0` on the first call.
- Surface.ProjectedVector: a zero UV determinant (JavaScript `1 / 0`) gives the weight 0 instead of Infinity.
- Surface.StreamLinesOnSurface.RecursiveSL: states the structural invariants (flags, line growth, reachability of new
  visits within the budget) and not the geometry of the traced line, because that geometry comes from the
  `Geometry` parameter.
- Utils.CreateV2: the requires excludes any first argument that is not a number when `y` is given. This covers a
  vector (the source's `v as number` cast) and an absent `v`, for which `createV2(undefined, y)` returns
  `[undefined, y]`; neither has a real counterpart.
- Utils.CreateV3: the same exclusion when both `y` and `z` are given: a vector, or an absent `v`, which gives
  `[undefined, y, z]`.
- StreamLines.DynanicStreamLines.Generate: `fieldAt` is a function from point to vector. The source instead
  overwrites the array `fieldAt` returned with the new point (DynanicStreamLines.ts:96-98). So a callback that
  returns a shared or reused array (or the `current` point itself) sees its own earlier results altered, and the
  lines differ from the second point on. The model assumes a fresh array from each call.
- StreamBands.DynanicStreamBands.Generate: the same for the spine vector of `fieldAt`, which the source scales and
  offsets in place (DynanicStreamBands.ts:65-76). A callback returning a shared array is outside the model.
- StreamLines.Budget: `maxPoints` is an integer. A fractional `maxPoints` (2.5 gives three turns of
  `nbPoints < maxPoints`) is not modelled. The band tracer uses the same `Budget`.
- `Plane.clone`, `Plane.setTolerence` and the `Ray` getters are plain accessors and are not modelled as separate
  members.

## Findings

| source | as written | input that shows it | evidently intended | confidence | as-written member | corrected member |
|---|---|---|---|---|---|---|
| src/lib/Octree.ts:86-94 | `getItemsIn` and `getItemsNear` rebind their `items` parameter to a fresh array before filling it, so the caller's array stays empty | a tree holding one point `p`, queried over its own box | push the found items into the caller's array | high, not executed | Octrees.ItemsInLosesResults | Octrees.Octree.GetItemsInFixed |
| src/lib/surfaceStreamlines.ts:300-325 | through `getItemsIn`, `tooNear` never sees a stored point and always answers false | any stored point at distance 0 from `iP` | true when a stored point lies within `d_sep` | high, not executed | Surface.StreamLinesOnSurface.TooNear | Surface.StreamLinesOnSurface.TooNearFixed |
| src/lib/Ray2D.ts:63-67 | the crossing point is written to `intersection[0]` twice, so the x-coordinate is overwritten by y and `intersection[1]` is never set | the ray from (0,0) along (1,0) and the ray from (1,-1) along (0,1) | `intersection[1] = b + k1 * f` | high, not executed | Rays2D.IntersectionLosesX | Rays2D.Ray2D.IntersectRayFixed |
| src/lib/surfaceStreamlines.ts:563-575 | `plane.toUV(v, pV)` without the `normalize_coords` flag goes through `toUVFromVector`, which never writes `pV`, so every projected vector has length 0 and `projectedVector` always fails | any facet of a proper triangle and any field | the projected field vector in `pV` | medium, not executed | Surface.ProjectedVectorAsWritten | Planes.Plane.ToUVFromVectorFixed, Surface.ProjectedVectorFixed |
| src/lib/Plane.ts:240-253 | `project` rebinds its `result` parameter to the hit point (`result = createV3(i_up.point)`, and the same for `i_down`), so the caller's array is written only for a coplanar point, and `projectVector(v)` is `v` for a coplanar `v` and the zero vector otherwise | the triangle (0,0,1), (1,0,1), (0,1,1) and the vector (1,0,0), which lies along the plane but is off it as a point: `projectVector` gives (0,0,0) | write the hit point into `result`, so that `projectVector(v)` is `v` less its normal component | high, not executed | Planes.Plane.ProjectVector, PlaneExamples.ProjectVectorDropsInPlaneVector | Planes.Plane.ProjectVectorFixed, Planes.ProjectionRemovesNormal, Planes.ProjectionKeepsInPlane |
| src/lib/surfaceStreamlines.ts:414-419 | the edge test bounds `other_dist`, the parameter along the segment, by `norm(pV)`, the edge's length, and never bounds `dist`, the parameter along the edge, so a segment that crosses the edge's line beyond the edge's end passes | the edge from (0,0) to (1,0) and the segment from (2,-0.5) to (2,0.5): the test passes with `dist == 2` | `distances.dist < vec.norm(pV)` | high, not executed | Surface.EdgeTest, Surface.EdgeTestPassesBeyondEdge | Surface.EdgeTestFixed, Surface.EdgeTestFixedComplete |
| src/lib/Plane.ts:214-216 | `fromUV` rebinds its `result` parameter to the computed point (`result.set(x)` is commented out), so `genSL` and `recursiveSL` keep `[0, 0, 0]` as the next point | the triangle (0,0,0), (1,0,0), (0,1,0) and uv = (1, 0): the call succeeds and the array stays (0, 0, 0) instead of (1, 0, 0) | write the point into `result` | high, not executed | Surface.PointFromUV | Planes.Plane.FromUVFixed |
