/** `DynanicStreamBands` (`src/lib/DynanicStreamBands.ts`): a band of triangles along a
    streamline. Each accepted step adds a spine point `P` (as in `DynanicStreamLines`)
    and an edge point `A` at distance `width` beside the current point, and two
    triangles joining the new pair to the previous one.

    Point numbering: the seed is point 0; step `i` adds the spine point `1 + 2i` and the
    edge point `2 + 2i`. */
module StreamBands {
  import opened Vectors
  import opened Utils
  import opened Boxes
  import opened StreamLines
  import opened Walks

  /** Index of the spine point added by step `i`. */
  function Spine(i: nat): nat { 1 + 2 * i }

  /** Index of the edge point added by step `i`. */
  function Edge(i: nat): nat { 2 + 2 * i }

  /** The indices pushed by step `i`: `(0, 1, 2)` for the first step, then
      `(2i-1, 2i+1, 2i+2)` and `(2i-1, 2i+2, 2i)`. */
  function StepIndices(i: nat): seq<int> {
    if i == 0 then [0, 1, 2]
    else [2 * i - 1, 2 * i + 1, 2 * i + 2, 2 * i - 1, 2 * i + 2, 2 * i]
  }

  /** Step `i` joins the seed, or the previous spine and edge points, to its own pair:
      the first triangle is (seed, P0, A0); later ones are (P[i-1], P[i], A[i]) and
      (P[i-1], A[i], A[i-1]), the quad between consecutive pairs. */
  lemma StepTriangles(i: nat)
    ensures i == 0 ==> StepIndices(i) == [0, Spine(0), Edge(0)]
    ensures i > 0 ==>
              StepIndices(i) == [Spine(i - 1), Spine(i), Edge(i), Spine(i - 1), Edge(i), Edge(i - 1)]
  {
  }

  /** A later step pushes its two triangles one after the other onto the indices so far. */
  lemma StepIndicesHalves(indices: seq<int>, i: nat)
    requires i > 0
    ensures (indices + [2 * i - 1, 2 * i + 1, 2 * i + 2]) + [2 * i - 1, 2 * i + 2, 2 * i]
         == indices + StepIndices(i)
  {
    assert [2 * i - 1, 2 * i + 1, 2 * i + 2] + [2 * i - 1, 2 * i + 2, 2 * i] == StepIndices(i);
  }

  /** Step `i`'s index pushes, branching like the source on whether an earlier edge
      point exists (`prevA !== undefined`), which is exactly when `i > 0`. */
  method PushTriangles(indices: seq<int>, i: nat, hasPrev: bool) returns (r: seq<int>)
    requires hasPrev <==> i > 0
    ensures r == indices + StepIndices(i)
  {
    r := indices;
    if hasPrev {
      StepIndicesHalves(indices, i);
      r := r + [2 * i - 1, 2 * i + 1, 2 * i + 2];
      r := r + [2 * i - 1, 2 * i + 2, 2 * i];
    } else {
      r := r + [0, 1, 2];
    }
  }

  /** The indices after `k` accepted steps. */
  function BandIndices(k: nat): (r: seq<int>)
    ensures |r| == if k == 0 then 0 else 3 + 6 * (k - 1)
  {
    if k == 0 then [] else BandIndices(k - 1) + StepIndices(k - 1)
  }

  /** After `k` steps every index names one of the `1 + 2k` points pushed. */
  lemma {:induction false} BandIndicesInRange(k: nat)
    ensures forall j :: 0 <= j < |BandIndices(k)| ==> 0 <= BandIndices(k)[j] < 1 + 2 * k
  {
    if k > 0 {
      BandIndicesInRange(k - 1);
      var r := BandIndices(k);
      assert r == BandIndices(k - 1) + StepIndices(k - 1);
      forall j | 0 <= j < |r|
        ensures 0 <= r[j] < 1 + 2 * k
      {
        if j < |BandIndices(k - 1)| {
          assert r[j] == BandIndices(k - 1)[j];
        }
      }
    }
  }

  /** Indices are only ever appended: the indices after `k` steps start every later list. */
  lemma {:induction false} BandIndicesGrow(k: nat, m: nat)
    requires k <= m
    ensures BandIndices(k) <= BandIndices(m)
    decreases m
  {
    if k < m {
      BandIndicesGrow(k, m - 1);
    }
  }

  /** Every index is less than the number of points pushed when it was emitted: those of
      step `i` stay below `1 + 2(i + 1)`, whatever number of steps follows. */
  lemma IndicesEmittedInRange(k: nat, i: nat)
    requires i < k
    ensures BandIndices(i + 1) <= BandIndices(k)
    ensures forall j :: 0 <= j < |StepIndices(i)| ==> 0 <= StepIndices(i)[j] < 1 + 2 * (i + 1)
  {
    BandIndicesGrow(i + 1, k);
  }

  /** The points of the band in push order: the seed, then each step's spine and edge point. */
  function BandPoints(seed: V3, pairs: seq<(V3, V3)>): (pts: seq<V3>)
    ensures |pts| == 1 + 2 * |pairs|
  {
    if pairs == [] then [seed]
    else
      var init := BandPoints(seed, pairs[..|pairs| - 1]);
      init + [pairs[|pairs| - 1].0, pairs[|pairs| - 1].1]
  }

  /** The seed is point 0, and step `i`'s spine and edge points sit at `Spine(i)` and `Edge(i)`. */
  lemma {:induction false} BandPointsAt(seed: V3, pairs: seq<(V3, V3)>)
    ensures BandPoints(seed, pairs)[0] == seed
    ensures forall i :: 0 <= i < |pairs| ==>
      BandPoints(seed, pairs)[Spine(i)] == pairs[i].0 && BandPoints(seed, pairs)[Edge(i)] == pairs[i].1
  {
    if pairs != [] {
      var init := pairs[..|pairs| - 1];
      BandPointsAt(seed, init);
      var pts := BandPoints(seed, pairs);
      assert pts == BandPoints(seed, init) + [pairs[|pairs| - 1].0, pairs[|pairs| - 1].1];
      forall i | 0 <= i < |pairs|
        ensures pts[Spine(i)] == pairs[i].0 && pts[Edge(i)] == pairs[i].1
      {
        if i < |init| {
          assert pairs[i] == init[i];
        }
      }
    }
  }

  /** Pushing a step's pair appends its two points to the flattened positions. */
  lemma BandPointsPush(seed: V3, pairs: seq<(V3, V3)>, positions: seq<real>, p: V3, a: V3)
    requires positions == Flatten(BandPoints(seed, pairs))
    ensures positions + Flat(p) + Flat(a) == Flatten(BandPoints(seed, pairs + [(p, a)]))
  {
    var next := pairs + [(p, a)];
    assert next[..|next| - 1] == pairs;
    assert BandPoints(seed, next) == BandPoints(seed, pairs) + [p, a];
    FlattenAppend(BandPoints(seed, pairs), [p, a]);
    assert Flatten([p, a]) == Flat(p) + Flat(a);
  }

  /** The edge point beside `c` for the step to `p`: `c + width * normalize((p - c) x n)`. */
  function EdgePoint(lib: VecLib, width: real, c: V3, p: V3, n: V3): V3 {
    var cp := Sub(p, c);
    var ca := Scale(Normalize(lib, Cross(cp, n)), width);
    V3(ca.x + c.x, ca.y + c.y, ca.z + c.z)
  }

  /** Over the reals the edge point lies exactly `|width|` from the current point (not
      from the new spine point), at right angles to both the step and the normal. */
  lemma EdgePointDistance(lib: VecLib, width: real, c: V3, p: V3, n: V3)
    requires ValidLib(lib) && Cross(Sub(p, c), n) != Zero3
    ensures Norm(lib, Sub(EdgePoint(lib, width, c, p, n), c)) == Abs(width)
    ensures Dot(Sub(EdgePoint(lib, width, c, p, n), c), Sub(p, c)) == 0.0
    ensures Dot(Sub(EdgePoint(lib, width, c, p, n), c), n) == 0.0
  {
    var w := Cross(Sub(p, c), n);
    var u := Normalize(lib, w);
    NormalizeUnit(lib, w);
    var a := EdgePoint(lib, width, c, p, n);
    assert Sub(a, c) == Scale(u, width);
    NormScaleUnit(lib, u, width);
    CrossOrth(Sub(p, c), n);
    NormalizeOrth(lib, Sub(p, c), w);
    NormalizeOrth(lib, n, w);
    ScaleDot(u, width, Sub(p, c));
    ScaleDot(u, width, n);
  }

  /** The spine point of a step's (spine, edge) pair, where the next step starts. */
  function SpineOf(q: (V3, V3)): V3 { q.0 }

  class DynanicStreamBands {
    const lib: VecLib
    const bbox: Bounds
    const fieldAt: V3 -> (V3, V3)
    const inside: (Bounds, V3, real) -> bool
    const dt: real
    const maxPoints: int
    const width: real

    /** `dt` defaults to the largest extent over 500 and `maxPoints` to 100. */
    constructor (lib0: VecLib, bbox0: Bounds, fieldAt0: V3 -> (V3, V3), inside0: (Bounds, V3, real) -> bool,
                 dt0: Option<real>, maxPoints0: Option<int>, width0: real)
      ensures lib == lib0 && bbox == bbox0 && fieldAt == fieldAt0 && inside == inside0 && width == width0
      ensures dt == if dt0.Some? then dt0.value else DefaultStep(bbox0)
      ensures maxPoints == if maxPoints0.Some? then maxPoints0.value else DefaultMaxPoints
    {
      lib := lib0;
      bbox := bbox0;
      fieldAt := fieldAt0;
      inside := inside0;
      maxPoints := if maxPoints0.Some? then maxPoints0.value else DefaultMaxPoints;
      width := width0;
      if dt0.None? {
        var m := Max(Max(bbox0.maxx - bbox0.minx, bbox0.maxy - bbox0.miny), bbox0.maxz - bbox0.minz);
        dt := m / 500.0;
      } else {
        dt := dt0.value;
      }
    }

    /** The pair one step from `current` adds: the spine point `P` and the edge point
        beside `current`, or `None` when the field is zero or `P` leaves the box. */
    function Next(current: V3): Option<(V3, V3)> {
      match Advance(lib, dt, current, fieldAt(current).0)
      case None => None
      case Some(p) =>
        if !inside(bbox, p, InsideTol) then None
        else Some((p, EdgePoint(lib, width, current, p, fieldAt(current).1)))
    }

    /** The (spine, edge) pairs the band gains after `current` within `budget` steps. */
    function Trace(current: V3, budget: nat): (pairs: seq<(V3, V3)>)
      ensures |pairs| <= budget
    {
      Walk(Next, SpineOf, current, budget)
    }

    /** Every spine point is the step `Advance` from the spine point before it (the seed
        first) along the direction sampled there, and passed `inside`; each edge point
        sits beside the spine point its step started from, at the side given by the
        normal sampled there. */
    ghost predicate Beside(current: V3, pairs: seq<(V3, V3)>) {
      forall i :: 0 <= i < |pairs| ==>
        var c := StartOf(SpineOf, current, pairs, i);
        && Advance(lib, dt, c, fieldAt(c).0) == Some(pairs[i].0)
        && inside(bbox, pairs[i].0, InsideTol)
        && pairs[i].1 == EdgePoint(lib, width, c, pairs[i].0, fieldAt(c).1)
    }

    /** The traced pairs form a chain of field steps from the seed, the spine stays
        inside the box, and each edge point is beside its step. */
    lemma TraceInside(current: V3, budget: nat)
      ensures Beside(current, Trace(current, budget))
    {
      var pairs := Trace(current, budget);
      WalkIsChain(Next, SpineOf, current, budget);
      forall i | 0 <= i < |pairs|
        ensures var c := StartOf(SpineOf, current, pairs, i);
          && Advance(lib, dt, c, fieldAt(c).0) == Some(pairs[i].0)
          && inside(bbox, pairs[i].0, InsideTol)
          && pairs[i].1 == EdgePoint(lib, width, c, pairs[i].0, fieldAt(c).1)
      {
        assert Next(StartOf(SpineOf, current, pairs, i)) == Some(pairs[i]);
      }
    }

    /** A band shorter than its budget stopped at the first spine candidate that is
        missing (zero field) or outside the box, and that candidate was not appended. */
    lemma TraceStopsAtFirstExit(current: V3, budget: nat)
      requires |Trace(current, budget)| < budget
      ensures var pairs := Trace(current, budget);
        var last := StartOf(SpineOf, current, pairs, |pairs|);
        var next := Advance(lib, dt, last, fieldAt(last).0);
        next.None? || !inside(bbox, next.value, InsideTol)
    {
      WalkIsChain(Next, SpineOf, current, budget);
    }

    /** One accepted step keeps the loop's account of the band: the pairs stay a chain of
        steps from the seed, the positions gain the pair's two points and the indices
        the step's triangles. */
    lemma AcceptStep(seed: V3, pairs: seq<(V3, V3)>, c: V3, positions: seq<real>, indices: seq<int>, p: V3, a: V3)
      requires Chain(Next, SpineOf, seed, pairs) && c == StartOf(SpineOf, seed, pairs, |pairs|)
      requires Next(c) == Some((p, a))
      requires positions == Flatten(BandPoints(seed, pairs)) && indices == BandIndices(|pairs|)
      ensures Chain(Next, SpineOf, seed, pairs + [(p, a)])
      ensures p == StartOf(SpineOf, seed, pairs + [(p, a)], |pairs| + 1)
      ensures positions + Flat(p) + Flat(a) == Flatten(BandPoints(seed, pairs + [(p, a)]))
      ensures indices + StepIndices(|pairs|) == BandIndices(|pairs| + 1)
    {
      ChainPush(Next, SpineOf, seed, pairs, (p, a));
      BandPointsPush(seed, pairs, positions, p, a);
    }

    /** The loop body up to its `break`: the spine candidate `P` one step from `c` and
        the edge point `A` beside `c`, or `None` where the loop breaks. */
    method Step(c: V3) returns (next: Option<(V3, V3)>)
      ensures next == Next(c)
    {
      var field := fieldAt(c).0;
      var n := fieldAt(c).1;
      var l := Norm(lib, field);
      if l == 0.0 {
        return None;
      }
      var p := Stepped(c, field, l, dt);
      if !inside(bbox, p, InsideTol) {
        return None;
      }
      var a := EdgePoint(lib, width, c, p, n);
      return Some((p, a));
    }

    /** `generate(seed)`: the flattened band points and the triangle indices. */
    method Generate(seed: V3) returns (positions: seq<real>, indices: seq<int>)
      ensures var pairs := Trace(seed, Budget(maxPoints));
        positions == Flatten(BandPoints(seed, pairs)) && indices == BandIndices(|pairs|)
    {
      var nbPoints := 0;
      var c := seed;
      positions := Flat(seed);
      indices := [];
      var i := 0;
      var prevA: Option<V3> := None;
      ghost var pairs: seq<(V3, V3)> := [];
      while nbPoints < maxPoints
        invariant 0 <= nbPoints <= Budget(maxPoints) && i == nbPoints == |pairs|
        invariant Chain(Next, SpineOf, seed, pairs) && c == StartOf(SpineOf, seed, pairs, |pairs|)
        invariant positions == Flatten(BandPoints(seed, pairs))
        invariant indices == BandIndices(i)
        invariant prevA.Some? <==> i > 0
      {
        var next := Step(c);
        if next.None? {
          break;
        }
        var (p, a) := next.value;
        AcceptStep(seed, pairs, c, positions, indices, p, a);
        positions := positions + Flat(p);
        positions := positions + Flat(a);
        indices := PushTriangles(indices, i, prevA.Some?);
        pairs := pairs + [(p, a)];
        c := p;
        prevA := Some(a);
        nbPoints := nbPoints + 1;
        i := i + 1;
      }
      ChainIsWalk(Next, SpineOf, seed, pairs, Budget(maxPoints));
    }
  }
}
