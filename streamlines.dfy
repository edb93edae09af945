/** `DynanicStreamLines` (`src/lib/DynanicStreamLines.ts`): a streamline traced from a
    seed by unit steps of length `dt` along a vector field, until `maxPoints` steps have
    been taken or a step leaves the box.

    The field callback and the `inside(bbox, p, tol)` test are parameters of the model:
    the callback is opaque, and `inside` is imported from `./utils`, which defines no
    `inside`, so nothing in the repository says what the test accepts. */
module StreamLines {
  import opened Vectors
  import opened Utils
  import opened Boxes
  import opened Walks

  /** The tolerance passed to `inside`. */
  const InsideTol: real := 0.0000001

  /** `maxPoints` when the caller gives none. */
  const DefaultMaxPoints: int := 100

  /** `dt` when the caller gives none: the largest extent of the box over 500. */
  function DefaultStep(bbox: Bounds): (dt: real)
    ensures 500.0 * dt == MaxExtent(bbox)
    ensures 500.0 * dt >= bbox.maxx - bbox.minx && 500.0 * dt >= bbox.maxy - bbox.miny
    ensures 500.0 * dt >= bbox.maxz - bbox.minz
  {
    MaxExtent(bbox) / 500.0
  }

  /** The number of loop turns `while (nbPoints < maxPoints)` allows. */
  function Budget(maxPoints: int): (n: nat)
    ensures maxPoints > 0 ==> n == maxPoints
    ensures maxPoints <= 0 ==> n == 0
  {
    if maxPoints > 0 then maxPoints else 0
  }

  /** One integration step from `current` along the field value `f`: each coordinate
      becomes `f/l * dt + current` with `l = sqrt(x^2 + y^2 + z^2)`, the norm of `f`. When `l == 0` the
      source computes non-finite coordinates, which no box contains; the model reports
      `None` and the tracers stop there. */
  function Advance(lib: VecLib, dt: real, current: V3, f: V3): Option<V3> {
    var l := Norm(lib, f);
    if l == 0.0 then None else Some(Stepped(current, f, l, dt))
  }

  /** The candidate point `f/l * dt + current`, coordinate by coordinate. */
  function Stepped(current: V3, f: V3, l: real, dt: real): V3
    requires l != 0.0
  {
    V3(f.x / l * dt + current.x, f.y / l * dt + current.y, f.z / l * dt + current.z)
  }

  /** Over the reals a step moves by `dt` along the normalized field, so consecutive
      points lie exactly `|dt|` apart; a step is refused only for the zero field. */
  lemma AdvanceIsUnitStep(lib: VecLib, dt: real, current: V3, f: V3)
    requires ValidLib(lib)
    ensures Advance(lib, dt, current, f).None? <==> f == Zero3
    ensures f != Zero3 ==> Advance(lib, dt, current, f) == Some(Add(current, Scale(Normalize(lib, f), dt)))
    ensures f != Zero3 ==> Norm(lib, Sub(Advance(lib, dt, current, f).value, current)) == Abs(dt)
  {
    NormZeroIff(lib, f);
    if f != Zero3 {
      NormalizeUnit(lib, f);
      var l := Norm(lib, f);
      var u := Normalize(lib, f);
      var p := Advance(lib, dt, current, f).value;
      assert p.x == current.x + dt * u.x;
      assert p.y == current.y + dt * u.y;
      assert p.z == current.z + dt * u.z;
      assert Sub(p, current) == Scale(u, dt);
      NormScaleUnit(lib, u, dt);
    }
  }

  class DynanicStreamLines {
    const lib: VecLib
    const bbox: Bounds
    const fieldAt: V3 -> V3
    const inside: (Bounds, V3, real) -> bool
    const dt: real
    const maxPoints: int

    /** `dt` defaults to the largest extent over 500 and `maxPoints` to 100. */
    constructor (lib0: VecLib, bbox0: Bounds, fieldAt0: V3 -> V3, inside0: (Bounds, V3, real) -> bool,
                 dt0: Option<real>, maxPoints0: Option<int>)
      ensures lib == lib0 && bbox == bbox0 && fieldAt == fieldAt0 && inside == inside0
      ensures dt == if dt0.Some? then dt0.value else DefaultStep(bbox0)
      ensures maxPoints == if maxPoints0.Some? then maxPoints0.value else DefaultMaxPoints
    {
      lib := lib0;
      bbox := bbox0;
      fieldAt := fieldAt0;
      inside := inside0;
      maxPoints := if maxPoints0.Some? then maxPoints0.value else DefaultMaxPoints;
      if dt0.None? {
        var m := Max(Max(bbox0.maxx - bbox0.minx, bbox0.maxy - bbox0.miny), bbox0.maxz - bbox0.minz);
        dt := m / 500.0;
      } else {
        dt := dt0.value;
      }
    }

    /** The point one step from `current` adds, or `None` when the field is zero there
        or the candidate leaves the box. */
    function Next(current: V3): (next: Option<V3>)
      ensures next.Some? ==> inside(bbox, next.value, InsideTol)
    {
      match Advance(lib, dt, current, fieldAt(current))
      case None => None
      case Some(p) => if !inside(bbox, p, InsideTol) then None else Some(p)
    }

    /** The points a streamline gains after `current` within `budget` steps. */
    function Trace(current: V3, budget: nat): (line: seq<V3>)
      ensures |line| <= budget
    {
      Walk(Next, Id, current, budget)
    }

    /** Every point of a traced line passed `inside`, and each is the step from the one
        before it (the seed first). */
    lemma TraceInside(current: V3, budget: nat)
      ensures forall i :: 0 <= i < |Trace(current, budget)| ==> inside(bbox, Trace(current, budget)[i], InsideTol)
      ensures forall i :: 0 <= i < |Trace(current, budget)| ==>
        var prev := StartOf(Id, current, Trace(current, budget), i);
        Advance(lib, dt, prev, fieldAt(prev)) == Some(Trace(current, budget)[i])
    {
      var line := Trace(current, budget);
      WalkIsChain(Next, Id, current, budget);
      forall i | 0 <= i < |line|
        ensures inside(bbox, line[i], InsideTol)
        ensures Advance(lib, dt, StartOf(Id, current, line, i), fieldAt(StartOf(Id, current, line, i))) == Some(line[i])
      {
        assert Next(StartOf(Id, current, line, i)) == Some(line[i]);
      }
    }

    /** A line shorter than its budget stopped at the first candidate that is missing
        (zero field) or outside the box, and that candidate was not appended. */
    lemma TraceStopsAtFirstExit(current: V3, budget: nat)
      requires |Trace(current, budget)| < budget
      ensures var line := Trace(current, budget);
        var last := StartOf(Id, current, line, |line|);
        var next := Advance(lib, dt, last, fieldAt(last));
        next.None? || !inside(bbox, next.value, InsideTol)
    {
      WalkIsChain(Next, Id, current, budget);
    }

    /** The seed followed by the points traced from it. */
    function Line(seed: V3, budget: nat): (pts: seq<V3>)
      ensures |pts| >= 1 && pts[0] == seed
    {
      [seed] + Trace(seed, budget)
    }

    /** `b` is one step from `a`: `|dt|` away from it, along the normalized field sampled at `a`. */
    ghost predicate IsStep(a: V3, b: V3) {
      && fieldAt(a) != Zero3
      && b == Add(a, Scale(Normalize(lib, fieldAt(a)), dt))
      && Norm(lib, Sub(b, a)) == Abs(dt)
    }

    /** Every point of the line is one step from its predecessor. */
    lemma TraceSteps(current: V3, budget: nat)
      requires ValidLib(lib)
      ensures forall i :: 0 <= i < |Line(current, budget)| - 1 ==>
        IsStep(Line(current, budget)[i], Line(current, budget)[i + 1])
    {
      var line := Trace(current, budget);
      var pts := Line(current, budget);
      WalkIsChain(Next, Id, current, budget);
      forall i | 0 <= i < |pts| - 1
        ensures IsStep(pts[i], pts[i + 1])
      {
        var s := StartOf(Id, current, line, i);
        assert Next(s) == Some(line[i]);
        assert pts[i] == s && pts[i + 1] == line[i];
        AdvanceIsUnitStep(lib, dt, s, fieldAt(s));
      }
    }

    /** `generate(seed)`: the seed followed by the traced points, flattened three numbers
        per point (the `Serie` of item size 3). */
    method Generate(seed: V3) returns (points: seq<real>)
      ensures points == Flatten(Line(seed, Budget(maxPoints)))
    {
      var nbPoints := 0;
      points := Flat(seed);
      var current := seed;
      ghost var line: seq<V3> := [];
      while nbPoints < maxPoints
        invariant 0 <= nbPoints <= Budget(maxPoints) && nbPoints == |line|
        invariant Chain(Next, Id, seed, line) && current == StartOf(Id, seed, line, |line|)
        invariant points == Flatten([seed] + line)
      {
        var p := fieldAt(current);
        var l := Norm(lib, p);
        if l == 0.0 {
          assert Next(current).None?;
          break;
        }
        p := Stepped(current, p, l, dt);
        assert Advance(lib, dt, current, fieldAt(current)) == Some(p);
        if !inside(bbox, p, InsideTol) {
          assert Next(current).None?;
          break;
        }
        ChainPush(Next, Id, seed, line, p);
        FlattenPush([seed] + line, p);
        assert [seed] + (line + [p]) == ([seed] + line) + [p];
        points := points + Flat(p);
        line := line + [p];
        current := p;
        nbPoints := nbPoints + 1;
      }
      ChainIsWalk(Next, Id, seed, line, Budget(maxPoints));
    }
  }
}
