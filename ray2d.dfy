/** `Ray2D.ts`: a 2D half-line with a normalized direction, and the crossing of two
    such rays (`intersectRay`), which writes into caller-supplied result objects. */
module Rays2D {
  import opened Vectors
  import opened Utils

  /** The tolerance of `intersectRay` (1e-6), for parallel rays and for a vanishing x-direction. */
  const Tol: real := 0.000001

  /** The result object `{ dist, other_dist }` that `intersectRay` fills in. */
  class Distances {
    var dist: real
    var otherDist: real

    constructor (dist0: real, otherDist0: real)
      ensures dist == dist0 && otherDist == otherDist0
    {
      dist := dist0;
      otherDist := otherDist0;
    }
  }

  /** `new Ray2D(origin, direction)`: the direction is normalized; the ray is invalid
      when the direction has zero norm (and the direction is then kept as given). */
  function MakeRay2D(lib: VecLib, origin: V2, direction: V2): Ray2D {
    if Norm2D(lib, direction) == 0.0 then Ray2D(origin, direction, false)
    else Ray2D(origin, Normalize2D(lib, direction), true)
  }

  /** What every constructed ray satisfies: a valid ray has a unit direction. */
  ghost predicate Wf(r: Ray2D) {
    r.valid ==> Dot2(r.direction, r.direction) == 1.0
  }

  /** The constructor keeps the origin, is valid exactly for a non-zero direction,
      and stores the normalized direction. */
  lemma MakeRay2DFacts(lib: VecLib, origin: V2, direction: V2)
    requires ValidLib(lib)
    ensures Wf(MakeRay2D(lib, origin, direction))
    ensures MakeRay2D(lib, origin, direction).origin == origin
    ensures MakeRay2D(lib, origin, direction).valid <==> direction != Zero2
    ensures MakeRay2D(lib, origin, direction).valid ==>
      MakeRay2D(lib, origin, direction).direction == Normalize2D(lib, direction)
  {
    Norm2DZeroIff(lib, direction);
    if direction != Zero2 {
      Normalize2DUnit(lib, direction);
    }
  }

  /** A unit direction whose x-component is within `Tol` of zero has a non-zero y-component. */
  lemma SteepDirection(e: real, f: real)
    requires e * e + f * f == 1.0 && Abs(e) <= Tol
    ensures f != 0.0
  {
    var ae := Abs(e);
    assert ae * ae == e * e;
    assert ae * ae <= Tol * ae;
    assert Tol * ae <= Tol * Tol;
    assert e * e <= Tol * Tol;
    assert f * f == 1.0 - e * e;
    assert f * f > 0.0;
    assert 0.0 * 0.0 == 0.0;
  }

  /** `e * x == e * y` with `e != 0` gives `x == y`. */
  lemma CancelFactor(e: real, x: real, y: real)
    requires e != 0.0 && e * x == e * y
    ensures x == y
  {
    assert x == (e * x) / e;
  }

  datatype Ray2D = Ray2D(origin: V2, direction: V2, valid: bool)
  {
    /** `g * f - e * h`: zero exactly when the two directions are parallel. */
    function Det(other: Ray2D): real {
      other.direction.x * direction.y - direction.x * other.direction.y
    }

    /** The parameter along `other` of the crossing of the two supporting lines. */
    function K2(other: Ray2D): real
      requires Det(other) != 0.0
    {
      (direction.x * (other.origin.y - origin.y) + direction.y * (origin.x - other.origin.x)) / Det(other)
    }

    /** The parameter along this ray of the crossing, recovered from the x-equation when
        the x-direction exceeds `Tol` and from the y-equation otherwise. */
    function K1(other: Ray2D, k2: real): real
      requires Wf(this) && valid
    {
      if Abs(direction.x) > Tol then
        (other.origin.x + k2 * other.direction.x - origin.x) / direction.x
      else
        SteepDirection(direction.x, direction.y);
        (other.origin.y + k2 * other.direction.y - origin.y) / direction.y
    }

    /** The parameters `(k1, k2)` along this ray and along `other` at which
        `intersectRay` reports a crossing, or `None` when it returns false. */
    function Crossing(other: Ray2D): (r: Option<(real, real)>)
      requires Wf(this)
      ensures r.Some? ==> valid && r.value.0 >= 0.0 && r.value.1 >= 0.0
    {
      if !valid || Abs(Det(other)) < Tol then None
      else
        var k2 := K2(other);
        var k1 := K1(other, k2);
        if k1 < 0.0 || k2 < 0.0 then None else Some((k1, k2))
    }

    /** The point `origin + k * direction` of this ray. */
    function At(k: real): V2 {
      Add2(origin, Scale2(direction, k))
    }

    /** What `intersectRay` leaves in `intersection[0]` on success: its second write,
        the y-coordinate of the crossing. */
    function WrittenFirst(k1: real): real {
      origin.y + k1 * direction.y
    }

    /** `intersectRay` as written: on success both distances are set, `intersection[0]`
        ends up holding the y-coordinate and `intersection[1]` is never written; on
        failure nothing is written. The other ray's validity is not checked. */
    method IntersectRay(other: Ray2D, intersection: array<real>, distances: Distances) returns (ok: bool)
      requires Wf(this) && intersection.Length == 2
      modifies intersection, distances
      ensures ok <==> Crossing(other).Some?
      ensures ok ==> distances.dist == Crossing(other).value.0 && distances.otherDist == Crossing(other).value.1
      ensures ok ==> intersection[..] == [WrittenFirst(Crossing(other).value.0), old(intersection[1])]
      ensures !ok ==> unchanged(distances) && intersection[..] == old(intersection[..])
    {
      var cr := Crossing(other);
      if cr.None? {
        return false;
      }
      var k1 := cr.value.0;
      var k2 := cr.value.1;
      distances.dist := k1;
      distances.otherDist := k2;
      intersection[0] := At(k1).x;
      intersection[0] := WrittenFirst(k1);
      assert intersection[..] == [intersection[0], intersection[1]];
      return true;
    }

    /** `intersectRay` with both coordinates written (`intersection[1] = b + k1 f`):
        `intersection` then holds the crossing point. */
    method IntersectRayFixed(other: Ray2D, intersection: array<real>, distances: Distances) returns (ok: bool)
      requires Wf(this) && intersection.Length == 2
      modifies intersection, distances
      ensures ok <==> Crossing(other).Some?
      ensures ok ==> distances.dist == Crossing(other).value.0 && distances.otherDist == Crossing(other).value.1
      ensures ok ==> intersection[..] == [At(Crossing(other).value.0).x, At(Crossing(other).value.0).y]
      ensures !ok ==> unchanged(distances) && intersection[..] == old(intersection[..])
    {
      var cr := Crossing(other);
      if cr.None? {
        return false;
      }
      var k1 := cr.value.0;
      var k2 := cr.value.1;
      distances.dist := k1;
      distances.otherDist := k2;
      var p := At(k1);
      intersection[0] := p.x;
      intersection[1] := p.y;
      assert intersection[..] == [intersection[0], intersection[1]];
      return true;
    }
  }

  /** A reported crossing is a common point of both rays:
      `origin + k1 * direction == other.origin + k2 * other.direction`. */
  lemma CrossingMeets(self: Ray2D, other: Ray2D)
    requires Wf(self) && self.Crossing(other).Some?
    ensures self.At(self.Crossing(other).value.0) == other.At(self.Crossing(other).value.1)
  {
    assert self.valid && self.Det(other) != 0.0;
    assert self.Crossing(other).value == (self.K1(other, self.K2(other)), self.K2(other));
    SolvedLinesMeet(self, other);
  }

  /** For non-parallel lines, the parameters `intersectRay` computes name a common point. */
  lemma SolvedLinesMeet(self: Ray2D, other: Ray2D)
    requires Wf(self) && self.valid && self.Det(other) != 0.0
    ensures self.At(self.K1(other, self.K2(other))) == other.At(self.K2(other))
  {
    if Abs(self.direction.x) > Tol {
      MeetFromX(self, other);
    } else {
      MeetFromY(self, other);
    }
  }

  lemma MeetFromX(self: Ray2D, other: Ray2D)
    requires Wf(self) && self.valid && self.Det(other) != 0.0 && Abs(self.direction.x) > Tol
    ensures self.At(self.K1(other, self.K2(other))) == other.At(self.K2(other))
  {
    var k2 := self.K2(other);
    var k1 := self.K1(other, k2);
    assert self.At(k1) == other.At(k2) by {
      K2Solves(self, other);
      K1FromX(self, other, k2);
      LinesMeet(self, other, k1, k2);
    }
  }

  lemma MeetFromY(self: Ray2D, other: Ray2D)
    requires Wf(self) && self.valid && self.Det(other) != 0.0 && Abs(self.direction.x) <= Tol
    ensures self.At(self.K1(other, self.K2(other))) == other.At(self.K2(other))
  {
    var k2 := self.K2(other);
    var k1 := self.K1(other, k2);
    assert self.At(k1) == other.At(k2) by {
      K2Solves(self, other);
      K1FromY(self, other, k2);
      LinesMeet(self, other, k1, k2);
    }
  }

  /** Parameters that satisfy the equations `intersectRay` solves name the same point on both lines. */
  lemma LinesMeet(self: Ray2D, other: Ray2D, k1: real, k2: real)
    requires k2 * (other.direction.x * self.direction.y - self.direction.x * other.direction.y)
          == self.direction.x * (other.origin.y - self.origin.y) + self.direction.y * (self.origin.x - other.origin.x)
    requires Abs(self.direction.x) > Tol ==>
      k1 * self.direction.x == other.origin.x + k2 * other.direction.x - self.origin.x
    requires Abs(self.direction.x) <= Tol ==>
      self.direction.y != 0.0 && k1 * self.direction.y == other.origin.y + k2 * other.direction.y - self.origin.y
    ensures self.At(k1) == other.At(k2)
  {
    if Abs(self.direction.x) > Tol {
      SolveFromX(self.direction.x, self.direction.y, other.direction.x, other.direction.y,
                 self.origin.x, self.origin.y, other.origin.x, other.origin.y, k1, k2);
    } else {
      SolveFromY(self.direction.x, self.direction.y, other.direction.x, other.direction.y,
                 self.origin.x, self.origin.y, other.origin.x, other.origin.y, k1, k2);
    }
  }

  lemma K2Solves(self: Ray2D, other: Ray2D)
    requires self.Det(other) != 0.0
    ensures self.K2(other) * (other.direction.x * self.direction.y - self.direction.x * other.direction.y)
         == self.direction.x * (other.origin.y - self.origin.y) + self.direction.y * (self.origin.x - other.origin.x)
  {
    DivMul(self.direction.x * (other.origin.y - self.origin.y) + self.direction.y * (self.origin.x - other.origin.x),
           self.Det(other));
  }

  lemma K1FromX(self: Ray2D, other: Ray2D, k2: real)
    requires Wf(self) && self.valid && Abs(self.direction.x) > Tol
    ensures self.direction.x != 0.0
    ensures self.K1(other, k2) * self.direction.x == other.origin.x + k2 * other.direction.x - self.origin.x
  {
    DivMul(other.origin.x + k2 * other.direction.x - self.origin.x, self.direction.x);
  }

  lemma K1FromY(self: Ray2D, other: Ray2D, k2: real)
    requires Wf(self) && self.valid && Abs(self.direction.x) <= Tol
    ensures self.direction.y != 0.0
    ensures self.K1(other, k2) * self.direction.y == other.origin.y + k2 * other.direction.y - self.origin.y
  {
    SteepDirection(self.direction.x, self.direction.y);
    DivMul(other.origin.y + k2 * other.direction.y - self.origin.y, self.direction.y);
  }

  /** With `k2` solving the determinant equation and `k1` taken from the x-equation,
      the y-equation `b + k1 f == d + k2 h` holds too. */
  lemma SolveFromX(e: real, f: real, g: real, h: real, a: real, b: real, c: real, d: real, k1: real, k2: real)
    requires e != 0.0
    requires k2 * (g * f - e * h) == e * (d - b) + f * (a - c)
    requires k1 * e == c + k2 * g - a
    ensures a + k1 * e == c + k2 * g && b + k1 * f == d + k2 * h
  {
    calc {
      e * (b + k1 * f);
      e * b + f * (k1 * e);
      e * b + f * (c + k2 * g - a);
      e * d + k2 * h * e - (e * (d - b) + f * (a - c)) + k2 * (g * f - e * h);
      e * (d + k2 * h);
    }
    CancelFactor(e, b + k1 * f, d + k2 * h);
  }

  /** With `k1` taken from the y-equation instead, the x-equation holds too. */
  lemma SolveFromY(e: real, f: real, g: real, h: real, a: real, b: real, c: real, d: real, k1: real, k2: real)
    requires f != 0.0
    requires k2 * (g * f - e * h) == e * (d - b) + f * (a - c)
    requires k1 * f == d + k2 * h - b
    ensures a + k1 * e == c + k2 * g && b + k1 * f == d + k2 * h
  {
    calc {
      f * (a + k1 * e);
      f * a + e * (k1 * f);
      f * a + e * (d + k2 * h - b);
      f * c + k2 * g * f - (e * (d - b) + f * (a - c)) + k2 * (g * f - e * h);
      f * (c + k2 * g);
    }
    CancelFactor(f, a + k1 * e, c + k2 * g);
  }

  /** Conversely, every common point of a valid receiver and a ray not parallel to it
      within `Tol`, at non-negative parameters along both, is the crossing reported. */
  lemma CrossingComplete(self: Ray2D, other: Ray2D, k1: real, k2: real)
    requires Wf(self) && self.valid && Abs(self.Det(other)) >= Tol && k1 >= 0.0 && k2 >= 0.0
    requires self.At(k1) == other.At(k2)
    ensures self.Crossing(other) == Some((k1, k2))
  {
    CommonPointParameters(self, other, k1, k2);
  }

  /** At a common point `At(k1) == other.At(k2)` of non-parallel lines, `K2` is `k2`
      and `K1` is `k1`. */
  lemma CommonPointParameters(self: Ray2D, other: Ray2D, k1: real, k2: real)
    requires Wf(self) && self.valid && self.Det(other) != 0.0
    requires self.At(k1) == other.At(k2)
    ensures self.K2(other) == k2 && self.K1(other, k2) == k1
  {
    var e, f, g, h := self.direction.x, self.direction.y, other.direction.x, other.direction.y;
    var a, b, c, d := self.origin.x, self.origin.y, other.origin.x, other.origin.y;
    AtEquations(self, other, k1, k2);
    CommonPointSolves(e, f, g, h, a, b, c, d, k1, k2);
    K2Is(self, other, k2);
    K1Is(self, other, k1, k2);
  }

  /** The two coordinate equations of a common point. */
  lemma AtEquations(self: Ray2D, other: Ray2D, k1: real, k2: real)
    requires self.At(k1) == other.At(k2)
    ensures self.origin.x + k1 * self.direction.x == other.origin.x + k2 * other.direction.x
    ensures self.origin.y + k1 * self.direction.y == other.origin.y + k2 * other.direction.y
  {
    assert self.At(k1).x == other.At(k2).x && self.At(k1).y == other.At(k2).y;
  }

  lemma K2Is(self: Ray2D, other: Ray2D, k2: real)
    requires self.Det(other) != 0.0
    requires self.direction.x * (other.origin.y - self.origin.y) + self.direction.y * (self.origin.x - other.origin.x)
          == k2 * self.Det(other)
    ensures self.K2(other) == k2
  {
    QuotientOf(self.direction.x * (other.origin.y - self.origin.y) + self.direction.y * (self.origin.x - other.origin.x),
               self.Det(other), k2);
  }

  lemma K1Is(self: Ray2D, other: Ray2D, k1: real, k2: real)
    requires Wf(self) && self.valid
    requires other.origin.x + k2 * other.direction.x - self.origin.x == k1 * self.direction.x
    requires other.origin.y + k2 * other.direction.y - self.origin.y == k1 * self.direction.y
    ensures self.K1(other, k2) == k1
  {
    if Abs(self.direction.x) > Tol {
      QuotientOf(other.origin.x + k2 * other.direction.x - self.origin.x, self.direction.x, k1);
    } else {
      SteepDirection(self.direction.x, self.direction.y);
      QuotientOf(other.origin.y + k2 * other.direction.y - self.origin.y, self.direction.y, k1);
    }
  }

  /** `k * d == n` with `d != 0` gives `n / d == k`. */
  lemma QuotientOf(n: real, d: real, k: real)
    requires d != 0.0 && k * d == n
    ensures n / d == k
  {
  }

  /** A common point `a + k1 e == c + k2 g`, `b + k1 f == d + k2 h` satisfies the
      determinant equation `intersectRay` solves for `k2`. */
  lemma CommonPointSolves(e: real, f: real, g: real, h: real, a: real, b: real, c: real, d: real, k1: real, k2: real)
    requires a + k1 * e == c + k2 * g && b + k1 * f == d + k2 * h
    ensures e * (d - b) + f * (a - c) == k2 * (g * f - e * h)
    ensures c + k2 * g - a == k1 * e && d + k2 * h - b == k1 * f
  {
    assert d - b == k1 * f - k2 * h;
    assert a - c == k2 * g - k1 * e;
  }

  /** Rays whose directions are parallel within `Tol` never cross. */
  lemma ParallelNoCrossing(self: Ray2D, other: Ray2D)
    requires Wf(self)
    requires Abs(self.Det(other)) < Tol
    ensures self.Crossing(other).None?
  {
  }

  /** An invalid receiver never reports a crossing. */
  lemma InvalidNoCrossing(self: Ray2D, other: Ray2D)
    requires Wf(self) && !self.valid
    ensures self.Crossing(other).None?
  {
  }

  /** A ray built from a unit direction stores exactly that direction. */
  lemma MakeRay2DUnit(lib: VecLib, origin: V2, direction: V2)
    requires ValidLib(lib) && Dot2(direction, direction) == 1.0
    ensures MakeRay2D(lib, origin, direction) == Ray2D(origin, direction, true)
  {
    SqrtOne(lib);
    assert Norm2D(lib, direction) == 1.0;
    assert Scale2(direction, 1.0 / 1.0) == direction;
  }

  /** The two rays of the counterexample below cross at parameters `k1 == k2 == 1`. */
  lemma ExampleCrossing()
    ensures Ray2D(V2(0.0, 0.0), V2(1.0, 0.0), true).Crossing(Ray2D(V2(1.0, -1.0), V2(0.0, 1.0), true)) == Some((1.0, 1.0))
  {
    var self := Ray2D(V2(0.0, 0.0), V2(1.0, 0.0), true);
    var other := Ray2D(V2(1.0, -1.0), V2(0.0, 1.0), true);
    assert self.Det(other) == -1.0;
    assert self.K2(other) == 1.0;
    assert self.K1(other, 1.0) == 1.0;
  }

  /** Counterexample for the double write in `intersectRay`: the ray from (0,0) along
      (1,0) crosses the ray from (1,-1) along (0,1) at (1,0), yet `intersection[0]`
      ends up 0 rather than the crossing's x-coordinate 1. Both rays are what the
      constructor builds from these inputs (`MakeRay2DUnit`). */
  lemma IntersectionLosesX()
    ensures Ray2D(V2(0.0, 0.0), V2(1.0, 0.0), true).Crossing(Ray2D(V2(1.0, -1.0), V2(0.0, 1.0), true)) == Some((1.0, 1.0))
    ensures Ray2D(V2(0.0, 0.0), V2(1.0, 0.0), true).WrittenFirst(1.0)
         != Ray2D(V2(0.0, 0.0), V2(1.0, 0.0), true).At(1.0).x
  {
    ExampleCrossing();
  }
}
