/** Fixed-size 2D/3D coordinate tuples and the vector arithmetic of @youwol/math
    (`vec.add`, `vec.sub`, `vec.scale`, `vec.dot`, `vec.cross`, `vec.norm`,
    `vec.normalize`) as used by the tracers, over exact reals.

    `vec.norm` needs a square root, which has no closed form over `real`; it is
    supplied by a `VecLib` value whose `sqrt` is exact on non-negative numbers.
    Whether `vec.normalize`, `vec.scale` and `vec.add` also overwrite their (first)
    argument is not visible from the repository; `VecLib.mutates` records it. It matters only where
    the source discards their result. */
module Vectors {

  datatype V2 = V2(x: real, y: real)
  datatype V3 = V3(x: real, y: real, z: real)

  const Zero2: V2 := V2(0.0, 0.0)
  const Zero3: V3 := V3(0.0, 0.0, 0.0)

  function Add(a: V3, b: V3): V3 { V3(a.x + b.x, a.y + b.y, a.z + b.z) }
  function Sub(a: V3, b: V3): V3 { V3(a.x - b.x, a.y - b.y, a.z - b.z) }
  function Scale(a: V3, k: real): V3 { V3(k * a.x, k * a.y, k * a.z) }
  function Neg(a: V3): V3 { V3(-a.x, -a.y, -a.z) }
  function Dot(a: V3, b: V3): real { a.x * b.x + a.y * b.y + a.z * b.z }
  function Cross(a: V3, b: V3): V3 {
    V3(a.y * b.z - a.z * b.y, a.z * b.x - a.x * b.z, a.x * b.y - a.y * b.x)
  }
  function Abs(x: real): real { if x < 0.0 then -x else x }

  /** `vec.norm2`: the squared length. */
  function Norm2(a: V3): real { Dot(a, a) }

  function Add2(a: V2, b: V2): V2 { V2(a.x + b.x, a.y + b.y) }
  function Sub2(a: V2, b: V2): V2 { V2(a.x - b.x, a.y - b.y) }
  function Scale2(a: V2, k: real): V2 { V2(k * a.x, k * a.y) }
  function Dot2(a: V2, b: V2): real { a.x * b.x + a.y * b.y }

  /** Flat stride-3 layout of a point, as pushed by `points.push(...p)`. */
  function Flat(p: V3): seq<real> { [p.x, p.y, p.z] }

  function Flatten(ps: seq<V3>): (r: seq<real>)
    ensures |r| == 3 * |ps|
  {
    if ps == [] then [] else Flat(ps[0]) + Flatten(ps[1..])
  }

  lemma {:induction false} FlattenAppend(ps: seq<V3>, qs: seq<V3>)
    ensures Flatten(ps + qs) == Flatten(ps) + Flatten(qs)
  {
    if ps == [] {
      assert ps + qs == qs;
    } else {
      assert (ps + qs)[1..] == ps[1..] + qs;
      FlattenAppend(ps[1..], qs);
    }
  }

  /** Pushing one point appends its three coordinates. */
  lemma FlattenPush(ps: seq<V3>, p: V3)
    ensures Flatten(ps + [p]) == Flatten(ps) + Flat(p)
  {
    FlattenAppend(ps, [p]);
    assert Flatten([p]) == Flat(p);
  }

  /** The numeric primitives @youwol/math is expected to provide. */
  datatype VecLib = VecLib(sqrt: real -> real, mutates: bool)

  /** `sqrt` is the exact non-negative square root on non-negative reals, and is
      zero only at zero. */
  ghost predicate ValidLib(lib: VecLib) {
    forall s: real {:trigger lib.sqrt(s)} :: 0.0 <= s ==>
      && 0.0 <= lib.sqrt(s)
      && lib.sqrt(s) * lib.sqrt(s) == s
      && (lib.sqrt(s) == 0.0 <==> s == 0.0)
  }

  function Norm(lib: VecLib, a: V3): real { lib.sqrt(Norm2(a)) }
  function Norm2D(lib: VecLib, a: V2): real { lib.sqrt(Dot2(a, a)) }

  /** `vec.normalize`; the zero vector is left as it is (the library would divide by zero). */
  function Normalize(lib: VecLib, a: V3): V3 {
    var n := Norm(lib, a);
    if n == 0.0 then a else Scale(a, 1.0 / n)
  }

  function Normalize2D(lib: VecLib, a: V2): V2 {
    var n := Norm2D(lib, a);
    if n == 0.0 then a else Scale2(a, 1.0 / n)
  }

  lemma SquarePos(x: real)
    ensures x * x >= 0.0
    ensures x != 0.0 ==> x * x > 0.0
  {
    if x > 0.0 {
      assert x * x > 0.0;
    } else if x < 0.0 {
      assert x * x == (-x) * (-x);
      assert (-x) * (-x) > 0.0;
    }
  }

  /** A sum of three squares is non-negative, and positive unless all three vanish. */
  lemma SquaresPos(x: real, y: real, z: real)
    ensures x * x + y * y + z * z >= 0.0
    ensures x != 0.0 || y != 0.0 || z != 0.0 ==> x * x + y * y + z * z > 0.0
  {
    SquarePos(x);
    SquarePos(y);
    SquarePos(z);
  }

  /** The squared length is non-negative, and positive unless the vector is zero. */
  lemma Norm2Pos(a: V3)
    ensures Norm2(a) >= 0.0
    ensures a != Zero3 ==> Norm2(a) > 0.0
  {
    if a != Zero3 {
      calc {
        Norm2(a);
      ==
        a.x * a.x + a.y * a.y + a.z * a.z;
      > { SquaresPos(a.x, a.y, a.z); }
        0.0;
      }
    }
  }

  lemma Dot2Pos(a: V2)
    ensures Dot2(a, a) >= 0.0
    ensures a != Zero2 ==> Dot2(a, a) > 0.0
  {
    if a != Zero2 {
      calc {
        Dot2(a, a);
      ==
        a.x * a.x + a.y * a.y + 0.0 * 0.0;
      > { SquaresPos(a.x, a.y, 0.0); }
        0.0;
      }
    }
  }

  /** `vec.norm` is non-negative and vanishes exactly on the zero vector. */
  lemma NormZeroIff(lib: VecLib, a: V3)
    requires ValidLib(lib)
    ensures Norm(lib, a) >= 0.0
    ensures Norm(lib, a) == 0.0 <==> a == Zero3
    ensures Norm(lib, a) * Norm(lib, a) == Norm2(a)
  {
    Norm2Pos(a);
    if a == Zero3 {
      assert Norm2(a) == 0.0;
    } else {
      assert lib.sqrt(Norm2(a)) != 0.0;
    }
  }

  lemma Norm2DZeroIff(lib: VecLib, a: V2)
    requires ValidLib(lib)
    ensures Norm2D(lib, a) >= 0.0
    ensures Norm2D(lib, a) == 0.0 <==> a == Zero2
    ensures Norm2D(lib, a) * Norm2D(lib, a) == Dot2(a, a)
  {
    Dot2Pos(a);
    if a == Zero2 {
      assert Dot2(a, a) == 0.0;
    } else {
      assert lib.sqrt(Dot2(a, a)) != 0.0;
    }
  }

  lemma ScaleDot(a: V3, k: real, b: V3)
    ensures Dot(Scale(a, k), b) == k * Dot(a, b)
    ensures Dot(b, Scale(a, k)) == k * Dot(a, b)
  {
  }

  /** `vec.normalize` of a non-zero vector has unit length and points the same way. */
  lemma NormalizeUnit(lib: VecLib, a: V3)
    requires ValidLib(lib) && a != Zero3
    ensures Norm(lib, a) > 0.0
    ensures Normalize(lib, a) == Scale(a, 1.0 / Norm(lib, a))
    ensures Norm2(Normalize(lib, a)) == 1.0
  {
    NormZeroIff(lib, a);
    var n := Norm(lib, a);
    var k := 1.0 / n;
    var u := Scale(a, k);
    calc {
      Norm2(u);
      { ScaleDot(a, k, u); }
      k * Dot(a, u);
      { ScaleDot(a, k, a); }
      k * (k * Norm2(a));
      k * (k * (n * n));
      (k * n) * (k * n);
      1.0;
    }
  }

  lemma Normalize2DUnit(lib: VecLib, a: V2)
    requires ValidLib(lib) && a != Zero2
    ensures Norm2D(lib, a) > 0.0
    ensures Normalize2D(lib, a) == Scale2(a, 1.0 / Norm2D(lib, a))
    ensures Dot2(Normalize2D(lib, a), Normalize2D(lib, a)) == 1.0
  {
    Norm2DZeroIff(lib, a);
    var n := Norm2D(lib, a);
    var k := 1.0 / n;
    var u := Scale2(a, k);
    calc {
      Dot2(u, u);
      k * k * Dot2(a, a);
      k * k * (n * n);
      (k * n) * (k * n);
      1.0;
    }
  }

  /** Scaling by `1/k` and then by `k` gives the vector back. */
  lemma ScaleInverse(a: V3, k: real)
    requires k != 0.0
    ensures Scale(Scale(a, 1.0 / k), k) == a
  {
    var r := 1.0 / k;
    InverseCancels(a.x, k, r);
    InverseCancels(a.y, k, r);
    InverseCancels(a.z, k, r);
  }

  lemma InverseCancels(x: real, k: real, r: real)
    requires k != 0.0 && r == 1.0 / k
    ensures (x * r) * k == x
  {
    assert r * k == 1.0;
  }

  /** Dividing and multiplying back by the same non-zero number cancels. */
  lemma DivMul(n: real, d: real)
    requires d != 0.0
    ensures (n / d) * d == n
  {
  }

  lemma NegNorm2(a: V3)
    ensures Norm2(Neg(a)) == Norm2(a)
  {
  }

  lemma DotAdd(n: V3, a: V3, b: V3)
    ensures Dot(n, Add(a, b)) == Dot(n, a) + Dot(n, b)
  {
  }

  /** Normalizing the opposite vector gives the opposite unit vector. */
  lemma NormalizeNeg(lib: VecLib, a: V3)
    ensures Normalize(lib, Neg(a)) == Neg(Normalize(lib, a))
  {
    assert Norm2(Neg(a)) == Norm2(a);
  }

  /** The cross product is orthogonal to both factors. */
  lemma CrossOrth(a: V3, b: V3)
    ensures Dot(a, Cross(a, b)) == 0.0 && Dot(Cross(a, b), a) == 0.0
    ensures Dot(b, Cross(a, b)) == 0.0 && Dot(Cross(a, b), b) == 0.0
  {
  }

  /** Swapping the factors of a cross product negates it. */
  lemma CrossAnti(a: V3, b: V3)
    ensures Cross(b, a) == Neg(Cross(a, b))
  {
  }

  /** A factor on the left of a 2x2 determinant `d = p q - r s` can be pulled out
      (`kp` and `kr` are the scaled entries). */
  lemma DetScale(k: real, p: real, q: real, r: real, s: real, d: real, kp: real, kr: real)
    requires d == p * q - r * s && kp == k * p && kr == k * r
    ensures kp * q - kr * s == k * d
  {
    assert k * d == k * (p * q) - k * (r * s);
  }

  /** Scaling the left factor of a cross product, one coordinate at a time. */
  lemma CrossScaleX(a: V3, b: V3, k: real)
    ensures Cross(Scale(a, k), b).x == Scale(Cross(a, b), k).x
  {
    DetScale(k, a.y, b.z, a.z, b.y, Cross(a, b).x, Scale(a, k).y, Scale(a, k).z);
  }

  lemma CrossScaleY(a: V3, b: V3, k: real)
    ensures Cross(Scale(a, k), b).y == Scale(Cross(a, b), k).y
  {
    DetScale(k, a.z, b.x, a.x, b.z, Cross(a, b).y, Scale(a, k).z, Scale(a, k).x);
  }

  lemma CrossScaleZ(a: V3, b: V3, k: real)
    ensures Cross(Scale(a, k), b).z == Scale(Cross(a, b), k).z
  {
    DetScale(k, a.x, b.y, a.y, b.x, Cross(a, b).z, Scale(a, k).x, Scale(a, k).y);
  }

  lemma CrossScale(a: V3, b: V3, k: real)
    ensures Cross(Scale(a, k), b) == Scale(Cross(a, b), k)
  {
    CrossScaleX(a, b, k);
    CrossScaleY(a, b, k);
    CrossScaleZ(a, b, k);
  }

  /** `sqrt(1) == 1`. */
  lemma SqrtOne(lib: VecLib)
    requires ValidLib(lib)
    ensures lib.sqrt(1.0) == 1.0
  {
    var s := lib.sqrt(1.0);
    assert s >= 0.0 && s * s == 1.0;
    assert (s - 1.0) * (s + 1.0) == s * s - 1.0;
    ProductZero(s - 1.0, s + 1.0);
  }

  /** A product with a positive factor vanishes only when the other factor does. */
  lemma ProductZero(x: real, y: real)
    requires x * y == 0.0 && y > 0.0
    ensures x == 0.0
  {
    assert x == (x * y) / y;
  }

  /** The square root of a square is the absolute value. */
  lemma SqrtSquare(lib: VecLib, x: real)
    requires ValidLib(lib)
    ensures lib.sqrt(x * x) == Abs(x)
  {
    SquarePos(x);
    var s := lib.sqrt(x * x);
    var ax := Abs(x);
    assert s >= 0.0 && s * s == x * x;
    assert ax >= 0.0 && ax * ax == x * x;
    assert (s - ax) * (s + ax) == s * s - ax * ax;
    if s + ax > 0.0 {
      ProductZero(s - ax, s + ax);
    }
  }

  /** Scaling a unit vector by `k` gives a vector of length `|k|`. */
  lemma NormScaleUnit(lib: VecLib, u: V3, k: real)
    requires ValidLib(lib) && Norm2(u) == 1.0
    ensures Norm(lib, Scale(u, k)) == Abs(k)
  {
    calc {
      Norm2(Scale(u, k));
      { ScaleDot(u, k, Scale(u, k)); ScaleDot(u, k, u); }
      k * (k * Norm2(u));
      k * k;
    }
    SqrtSquare(lib, k);
  }

  /** Normalizing keeps a vector orthogonal to whatever it was orthogonal to. */
  lemma NormalizeOrth(lib: VecLib, n: V3, w: V3)
    requires Dot(n, w) == 0.0
    ensures Dot(n, Normalize(lib, w)) == 0.0
  {
    if Norm(lib, w) != 0.0 {
      ScaleDot(w, 1.0 / Norm(lib, w), n);
    }
  }

  /** One coordinate of the triple product expansion, on plain numbers (`ac` and `ab` are
      the dot products); the other two coordinates are the same identity with the axes
      rotated. */
  lemma TripleCrossCoord(a1: real, a2: real, a3: real, b1: real, b2: real, b3: real,
                         c1: real, c2: real, c3: real, ac: real, ab: real)
    requires ac == a1 * c1 + a2 * c2 + a3 * c3 && ab == a1 * b1 + a2 * b2 + a3 * b3
    ensures a2 * (b1 * c2 - b2 * c1) - a3 * (b3 * c1 - b1 * c3) == ac * b1 - ab * c1
  {
    assert a2 * (b1 * c2 - b2 * c1) == a2 * b1 * c2 - a2 * b2 * c1;
    assert a3 * (b3 * c1 - b1 * c3) == a3 * b3 * c1 - a3 * b1 * c3;
    assert ac * b1 == a1 * c1 * b1 + a2 * c2 * b1 + a3 * c3 * b1;
    assert ab * c1 == a1 * b1 * c1 + a2 * b2 * c1 + a3 * b3 * c1;
  }

  /** The triple product expansion, one coordinate at a time. */
  lemma TripleCrossX(a: V3, b: V3, c: V3)
    ensures Cross(a, Cross(b, c)).x == Sub(Scale(b, Dot(a, c)), Scale(c, Dot(a, b))).x
  {
    TripleCrossCoord(a.x, a.y, a.z, b.x, b.y, b.z, c.x, c.y, c.z, Dot(a, c), Dot(a, b));
  }

  lemma TripleCrossY(a: V3, b: V3, c: V3)
    ensures Cross(a, Cross(b, c)).y == Sub(Scale(b, Dot(a, c)), Scale(c, Dot(a, b))).y
  {
    TripleCrossCoord(a.y, a.z, a.x, b.y, b.z, b.x, c.y, c.z, c.x, Dot(a, c), Dot(a, b));
  }

  lemma TripleCrossZ(a: V3, b: V3, c: V3)
    ensures Cross(a, Cross(b, c)).z == Sub(Scale(b, Dot(a, c)), Scale(c, Dot(a, b))).z
  {
    TripleCrossCoord(a.z, a.x, a.y, b.z, b.x, b.y, c.z, c.x, c.y, Dot(a, c), Dot(a, b));
  }

  /** `a x (b x c) == b (a . c) - c (a . b)`. */
  lemma TripleCross(a: V3, b: V3, c: V3)
    ensures Cross(a, Cross(b, c)) == Sub(Scale(b, Dot(a, c)), Scale(c, Dot(a, b)))
  {
    TripleCrossX(a, b, c);
    TripleCrossY(a, b, c);
    TripleCrossZ(a, b, c);
  }

  /** Norm facts that hold whenever the square root is exact. */
  lemma NormFacts(lib: VecLib, a: V3)
    ensures ValidLib(lib) ==> Norm(lib, a) >= 0.0 && (Norm(lib, a) == 0.0 <==> a == Zero3)
  {
    if ValidLib(lib) {
      NormZeroIff(lib, a);
    }
  }

  /** A unit vector is its own normalization. */
  lemma NormalizeOfUnit(lib: VecLib, a: V3)
    requires ValidLib(lib) && Norm2(a) == 1.0
    ensures Norm(lib, a) == 1.0 && Normalize(lib, a) == a
  {
    SqrtOne(lib);
  }

  /** A mutable JavaScript array of points (`Array<vec.Vector3>`) that callees push onto. */
  class PointList {
    var elems: seq<V3>

    constructor ()
      ensures elems == []
    {
      elems := [];
    }
  }
}
