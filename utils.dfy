/** The small array constructors and in-place setters of `src/lib/utils.ts`.

    JavaScript's optional arguments become `Option`s; the first argument of
    `createV2`/`createV3` is either a number or a vector to copy. Spreading a
    number (`[...5]`) throws a `TypeError` in JavaScript, which is the `Err` case. */
module Utils {

  datatype Option<T> = None | Some(value: T)
  {
    /** The value, or `default` when absent: a JavaScript default parameter. */
    function GetOr(default: T): T {
      if Some? then value else default
    }
  }

  datatype Result<T> = Ok(value: T) | Err(msg: string)

  /** Extending a prefix by one element. */
  lemma PrefixSnoc<T>(s: seq<T>, n: nat)
    requires n < |s|
    ensures s[..n + 1] == s[..n] + [s[n]]
  {
  }

  /** The first argument of `createV2`/`createV3`: absent, a number, or an array to copy. */
  datatype Init = Absent | Number(n: real) | Vector(v: array<real>)

  /** `createV2(v?, y?)`: with `y` it is `[v, y]`; otherwise a copy of `v`, or `[0, 0]`. */
  method CreateV2(v: Init, y: Option<real>) returns (r: Result<array<real>>)
    requires y.Some? ==> v.Number?
    ensures r.Err? <==> (y.None? && v.Number?)
    ensures r.Ok? ==> fresh(r.value)
    ensures r.Ok? && y.Some? ==> r.value[..] == [v.n, y.value]
    ensures r.Ok? && y.None? && v.Vector? ==> r.value[..] == v.v[..]
    ensures r.Ok? && y.None? && v.Absent? ==> r.value[..] == [0.0, 0.0]
  {
    if y.Some? {
      var a := new real[2];
      a[0], a[1] := v.n, y.value;
      return Ok(a);
    }
    match v
    case Absent =>
      var a := new real[2];
      a[0], a[1] := 0.0, 0.0;
      return Ok(a);
    case Number(_) =>
      return Err("TypeError: number is not iterable");
    case Vector(src) =>
      var a := new real[src.Length](i reads src requires 0 <= i < src.Length => src[i]);
      return Ok(a);
  }

  /** `createV3(v?, y?, z?)`: with both `y` and `z` it is `[v, y, z]`; otherwise a
      copy of `v` (a lone `y` is ignored), or `[0, 0, 0]`. */
  method CreateV3(v: Init, y: Option<real>, z: Option<real>) returns (r: Result<array<real>>)
    requires y.Some? && z.Some? ==> v.Number?
    ensures r.Err? <==> (!(y.Some? && z.Some?) && v.Number?)
    ensures r.Ok? ==> fresh(r.value)
    ensures r.Ok? && y.Some? && z.Some? ==> r.value[..] == [v.n, y.value, z.value]
    ensures r.Ok? && !(y.Some? && z.Some?) && v.Vector? ==> r.value[..] == v.v[..]
    ensures r.Ok? && !(y.Some? && z.Some?) && v.Absent? ==> r.value[..] == [0.0, 0.0, 0.0]
  {
    if y.Some? && z.Some? {
      var a := new real[3];
      a[0], a[1], a[2] := v.n, y.value, z.value;
      return Ok(a);
    }
    match v
    case Absent =>
      var a := new real[3];
      a[0], a[1], a[2] := 0.0, 0.0, 0.0;
      return Ok(a);
    case Number(_) =>
      return Err("TypeError: number is not iterable");
    case Vector(src) =>
      var a := new real[src.Length](i reads src requires 0 <= i < src.Length => src[i]);
      return Ok(a);
  }

  /** A copy is a distinct array: writing into it leaves the original as it was. */
  method CopyIsIndependent(v: array<real>, x: real)
    requires v.Length > 0
    modifies {}
    ensures v[..] == old(v[..])
  {
    var r := CreateV3(Vector(v), None, None);
    r.value[0] := x;
  }

  /** `setV2(v, x, y)`: overwrites both components in place and returns `v` itself. */
  method SetV2(v: array<real>, x: real, y: real) returns (r: array<real>)
    requires v.Length >= 2
    modifies v
    ensures r == v
    ensures v[..2] == [x, y]
    ensures v[2..] == old(v[2..])
  {
    v[0] := x;
    v[1] := y;
    return v;
  }

  /** `setV3(v, x, y, z)`: overwrites the three components in place and returns `v` itself. */
  method SetV3(v: array<real>, x: real, y: real, z: real) returns (r: array<real>)
    requires v.Length >= 3
    modifies v
    ensures r == v
    ensures v[..3] == [x, y, z]
    ensures v[3..] == old(v[3..])
  {
    v[0] := x;
    v[1] := y;
    v[2] := z;
    return v;
  }
}
