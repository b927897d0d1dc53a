/** Plane geometry shared by both receivers.
    Every tracked position lies on the ground plane (y = 0), so a point is
    its (x, z) pair. Unity's single-precision floats are modelled as reals. */
module Geometry {

  datatype Point = Point(x: real, z: real)

  const Origin := Point(0.0, 0.0)

  function Add(a: Point, b: Point): Point
  {
    Point(a.x + b.x, a.z + b.z)
  }

  /** `Vector3 / int`: componentwise division by a positive count. */
  function DivBy(p: Point, n: nat): Point
    requires n > 0
  {
    Point(p.x / n as real, p.z / n as real)
  }

  /** `(a - b).sqrMagnitude` restricted to the ground plane. */
  function Dist2(a: Point, b: Point): (r: real)
    ensures r >= 0.0
    ensures a == b ==> r == 0.0
  {
    var dx := a.x - b.x;
    var dz := a.z - b.z;
    SquareFacts(dx);
    SquareFacts(dz);
    dx * dx + dz * dz
  }

  lemma SquareFacts(d: real)
    ensures d * d >= 0.0
  {
    if d < 0.0 {
      assert d * d == (-d) * (-d);
    }
  }

  lemma ScaleWithinUnit(w: real, u: real)
    requires 0.0 <= u <= 1.0
    ensures w >= 0.0 ==> 0.0 <= w * u <= w
  {
    if w >= 0.0 {
      assert w * u <= w * 1.0;
    }
  }

  /** `Mathf.Clamp(value, min, max)`: the lower bound is tested first, so
      with `min > max` a value below `min` still gives `min`. */
  function Clamp(v: real, lo: real, hi: real): (r: real)
    ensures lo <= hi ==> lo <= r <= hi
    ensures lo <= v <= hi ==> r == v
    ensures v < lo ==> r == lo
    ensures lo <= v && hi < v ==> r == hi
  {
    if v < lo then lo else if v > hi then hi else v
  }

  /** `Mathf.Clamp(int value, int min, int max)`, with the same order of
      tests as the float overload. */
  function ClampInt(v: int, lo: int, hi: int): (r: int)
    ensures lo <= hi ==> lo <= r <= hi
    ensures lo <= v <= hi ==> r == v
    ensures v < lo ==> r == lo
    ensures lo <= hi < v ==> r == hi
  {
    if v < lo then lo else if v > hi then hi else v
  }

  /** `Mathf.Clamp01`. */
  function Clamp01(v: real): (r: real)
    ensures 0.0 <= r <= 1.0
    ensures 0.0 <= v <= 1.0 ==> r == v
  {
    Clamp(v, 0.0, 1.0)
  }

  /** `Mathf.Lerp(a, b, t)`, which clamps `t` to [0,1] itself. */
  function Lerp(a: real, b: real, t: real): (r: real)
    ensures a <= b ==> a <= r <= b
    ensures t <= 0.0 ==> r == a
    ensures t >= 1.0 ==> r == b
  {
    var u := Clamp01(t);
    ScaleWithinUnit(b - a, u);
    a + (b - a) * u
  }

  /** The world rectangle [minX, maxX] x [minZ, maxZ] of a receiver. */
  datatype Box = Box(minX: real, maxX: real, minZ: real, maxZ: real)
  {
    predicate Valid()
    {
      minX <= maxX && minZ <= maxZ
    }

    predicate Contains(p: Point)
    {
      minX <= p.x <= maxX && minZ <= p.z <= maxZ
    }

    /** The per-axis clamp applied after every smoothing step. */
    function ClampPoint(p: Point): (r: Point)
      ensures Valid() ==> Contains(r)
      ensures Contains(p) ==> r == p
    {
      Point(Clamp(p.x, minX, maxX), Clamp(p.z, minZ, maxZ))
    }

    /** Maps a raw sensor sample from [0,1] into the rectangle; samples
        outside [0,1] are first clamped to it. */
    function MapSample(sx: real, sy: real): (r: Point)
      ensures Valid() ==> Contains(r)
      ensures sx <= 0.0 && sy <= 0.0 ==> r == Point(minX, minZ)
      ensures sx >= 1.0 && sy >= 1.0 ==> r == Point(maxX, maxZ)
    {
      Point(Lerp(minX, maxX, Clamp01(sx)), Lerp(minZ, maxZ, Clamp01(sy)))
    }
  }

  /** State produced by one `Vector3.SmoothDamp` step: the next position and
      the updated velocity. */
  datatype Motion = Motion(pos: Point, vel: Point)

  /** `Vector3.SmoothDamp(current, target, ref velocity, smoothTime)` with the
      smoothing time and the frame's delta time fixed: an uninterpreted
      integrator supplied by the caller. */
  type Smoother = (Point, Point, Point) -> Motion
}
