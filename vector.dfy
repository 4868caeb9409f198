/** Two-dimensional vectors of Q8.24 numbers; every operation works on the
    two components independently. */
module Vector {
  import opened Ints
  import Q = Q8p24

  datatype Vector = Vector(x: Q.Q8p24, y: Q.Q8p24)

  function New(x: Q.Q8p24, y: Q.Q8p24): (v: Vector)
    ensures v.x == x && v.y == y
  {
    Vector(x, y)
  }

  /** Each component rounded down to a whole number. */
  function Trunc(v: Vector): (r: Vector)
    ensures r.x.raw % Q.FIXED_POINT == 0 && r.y.raw % Q.FIXED_POINT == 0
    ensures r.x.raw <= v.x.raw < r.x.raw + Q.FIXED_POINT
    ensures r.y.raw <= v.y.raw < r.y.raw + Q.FIXED_POINT
  {
    Vector(Q.Trunc(v.x), Q.Trunc(v.y))
  }

  /** Each component's fractional part, which lies in `[0, 1)`. */
  function Fract(v: Vector): (r: Vector)
    ensures 0 <= r.x.raw < Q.FIXED_POINT && 0 <= r.y.raw < Q.FIXED_POINT
    ensures Trunc(v).x.raw + r.x.raw == v.x.raw
    ensures Trunc(v).y.raw + r.y.raw == v.y.raw
  {
    Vector(Q.Fract(v.x), Q.Fract(v.y))
  }

  /** Componentwise saturating sum. */
  function Add(a: Vector, b: Vector): (r: Vector)
    ensures r.x.raw == Saturate32(a.x.raw + b.x.raw)
    ensures r.y.raw == Saturate32(a.y.raw + b.y.raw)
  {
    Vector(Q.Add(a.x, b.x), Q.Add(a.y, b.y))
  }

  /** Componentwise saturating difference. */
  function Sub(a: Vector, b: Vector): (r: Vector)
    ensures r.x.raw == Saturate32(a.x.raw - b.x.raw)
    ensures r.y.raw == Saturate32(a.y.raw - b.y.raw)
  {
    Vector(Q.Sub(a.x, b.x), Q.Sub(a.y, b.y))
  }

  /** `From<(i8, i8)>`: each whole number shifted into the integer bits. */
  function FromInt8Pair(x: Int8, y: Int8): (v: Vector)
    ensures v.x.raw == x * Q.FIXED_POINT && v.y.raw == y * Q.FIXED_POINT
  {
    New(Q.FromInt8(x), Q.FromInt8(y))
  }

  // ---- properties ----

  /** The whole part plus the fractional part is the vector again, and the
      sum never saturates. */
  lemma TruncPlusFract(v: Vector)
    ensures Add(Trunc(v), Fract(v)) == v
  {
  }

  /** Trunc and Fract are projections that remove what the other keeps. */
  lemma TruncFractVector(v: Vector)
    ensures Trunc(Trunc(v)) == Trunc(v) && Fract(Fract(v)) == Fract(v)
    ensures Trunc(Fract(v)) == FromInt8Pair(0, 0)
    ensures Fract(Trunc(v)) == FromInt8Pair(0, 0)
  {
    Q.TruncFract(v.x);
    Q.TruncFract(v.y);
  }

  /** A vector built from whole numbers converts back to them. */
  lemma Int8PairRoundTrip(x: Int8, y: Int8)
    ensures Q.ToInt8(FromInt8Pair(x, y).x) == x
    ensures Q.ToInt8(FromInt8Pair(x, y).y) == y
    ensures Trunc(FromInt8Pair(x, y)) == FromInt8Pair(x, y)
  {
    Q.Int8RoundTrip(x, Q.ZERO);
    Q.Int8RoundTrip(y, Q.ZERO);
    var v := FromInt8Pair(x, y);
    Q.MultiplesClose(Trunc(v).x.raw, v.x.raw);
    Q.MultiplesClose(Trunc(v).y.raw, v.y.raw);
  }

  /** Subtracting what was added gives back the start when no component
      saturates. */
  lemma SubAddVector(a: Vector, b: Vector)
    requires InInt32(a.x.raw + b.x.raw) && InInt32(a.y.raw + b.y.raw)
    ensures Sub(Add(a, b), b) == a
  {
  }
}
