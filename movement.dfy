/** Sub-pixel movement: a velocity in Q8.24 and the fraction of a pixel
    carried over between steps. Each step moves a rectangle by the whole
    part of `remainder + velocity` and keeps the fractional part. */
module Movement {
  import opened Ints
  import opened Morton
  import opened Rect
  import Q = Q8p24
  import opened Vector

  // ---- one axis of a step ----

  /** The whole pixels one axis moves: the sum `remainder + velocity`
      rounded down to a whole number, as `i8`. */
  function AxisShift(v: Q.Q8p24, r: Q.Q8p24): (d: Int8)
    ensures d * Q.FIXED_POINT <= Q.Add(r, v).raw < (d + 1) * Q.FIXED_POINT
  {
    Q.ToInt8(Q.Add(r, v))
  }

  /** What an axis carries to the next step: the part of the sum below one
      pixel, or nothing when the axis has no velocity. */
  function AxisRemainder(v: Q.Q8p24, r: Q.Q8p24): (c: Q.Q8p24)
    ensures 0 <= c.raw < Q.FIXED_POINT
    ensures v != Q.ZERO ==> AxisShift(v, r) * Q.FIXED_POINT + c.raw == Q.Add(r, v).raw
    ensures v == Q.ZERO ==> c == Q.ZERO
  {
    var s := Q.Add(r, v);
    assert s.raw == s.raw / Q.FIXED_POINT * Q.FIXED_POINT + s.raw % Q.FIXED_POINT;
    if v == Q.ZERO then Q.ZERO else Q.Q8p24(s.raw % Q.FIXED_POINT)
  }

  /** The masks `trunc` and `fract` split a value into the whole pixels
      `ToInt8` reads and the fraction below them. */
  lemma SplitParts(s: Q.Q8p24)
    ensures Q.ToInt8(Q.Trunc(s)) == Q.ToInt8(s)
    ensures Q.Fract(s).raw == s.raw % Q.FIXED_POINT
  {
    var t := Q.Trunc(s);
    Q.FloorOfMultiple(Q.ToInt8(t), t.raw);
    FloorUnique(Q.ToInt8(t), Q.ToInt8(s), s.raw);
    DivModUnique(s.raw, Q.FIXED_POINT, t.raw / Q.FIXED_POINT, Q.Fract(s).raw);
  }

  /** The source's steps (sum, `trunc`, `fract`, then the reset of a still
      axis) give the shift and remainder defined above. */
  lemma StepParts(vector: Vector, remainder: Vector)
    ensures (Q.ToInt8(Trunc(Add(remainder, vector)).x), Q.ToInt8(Trunc(Add(remainder, vector)).y))
      == Shift(vector, remainder)
    ensures vector.x != Q.ZERO ==> Fract(Add(remainder, vector)).x == NextRemainder(vector, remainder).x
    ensures vector.y != Q.ZERO ==> Fract(Add(remainder, vector)).y == NextRemainder(vector, remainder).y
    ensures vector.x == Q.ZERO ==> NextRemainder(vector, remainder).x == Q.ZERO
    ensures vector.y == Q.ZERO ==> NextRemainder(vector, remainder).y == Q.ZERO
  {
    var sum := Add(remainder, vector);
    assert sum == Vector(Q.Add(remainder.x, vector.x), Q.Add(remainder.y, vector.y));
    SplitParts(sum.x);
    SplitParts(sum.y);
  }

  /** A value lies between consecutive multiples of 2^24 for one number only. */
  lemma FloorUnique(a: int, b: int, x: int)
    requires a * Q.FIXED_POINT <= x < (a + 1) * Q.FIXED_POINT
    requires b * Q.FIXED_POINT <= x < (b + 1) * Q.FIXED_POINT
    ensures a == b
  {
  }

  /** The whole pixels a step moves on each axis. */
  function Shift(vector: Vector, remainder: Vector): (Int8, Int8) {
    (AxisShift(vector.x, remainder.x), AxisShift(vector.y, remainder.y))
  }

  function NextRemainder(vector: Vector, remainder: Vector): Vector {
    Vector(AxisRemainder(vector.x, remainder.x), AxisRemainder(vector.y, remainder.y))
  }

  /** Moving both corners stays inside `i16`. */
  predicate CanMove(pos: Rectangle, d: (Int8, Int8)) {
    InInt16(pos.min.x + d.0) && InInt16(pos.max.x + d.0)
    && InInt16(pos.min.y + d.1) && InInt16(pos.max.y + d.1)
  }

  /** The rectangle translated by `d`: both corners move, so the size stays. */
  function Moved(pos: Rectangle, d: (Int8, Int8)): (r: Rectangle)
    requires CanMove(pos, d)
    ensures r.max.x - r.min.x == pos.max.x - pos.min.x
    ensures r.max.y - r.min.y == pos.max.y - pos.min.y
    ensures r.min.x - pos.min.x == d.0 && r.min.y - pos.min.y == d.1
  {
    Rectangle(Point(pos.min.x + d.0, pos.min.y + d.1), Point(pos.max.x + d.0, pos.max.y + d.1))
  }

  class Movement {
    var vector: Vector
    var remainder: Vector

    /** The carried remainder is a fraction of a pixel on both axes. The
        remainder is private, so only `new` and `next` set it. */
    ghost predicate Valid()
      reads this
    {
      0 <= remainder.x.raw < Q.FIXED_POINT && 0 <= remainder.y.raw < Q.FIXED_POINT
    }

    /** `Movement::new` for whole-pixel velocities. */
    constructor(x: Int8, y: Int8)
      ensures vector == FromInt8Pair(x, y)
      ensures remainder == FromInt8Pair(0, 0) && remainder.x == Q.ZERO && remainder.y == Q.ZERO
      ensures Valid()
    {
      vector := FromInt8Pair(x, y);
      remainder := FromInt8Pair(0, 0);
    }

    /** One step: moves `pos` by the whole part of `remainder + vector` and
        keeps the fraction, dropping it on an axis that does not move. On a
        moving axis whose velocity is below `i32::MAX - 1.0` no motion is
        lost: the pixels moved plus the new remainder are the old remainder
        plus the velocity. */
    method Next(pos: Rectangle) returns (p: Rectangle)
      requires Valid()
      requires CanMove(pos, Shift(vector, remainder))
      modifies this
      ensures vector == old(vector)
      ensures remainder == NextRemainder(old(vector), old(remainder))
      ensures p == Moved(pos, Shift(old(vector), old(remainder)))
      ensures Valid()
      ensures Steady(old(vector).x) ==>
        (p.min.x - pos.min.x) * Q.FIXED_POINT + remainder.x.raw == old(remainder).x.raw + old(vector).x.raw
      ensures Steady(old(vector).y) ==>
        (p.min.y - pos.min.y) * Q.FIXED_POINT + remainder.y.raw == old(remainder).y.raw + old(vector).y.raw
    {
      ghost var d := Shift(vector, remainder);
      ghost var c := NextRemainder(vector, remainder);
      StepParts(vector, remainder);
      StepExact(vector, remainder);
      var sum := Add(remainder, vector);
      var rem := Trunc(sum);
      remainder := Fract(sum);
      if vector.x == Q.ZERO {
        remainder := remainder.(x := Q.ZERO);
      }
      if vector.y == Q.ZERO {
        remainder := remainder.(y := Q.ZERO);
      }
      assert remainder == c;
      var x, y := Q.ToInt8(rem.x), Q.ToInt8(rem.y);
      assert (x, y) == d;
      p := Translate(pos, x, y);
    }
  }

  /** The corner updates at the end of `Movement::next`, each in `i16`. */
  method Translate(pos: Rectangle, x: Int8, y: Int8) returns (p: Rectangle)
    requires CanMove(pos, (x, y))
    ensures p == Moved(pos, (x, y))
  {
    p := pos;
    p := p.(min := p.min.(x := p.min.x + x));
    p := p.(min := p.min.(y := p.min.y + y));
    p := p.(max := p.max.(x := p.max.x + x));
    p := p.(max := p.max.(y := p.max.y + y));
  }

  // ---- properties ----

  /** A step on a moving axis loses nothing: the pixels moved plus the new
      remainder equal the old remainder plus the velocity, as long as the
      sum does not saturate. */
  lemma AxisStepExact(v: Q.Q8p24, r: Q.Q8p24)
    requires v != Q.ZERO && InInt32(r.raw + v.raw)
    ensures AxisShift(v, r) * Q.FIXED_POINT + AxisRemainder(v, r).raw == r.raw + v.raw
  {
  }

  /** A moving velocity that cannot saturate a sum with a remainder in
      `[0, 1)`. */
  predicate Steady(v: Q.Q8p24) {
    v != Q.ZERO && v.raw < INT32_MAX - Q.FIXED_POINT
  }

  /** With fractional remainders, each steady axis of a step is exact. */
  lemma StepExact(vector: Vector, remainder: Vector)
    requires 0 <= remainder.x.raw < Q.FIXED_POINT && 0 <= remainder.y.raw < Q.FIXED_POINT
    ensures Steady(vector.x) ==>
      Shift(vector, remainder).0 * Q.FIXED_POINT + NextRemainder(vector, remainder).x.raw
        == remainder.x.raw + vector.x.raw
    ensures Steady(vector.y) ==>
      Shift(vector, remainder).1 * Q.FIXED_POINT + NextRemainder(vector, remainder).y.raw
        == remainder.y.raw + vector.y.raw
  {
    if Steady(vector.x) {
      AxisStepExact(vector.x, remainder.x);
    }
    if Steady(vector.y) {
      AxisStepExact(vector.y, remainder.y);
    }
  }

  /** Standing still: with no velocity and a fractional remainder an axis
      does not move, and its remainder is cleared. */
  lemma AxisStill(r: Q.Q8p24)
    requires 0 <= r.raw < Q.FIXED_POINT
    ensures AxisShift(Q.ZERO, r) == 0 && AxisRemainder(Q.ZERO, r) == Q.ZERO
  {
    Q.MultiplesClose(Q.Trunc(r).raw, 0);
  }

  /** With no velocity and no remainder a step returns the rectangle as it
      was and keeps the remainder at zero. */
  lemma StandStill(pos: Rectangle)
    ensures Shift(FromInt8Pair(0, 0), FromInt8Pair(0, 0)) == (0, 0)
    ensures NextRemainder(FromInt8Pair(0, 0), FromInt8Pair(0, 0)) == FromInt8Pair(0, 0)
    ensures CanMove(pos, (0, 0)) && Moved(pos, (0, 0)) == pos
  {
    var z := FromInt8Pair(0, 0);
    assert z == Vector(Q.ZERO, Q.ZERO);
    AxisStill(Q.ZERO);
  }

  /** `n` steps on one axis: the pixels moved in total and the remainder
      left at the end. */
  function Travel(v: Q.Q8p24, r: Q.Q8p24, n: nat): (int, Q.Q8p24)
    decreases n
  {
    if n == 0 then (0, r)
    else
      var rest := Travel(v, AxisRemainder(v, r), n - 1);
      (AxisShift(v, r) + rest.0, rest.1)
  }

  /** Over any number of steps a moving axis travels exactly `n` times its
      velocity: whole pixels moved plus the final remainder equal the first
      remainder plus `n * v`, for any velocity below `i32::MAX - 1.0`. */
  lemma TravelExact(v: Q.Q8p24, r: Q.Q8p24, n: nat)
    requires Steady(v)
    requires 0 <= r.raw < Q.FIXED_POINT
    ensures Travel(v, r, n).0 * Q.FIXED_POINT + Travel(v, r, n).1.raw == r.raw + n * v.raw
  {
    TravelSum(v, r, n);
    TimesIsProduct(n, v.raw);
  }

  /** `n * v` as `n` additions, which keeps the induction below linear. */
  function Times(n: nat, v: int): int {
    if n == 0 then 0 else v + Times(n - 1, v)
  }

  lemma {:induction false} TimesIsProduct(n: nat, v: int)
    ensures Times(n, v) == n * v
  {
    if n > 0 {
      TimesIsProduct(n - 1, v);
      assert n * v == (n - 1) * v + v;
    }
  }

  lemma {:induction false} TravelSum(v: Q.Q8p24, r: Q.Q8p24, n: nat)
    requires v != Q.ZERO && v.raw < INT32_MAX - Q.FIXED_POINT
    requires 0 <= r.raw < Q.FIXED_POINT
    ensures Travel(v, r, n).0 * Q.FIXED_POINT + Travel(v, r, n).1.raw == r.raw + Times(n, v.raw)
    decreases n
  {
    if n > 0 {
      var r' := AxisRemainder(v, r);
      AxisStepExact(v, r);
      TravelSum(v, r', n - 1);
      var rest := Travel(v, r', n - 1);
      var t := Travel(v, r, n);
      assert t.0 == AxisShift(v, r) + rest.0 && t.1 == rest.1;
    }
  }
}
