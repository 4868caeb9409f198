/** Q8.24 signed fixed-point numbers stored in an `i32`: 8 integer bits and
    24 fractional bits, so the raw value `r` stands for `r / 2^24`. */
module Q8p24 {
  import opened Ints

  /** `1 << 24`: the raw value of 1.0. */
  const FIXED_POINT: Int32 := 0x100_0000

  datatype Q8p24 = Q8p24(raw: Int32)

  const MAX: Q8p24 := Q8p24(INT32_MAX)
  const MIN: Q8p24 := Q8p24(INT32_MIN)
  const ZERO: Q8p24 := Q8p24(0)
  const ONE: Q8p24 := Q8p24(FIXED_POINT)

  /** The value without its fractional bits: `raw & !(FIXED_POINT - 1)`.
      It is the largest multiple of 2^24 not above `q`, i.e. the floor. */
  function Trunc(q: Q8p24): (r: Q8p24)
    ensures r.raw % FIXED_POINT == 0
    ensures r.raw <= q.raw < r.raw + FIXED_POINT
  {
    TruncBits(q.raw);
    Q8p24(BitAnd(q.raw, BitNot(FIXED_POINT - 1)))
  }

  /** Only the fractional bits: `raw & (FIXED_POINT - 1)`. */
  function Fract(q: Q8p24): (r: Q8p24)
    ensures 0 <= r.raw < FIXED_POINT
    ensures Trunc(q).raw + r.raw == q.raw
  {
    FractBits(q.raw);
    TruncBits(q.raw);
    assert q.raw == q.raw / FIXED_POINT * FIXED_POINT + q.raw % FIXED_POINT;
    Q8p24(BitAnd(q.raw, FIXED_POINT - 1))
  }

  /** `saturating_add` on the raw values: the exact sum, or the bound it
      passed. */
  function Add(a: Q8p24, b: Q8p24): (r: Q8p24)
    ensures InInt32(a.raw + b.raw) ==> r.raw == a.raw + b.raw
    ensures a.raw + b.raw > INT32_MAX ==> r == MAX
    ensures a.raw + b.raw < INT32_MIN ==> r == MIN
  {
    Q8p24(Saturate32(a.raw + b.raw))
  }

  /** `saturating_sub` on the raw values: the exact difference, or the bound
      it passed. */
  function Sub(a: Q8p24, b: Q8p24): (r: Q8p24)
    ensures InInt32(a.raw - b.raw) ==> r.raw == a.raw - b.raw
    ensures a.raw - b.raw > INT32_MAX ==> r == MAX
    ensures a.raw - b.raw < INT32_MIN ==> r == MIN
  {
    Q8p24(Saturate32(a.raw - b.raw))
  }

  /** `saturating_mul` on `i64`, which never saturates for two `i32` factors. */
  function SaturatingMul64(a: Int32, b: Int32): (r: int)
    ensures r == a * b
  {
    ProductBound(a, b);
    var p := a * b;
    if p < -0x8000_0000_0000_0000 then -0x8000_0000_0000_0000
    else if p > 0x7FFF_FFFF_FFFF_FFFF then 0x7FFF_FFFF_FFFF_FFFF
    else p
  }

  lemma ProductBound(a: Int32, b: Int32)
    ensures -0x4000_0000_0000_0000 <= a * b <= 0x4000_0000_0000_0000
  {
    var x: int, y: int := a, b;
    var m := 0x8000_0000;
    assert Abs(x * y) == Abs(x) * Abs(y) by {
      if x < 0 && y < 0 { assert x * y == (-x) * (-y); }
      else if x < 0 { assert x * y == -((-x) * y); }
      else if y < 0 { assert x * y == -(x * (-y)); }
    }
    MulMono(Abs(x), m, Abs(y), m);
  }

  lemma MulMono(x: nat, x': nat, y: nat, y': nat)
    requires x <= x' && y <= y'
    ensures x * y <= x' * y'
  {
    assert x * y <= x' * y;
    assert x' * y <= x' * y';
  }

  /** The product: the 64-bit product shifted right by 24 (an arithmetic
      shift, which rounds toward negative infinity like Dafny's `/` by a
      positive divisor), cut to 32 bits by `as i32`. */
  function Mul(a: Q8p24, b: Q8p24): (r: Q8p24)
    ensures Abs(a.raw * b.raw) < 0x80_0000_0000_0000 ==>
      r.raw * FIXED_POINT <= a.raw * b.raw < (r.raw + 1) * FIXED_POINT
  {
    var p := SaturatingMul64(a.raw, b.raw);
    var s := p / FIXED_POINT;
    assert Abs(p) < 0x80_0000_0000_0000 ==> InInt32(s);
    Q8p24(AsInt32(s))
  }

  /** The quotient: `(a << 24) / b` in 64 bits, rounded toward zero, cut to
      32 bits by `as i32`. Dividing by zero panics in the source. */
  function Div(a: Q8p24, b: Q8p24): (r: Q8p24)
    requires b.raw != 0
    ensures Abs(a.raw) < 0x80 * Abs(b.raw) ==>
      Abs(r.raw) * Abs(b.raw) <= Abs(a.raw) * FIXED_POINT < (Abs(r.raw) + 1) * Abs(b.raw)
    ensures Abs(a.raw) < 0x80 * Abs(b.raw) && r.raw != 0 ==> (r.raw < 0 <==> (a.raw < 0) != (b.raw < 0))
  {
    DivFits(a.raw, b.raw);
    TruncDivBounds(a.raw * FIXED_POINT, b.raw);
    Q8p24(AsInt32(TruncDiv(a.raw * FIXED_POINT, b.raw)))
  }

  lemma DivFits(a: Int32, b: Int32)
    requires b != 0
    ensures Abs(a * FIXED_POINT) == Abs(a) * FIXED_POINT
    ensures Abs(a) < 0x80 * Abs(b) ==> InInt32(TruncDiv(a * FIXED_POINT, b))
  {
    var x: int := a;
    assert Abs(x * FIXED_POINT) == Abs(x) * FIXED_POINT;
    if Abs(a) < 0x80 * Abs(b) {
      var q := TruncDiv(a * FIXED_POINT, b);
      TruncDivBounds(a * FIXED_POINT, b);
      assert Abs(a) * FIXED_POINT < 0x8000_0000 * Abs(b);
      if Abs(q) >= 0x8000_0000 {
        MulMono(0x8000_0000, Abs(q), Abs(b), Abs(b));
      }
    }
  }

  /** `From<i8>`: `(f as i32) << 24`. */
  function FromInt8(f: Int8): (r: Q8p24)
    ensures r.raw == f * FIXED_POINT
    ensures r.raw % FIXED_POINT == 0
  {
    Q8p24(AsInt32(f * FIXED_POINT))
  }

  /** `From<Q8p24> for i8`: `(raw >> 24) as i8`; the shift already lands in
      the `i8` range, so the cast loses nothing and the result is the floor. */
  function ToInt8(q: Q8p24): (r: Int8)
    ensures r * FIXED_POINT <= q.raw < (r + 1) * FIXED_POINT
  {
    var s := q.raw / FIXED_POINT;
    assert -0x80 <= s < 0x80;
    AsInt8(s)
  }

  // ---- properties ----

  /** Trunc and Fract are projections, and each removes what the other keeps. */
  lemma TruncFract(q: Q8p24)
    ensures Trunc(Trunc(q)) == Trunc(q) && Fract(Fract(q)) == Fract(q)
    ensures Trunc(Fract(q)) == ZERO && Fract(Trunc(q)) == ZERO
  {
    var t := Trunc(q);
    MultiplesClose(Trunc(t).raw, t.raw);
    var f := Fract(q);
    MultiplesClose(Trunc(f).raw, 0);
  }

  /** Two multiples of 2^24 less than 2^24 apart are equal. */
  lemma MultiplesClose(m1: int, m2: int)
    requires m1 % FIXED_POINT == 0 && m2 % FIXED_POINT == 0
    requires m2 - FIXED_POINT < m1 < m2 + FIXED_POINT
    ensures m1 == m2
  {
    var k1, k2 := m1 / FIXED_POINT, m2 / FIXED_POINT;
    assert m1 - m2 == (k1 - k2) * FIXED_POINT;
  }

  /** The only multiple of 2^24 in `[k * 2^24, (k + 1) * 2^24)` is `k * 2^24`. */
  lemma FloorOfMultiple(k: int, m: int)
    requires m % FIXED_POINT == 0
    requires k * FIXED_POINT <= m < (k + 1) * FIXED_POINT
    ensures m == k * FIXED_POINT
  {
    MultiplesClose(m, k * FIXED_POINT);
  }

  /** Converting an `i8` to Q8.24 and back gives it back; going the other
      way drops the fraction. */
  lemma Int8RoundTrip(f: Int8, q: Q8p24)
    ensures ToInt8(FromInt8(f)) == f
    ensures FromInt8(ToInt8(q)) == Trunc(q)
  {
    FloorOfMultiple(ToInt8(q), Trunc(q).raw);
  }

  /** 1.0 is the unit of multiplication and division, and a nonzero value
      divided by itself is 1.0. */
  lemma MulDivOne(a: Q8p24)
    ensures Mul(a, ONE) == a
    ensures Div(a, ONE) == a
    ensures a.raw != 0 ==> Div(a, a) == ONE
  {
    var x: int := a.raw;
    DivModUnique(x * FIXED_POINT, FIXED_POINT, x, 0);
    DivFits(a.raw, FIXED_POINT);
    DivModUnique(Abs(x) * FIXED_POINT, FIXED_POINT, Abs(x), 0);
    if x != 0 {
      DivModUnique(Abs(x) * FIXED_POINT, Abs(x), FIXED_POINT, 0);
    }
  }

  /** Subtracting what was added gives back the start when neither step
      saturates. */
  lemma SubAdd(a: Q8p24, b: Q8p24)
    requires InInt32(a.raw + b.raw)
    ensures Sub(Add(a, b), b) == a
  {
  }

  // ---- the bit masks behind Trunc and Fract ----

  lemma TruncBits(v: Int32)
    ensures BitAnd(v, BitNot(FIXED_POINT - 1)) == v / FIXED_POINT * FIXED_POINT
  {
    var u := AsUInt32(v);
    assert BitNot(FIXED_POINT - 1) == -0x100_0000;
    assert AsUInt32(-0x100_0000) == 0xFF00_0000;
    assert BitAnd(v, BitNot(FIXED_POINT - 1)) == AsInt32(AndBits(u, 0xFF00_0000, 32));
    HighMask(u);
    if v < 0 {
      DivModUnique(v, 0x1_0000_0000, -1, v + 0x1_0000_0000);
      HighOfNegative(v, u);
    } else {
      assert u == v;
    }
  }

  /** Masking with `!(FIXED_POINT - 1)` clears the 24 low bits. */
  lemma HighMask(u: UInt32)
    ensures AndBits(u, 0xFF00_0000, 32) == u / FIXED_POINT * FIXED_POINT
  {
    Pow2Values();
    AndSplit(u, 0xFF00_0000, 0xFF_FFFF, 32, 0x1_0000_0000);
    AndLowMask(u, 0xFF_FFFF, 24, 32, 0x100_0000);
    DivModUnique(u, 0x1_0000_0000, 0, u);
    assert u == u / FIXED_POINT * FIXED_POINT + u % FIXED_POINT;
  }

  lemma HighOfNegative(v: int, u: int)
    requires INT32_MIN <= v < 0 && u == v + 0x1_0000_0000
    ensures AsInt32(u / FIXED_POINT * FIXED_POINT) == v / FIXED_POINT * FIXED_POINT
  {
    assert u / FIXED_POINT == v / FIXED_POINT + 0x100;
    assert u / FIXED_POINT * FIXED_POINT == v / FIXED_POINT * FIXED_POINT + 0x1_0000_0000;
  }

  lemma FractBits(v: Int32)
    ensures BitAnd(v, FIXED_POINT - 1) == v % FIXED_POINT
  {
    Pow2Values();
    var u := AsUInt32(v);
    assert BitAnd(v, FIXED_POINT - 1) == AsInt32(AndBits(u, 0xFF_FFFF, 32));
    AndLowMask(u, 0xFF_FFFF, 24, 32, 0x100_0000);
    if v < 0 {
      DivModUnique(v, 0x1_0000_0000, -1, v + 0x1_0000_0000);
      DivModUnique(u, FIXED_POINT, v / FIXED_POINT + 0x100, v % FIXED_POINT);
    }
  }
}
