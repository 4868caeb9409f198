/** Fixed-width machine integers as the Rust sources use them: the value
    ranges of `i8`, `i16`, `i32` and `u32`, the wrapping `as` casts between
    them, Rust's truncating `/`, saturation, and `&` and `!` on `i32`
    computed bit by bit on the two's complement value. */
module Ints {

  type Int8 = x: int | -0x80 <= x < 0x80
  type Int16 = x: int | -0x8000 <= x < 0x8000
  type Int32 = x: int | -0x8000_0000 <= x < 0x8000_0000
  type UInt32 = x: int | 0 <= x < 0x1_0000_0000

  const INT16_MIN: Int16 := -0x8000
  const INT16_MAX: Int16 := 0x7FFF
  const INT32_MIN: Int32 := -0x8000_0000
  const INT32_MAX: Int32 := 0x7FFF_FFFF

  predicate InInt8(v: int) { -0x80 <= v < 0x80 }
  predicate InInt16(v: int) { -0x8000 <= v < 0x8000 }
  predicate InInt32(v: int) { -0x8000_0000 <= v < 0x8000_0000 }

  function Abs(v: int): nat { if v < 0 then -v else v }

  /** `v as u32`: keeps the low 32 bits of the two's complement value. */
  function AsUInt32(v: int): (r: UInt32)
    ensures (r - v) % 0x1_0000_0000 == 0
    ensures 0 <= v < 0x1_0000_0000 ==> r == v
  {
    v % 0x1_0000_0000
  }

  /** `v as usize` on a 64-bit target: the two's complement value of `v`
      (sign-extended when `v` is negative) read as unsigned. */
  function AsUSize(v: int): (r: nat)
    ensures r < 0x1_0000_0000_0000_0000
    ensures (r - v) % 0x1_0000_0000_0000_0000 == 0
  {
    v % 0x1_0000_0000_0000_0000
  }

  /** `v as i32` (also `wrapping_mul`/`wrapping_add` on `i32`): the unique
      `i32` congruent to `v` modulo 2^32. */
  function AsInt32(v: int): (r: Int32)
    ensures (r - v) % 0x1_0000_0000 == 0
    ensures InInt32(v) ==> r == v
  {
    var u := v % 0x1_0000_0000;
    if u < 0x8000_0000 then u else u - 0x1_0000_0000
  }

  /** `v as i16`: the unique `i16` congruent to `v` modulo 2^16. */
  function AsInt16(v: int): (r: Int16)
    ensures (r - v) % 0x1_0000 == 0
    ensures InInt16(v) ==> r == v
  {
    var u := v % 0x1_0000;
    if u < 0x8000 then u else u - 0x1_0000
  }

  /** `v as i8`: the unique `i8` congruent to `v` modulo 2^8. */
  function AsInt8(v: int): (r: Int8)
    ensures (r - v) % 0x100 == 0
    ensures InInt8(v) ==> r == v
  {
    var u := v % 0x100;
    if u < 0x80 then u else u - 0x100
  }

  /** The result of `saturating_add`/`saturating_sub` on `i32`: the exact
      value when it fits, otherwise the nearest bound. */
  function Saturate32(v: int): (r: Int32)
    ensures InInt32(v) ==> r == v
    ensures v < INT32_MIN ==> r == INT32_MIN
    ensures v > INT32_MAX ==> r == INT32_MAX
  {
    if v < INT32_MIN then INT32_MIN else if v > INT32_MAX then INT32_MAX else v
  }

  /** Rust's integer `/`: the quotient rounded toward zero (Dafny's own `/`
      is Euclidean). Its size is that of the magnitudes' quotient and its
      sign that of the operands' signs; TruncDivBounds bounds it. */
  function TruncDiv(a: int, b: int): (r: int)
    requires b != 0
    ensures Abs(r) == Abs(a) / Abs(b)
    ensures r != 0 ==> (r < 0 <==> (a < 0) != (b < 0))
  {
    var q: int := Quotient(Abs(a), Abs(b));
    if (a < 0) == (b < 0) then q else -q
  }

  /** Division of magnitudes, where Euclidean and truncating agree. */
  function Quotient(n: nat, d: nat): nat
    requires d > 0
  {
    n / d
  }

  /** The quotient rounded toward zero is the largest multiple of the
      divisor that does not pass the dividend in magnitude. */
  lemma TruncDivBounds(a: int, b: int)
    requires b != 0
    ensures Abs(TruncDiv(a, b)) * Abs(b) <= Abs(a) < (Abs(TruncDiv(a, b)) + 1) * Abs(b)
  {
    DivBounds(Abs(a), Abs(b), Abs(TruncDiv(a, b)));
  }

  lemma DivBounds(n: nat, d: nat, q: nat)
    requires d > 0 && q == n / d
    ensures q * d <= n < (q + 1) * d
  {
    assert n == q * d + n % d;
  }

  function Pow2(n: nat): (r: nat)
    ensures r >= 1
  {
    if n == 0 then 1 else 2 * Pow2(n - 1)
  }

  lemma Pow2Values()
    ensures Pow2(8) == 0x100 && Pow2(16) == 0x1_0000
    ensures Pow2(24) == 0x100_0000 && Pow2(32) == 0x1_0000_0000
  {}

  /** The lowest bit of `a & b`. */
  function LowAnd(a: nat, b: nat): nat {
    if a % 2 == 1 && b % 2 == 1 then 1 else 0
  }

  /** The bitwise and of the low `n` bits of `a` and `b`. */
  function AndBits(a: nat, b: nat, n: nat): nat {
    if n == 0 then 0 else LowAnd(a, b) + 2 * AndBits(a / 2, b / 2, n - 1)
  }

  /** Division with remainder has one answer. */
  lemma DivModUnique(a: int, d: int, q: int, r: int)
    requires d > 0 && 0 <= r < d && a == d * q + r
    ensures a / d == q && a % d == r
  {
    var q0, r0 := a / d, a % d;
    assert d * (q - q0) == r0 - r;
    if q > q0 {
      MulAtLeast(d, q - q0);
    } else if q < q0 {
      MulAtLeast(d, q0 - q);
    }
  }

  lemma MulAtLeast(d: nat, k: nat)
    requires k >= 1
    ensures d * k >= d
  {}

  /** The low bits of `a` below `q = 2 * p` are its lowest bit and the low bits of `a / 2` below `p`. */
  lemma ModStep(a: nat, p: nat, q: nat)
    requires p > 0 && q == 2 * p
    ensures a % q == a % 2 + 2 * ((a / 2) % p)
  {
    var k, r := (a / 2) / p, (a / 2) % p;
    assert a / 2 == p * k + r;
    assert a == q * k + (2 * r + a % 2);
    DivModUnique(a, q, k, 2 * r + a % 2);
  }

  lemma {:induction false} AndZero(a: nat, m: nat, n: nat)
    requires m == 0
    ensures AndBits(a, m, n) == 0
  {
    if n > 0 {
      AndZero(a / 2, m / 2, n - 1);
    }
  }

  /** Masking with `k` one bits, `m = 2^k - 1`, keeps `a` modulo `q = 2^k`. */
  lemma {:induction false} AndLowMask(a: nat, m: nat, k: nat, n: nat, q: nat)
    requires q == Pow2(k) && m + 1 == q && k <= n
    ensures AndBits(a, m, n) == a % q
  {
    if k == 0 {
      AndZero(a, m, n);
      assert q == 1;
      assert a % 1 == 0;
    } else {
      var p := Pow2(k - 1);
      assert q == 2 * p;
      DivModUnique(m, 2, p - 1, 1);
      AndLowMask(a / 2, m / 2, k - 1, n - 1, p);
      AndLowMaskStep(a, m, k, n, p, q);
    }
  }

  /** The step of `AndLowMask`: the lowest bit is kept, and the rest is masked with one bit fewer. */
  lemma AndLowMaskStep(a: nat, m: nat, k: nat, n: nat, p: nat, q: nat)
    requires 0 < k <= n && p > 0 && q == 2 * p && m + 1 == q
    requires AndBits(a / 2, m / 2, n - 1) == (a / 2) % p
    ensures AndBits(a, m, n) == a % q
  {
    DivModUnique(m, 2, p - 1, 1);
    ModStep(a, p, q);
    assert LowAnd(a, m) == a % 2;
    assert AndBits(a, m, n) == LowAnd(a, m) + 2 * AndBits(a / 2, m / 2, n - 1);
  }

  /** Two numbers with an odd sum: exactly one of them is odd. */
  lemma OddSum(m: nat, c: nat, p: nat)
    requires m + c + 1 == 2 * p
    ensures m % 2 + c % 2 == 1
    ensures m / 2 + c / 2 + 1 == p
  {
    var q, r := m / 2, c / 2;
    assert m == 2 * q + m % 2 && c == 2 * r + c % 2;
  }

  /** Masks `m` and `c` that together cover the low `n` bits without
      overlap, `m + c + 1 = q = 2^n`, split `a`'s low bits between them. */
  lemma {:induction false} AndSplit(a: nat, m: nat, c: nat, n: nat, q: nat)
    requires q == Pow2(n) && m + c + 1 == q
    ensures AndBits(a, m, n) + AndBits(a, c, n) == a % q
  {
    if n == 0 {
      assert q == 1;
      assert a % 1 == 0;
    } else {
      var p := Pow2(n - 1);
      assert q == 2 * p;
      OddSum(m, c, p);
      AndSplit(a / 2, m / 2, c / 2, n - 1, p);
      AndSplitStep(a, m, c, n, p, q);
    }
  }

  /** The step of `AndSplit`: the lowest bit, and the split of the rest. */
  lemma AndSplitStep(a: nat, m: nat, c: nat, n: nat, p: nat, q: nat)
    requires n > 0 && p > 0 && q == 2 * p && m + c + 1 == q
    requires AndBits(a / 2, m / 2, n - 1) + AndBits(a / 2, c / 2, n - 1) == (a / 2) % p
    ensures AndBits(a, m, n) + AndBits(a, c, n) == a % q
  {
    ModStep(a, p, q);
    OddSum(m, c, p);
    assert LowAnd(a, m) + LowAnd(a, c) == a % 2;
    assert AndBits(a, m, n) == LowAnd(a, m) + 2 * AndBits(a / 2, m / 2, n - 1);
    assert AndBits(a, c, n) == LowAnd(a, c) + 2 * AndBits(a / 2, c / 2, n - 1);
  }

  /** `a & b` on `i32`. */
  function BitAnd(a: Int32, b: Int32): Int32 {
    Pow2Values();
    AsInt32(AndBits(AsUInt32(a), AsUInt32(b), 32))
  }

  /** `!a` on `i32`: every one of the 32 bits flipped, which is `-a - 1`. */
  function BitNot(a: Int32): (r: Int32)
    ensures r == -(a as int) - 1
  {
    AsInt32(0xFFFF_FFFF - AsUInt32(a))
  }
}
