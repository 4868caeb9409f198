/** The `u32` bit pattern of an unsigned integer and back.

    The verifier handles `bv32` values and `int` values well, but converting
    between the two with `as` directly is beyond its budget; the conversion
    here goes byte by byte, a byte's pattern being counted up from zero, and
    the round trips are proved once. */
module Bits {
  import opened Ints

  /** Byte `k` (0 = least significant) of a 32-bit pattern. */
  function ByteAt(b: bv32, k: nat): bv8
    requires k < 4
  {
    if k == 0 then (b & 0xFF) as bv8
    else if k == 1 then ((b >> 8) & 0xFF) as bv8
    else if k == 2 then ((b >> 16) & 0xFF) as bv8
    else (b >> 24) as bv8
  }

  /** The 32-bit pattern with bytes `c0` (least significant) to `c3`. */
  function Assemble(c0: bv8, c1: bv8, c2: bv8, c3: bv8): bv32 {
    (c0 as bv32) | ((c1 as bv32) << 8) | ((c2 as bv32) << 16) | ((c3 as bv32) << 24)
  }

  /** The unsigned value of a 32-bit pattern. */
  function ToNat(b: bv32): (r: UInt32) {
    ByteAt(b, 0) as int + 0x100 * ByteAt(b, 1) as int
    + 0x1_0000 * ByteAt(b, 2) as int + 0x100_0000 * ByteAt(b, 3) as int
  }

  /** The 8-bit pattern of a value below 2^8. */
  function ByteOf(v: nat): bv8
    requires v < 0x100
  {
    if v == 0 then 0 else ByteOf(v - 1) + 1
  }

  /** The 32-bit pattern of an unsigned value. */
  function ToBits(u: UInt32): bv32 {
    Digits(u);
    Assemble(ByteOf(u % 0x100), ByteOf(u / 0x100 % 0x100),
             ByteOf(u / 0x1_0000 % 0x100), ByteOf(u / 0x100_0000))
  }

  lemma AssembleBytes(c0: bv8, c1: bv8, c2: bv8, c3: bv8)
    ensures var b := Assemble(c0, c1, c2, c3);
      ByteAt(b, 0) == c0 && ByteAt(b, 1) == c1 && ByteAt(b, 2) == c2 && ByteAt(b, 3) == c3
  {}

  lemma BytesAssemble(b: bv32)
    ensures Assemble(ByteAt(b, 0), ByteAt(b, 1), ByteAt(b, 2), ByteAt(b, 3)) == b
  {}

  lemma Increment(c: bv8)
    requires c != 0xFF
    ensures (c + 1) as int == c as int + 1
  {}

  lemma {:induction false} ByteValue(v: nat)
    requires v < 0x100
    ensures ByteOf(v) as int == v
  {
    if v > 0 {
      ByteValue(v - 1);
      Increment(ByteOf(v - 1));
    }
  }

  lemma {:induction false} ValueByte(c: bv8)
    ensures ByteOf(c as int) == c
    decreases c as int
  {
    if c != 0 {
      Increment(c - 1);
      ValueByte(c - 1);
    }
  }

  /** The base-256 digits of `u`. */
  lemma Digits(u: UInt32)
    ensures u == u % 0x100 + 0x100 * (u / 0x100 % 0x100)
                 + 0x1_0000 * (u / 0x1_0000 % 0x100) + 0x100_0000 * (u / 0x100_0000)
    ensures u / 0x100_0000 < 0x100
  {
    var a := u / 0x100;
    var b := a / 0x100;
    var c := b / 0x100;
    assert u == 0x100 * a + u % 0x100;
    assert a == 0x100 * b + a % 0x100;
    assert b == 0x100 * c + b % 0x100;
    DivModUnique(u, 0x1_0000, b, u % 0x100 + 0x100 * (a % 0x100));
    DivModUnique(u, 0x100_0000, c, u % 0x100 + 0x100 * (a % 0x100) + 0x1_0000 * (b % 0x100));
  }

  /** Reading back the pattern of `u` gives `u`. */
  lemma ToNatToBits(u: UInt32)
    ensures ToNat(ToBits(u)) == u
  {
    Digits(u);
    AssembleBytes(ByteOf(u % 0x100), ByteOf(u / 0x100 % 0x100),
                  ByteOf(u / 0x1_0000 % 0x100), ByteOf(u / 0x100_0000));
    ByteValue(u % 0x100);
    ByteValue(u / 0x100 % 0x100);
    ByteValue(u / 0x1_0000 % 0x100);
    ByteValue(u / 0x100_0000);
  }

  /** A number written with four base-256 digits has those digits. */
  lemma DigitsOf(c0: nat, c1: nat, c2: nat, c3: nat, n: nat)
    requires c0 < 0x100 && c1 < 0x100 && c2 < 0x100 && c3 < 0x100
    requires n == c0 + 0x100 * c1 + 0x1_0000 * c2 + 0x100_0000 * c3
    ensures n % 0x100 == c0 && n / 0x100 % 0x100 == c1
    ensures n / 0x1_0000 % 0x100 == c2 && n / 0x100_0000 == c3
  {
    DivModUnique(n, 0x100, c1 + 0x100 * c2 + 0x1_0000 * c3, c0);
    DivModUnique(n / 0x100, 0x100, c2 + 0x100 * c3, c1);
    DivModUnique(n / 0x100 / 0x100, 0x100, c3, c2);
    assert n / 0x1_0000 == n / 0x100 / 0x100;
    assert n / 0x100_0000 == n / 0x1_0000 / 0x100;
  }

  /** The digits of `ToNat(b)` are the bytes of `b`. */
  lemma ToNatDigits(b: bv32)
    ensures ToNat(b) % 0x100 == ByteAt(b, 0) as int
    ensures ToNat(b) / 0x100 % 0x100 == ByteAt(b, 1) as int
    ensures ToNat(b) / 0x1_0000 % 0x100 == ByteAt(b, 2) as int
    ensures ToNat(b) / 0x100_0000 == ByteAt(b, 3) as int
  {
    DigitsOf(ByteAt(b, 0) as int, ByteAt(b, 1) as int, ByteAt(b, 2) as int, ByteAt(b, 3) as int, ToNat(b));
  }

  /** Writing out the value of `b` gives `b`. */
  lemma ToBitsToNat(b: bv32)
    ensures ToBits(ToNat(b)) == b
  {
    ToNatDigits(b);
    ValueByte(ByteAt(b, 0));
    ValueByte(ByteAt(b, 1));
    ValueByte(ByteAt(b, 2));
    ValueByte(ByteAt(b, 3));
    BytesAssemble(b);
  }

  /** A pattern is below 2^16 when its two high bytes are zero. */
  lemma SmallBytes(b: bv32)
    ensures b < 0x1_0000 <==> ByteAt(b, 2) == 0 && ByteAt(b, 3) == 0
  {}

  /** A number written with four base-256 digits is below 2^16 exactly
      when its two high digits are zero. */
  lemma SmallDigits(c0: int, c1: int, c2: int, c3: int)
    requires 0 <= c0 < 0x100 && 0 <= c1 < 0x100 && 0 <= c2 < 0x100 && 0 <= c3 < 0x100
    ensures c0 + 0x100 * c1 + 0x1_0000 * c2 + 0x100_0000 * c3 < 0x1_0000 <==> c2 == 0 && c3 == 0
  {}

  /** Patterns below 2^16 are exactly the values below 2^16. */
  lemma Small(b: bv32)
    ensures b < 0x1_0000 <==> ToNat(b) < 0x1_0000
  {
    SmallBytes(b);
    SmallDigits(ByteAt(b, 0) as int, ByteAt(b, 1) as int, ByteAt(b, 2) as int, ByteAt(b, 3) as int);
    ValueByte(ByteAt(b, 2));
    ValueByte(ByteAt(b, 3));
  }
}
