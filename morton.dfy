/** Points with `i16` coordinates and their Morton (Z-order) keys: each
    coordinate is biased into `[0, 2^16)` and the bits of the two are
    interleaved, `x` on the even bits and `y` on the odd bits. */
module Morton {
  import opened Ints
  import opened Bits

  datatype Point = Point(x: Int16, y: Int16)

  datatype MortonPoint = MortonPoint(key: bv32)

  // The four shift-and-mask stages of `interleave`, and of `deinterleave`
  // in the other direction.
  function Spread8(x: bv32): (r: bv32) ensures r & 0x00FF_00FF == r { (x | (x << 8)) & 0x00FF_00FF }
  function Spread4(x: bv32): (r: bv32) ensures r & 0x0F0F_0F0F == r { (x | (x << 4)) & 0x0F0F_0F0F }
  function Spread2(x: bv32): (r: bv32) ensures r & 0x3333_3333 == r { (x | (x << 2)) & 0x3333_3333 }
  function Spread1(x: bv32): (r: bv32) ensures r & 0x5555_5555 == r { (x | (x << 1)) & 0x5555_5555 }
  function Gather1(x: bv32): (r: bv32) ensures r & 0x3333_3333 == r { (x | (x >> 1)) & 0x3333_3333 }
  function Gather2(x: bv32): (r: bv32) ensures r & 0x0F0F_0F0F == r { (x | (x >> 2)) & 0x0F0F_0F0F }
  function Gather4(x: bv32): (r: bv32) ensures r & 0x00FF_00FF == r { (x | (x >> 4)) & 0x00FF_00FF }
  function Gather8(x: bv32): (r: bv32) ensures r < 0x1_0000 { (x | (x >> 8)) & 0x0000_FFFF }

  /** Spreads the low 16 bits of `x` onto the even bit positions. */
  function Interleave(x: bv32): (r: bv32)
    ensures r & 0x5555_5555 == r
  {
    Spread1(Spread2(Spread4(Spread8(x))))
  }

  /** Gathers the even bits of `x` into the low 16 bits. */
  function Deinterleave(x: bv32): (r: bv32)
    ensures r < 0x1_0000
  {
    Compact(x & 0x5555_5555)
  }

  /** The gathering stages of `deinterleave`, after its first mask. */
  function Compact(x: bv32): (r: bv32)
    ensures r < 0x1_0000
  {
    Gather8(Gather4(Gather2(Gather1(x))))
  }

  /** Bit `2 i` of `Interleave(x)` is bit `i` of `x`, and the odd bits are clear. */
  lemma InterleaveBits(x: bv32, i: bv32)
    requires x < 0x1_0000 && i < 16
    ensures (Interleave(x) >> (2 * i)) & 1 == (x >> i) & 1
    ensures (Interleave(x) >> (2 * i + 1)) & 1 == 0
  {}

  // Each gathering stage undoes the spreading stage of the same width, on
  // what the earlier stages produce, and the other way round.
  lemma Stage8(x: bv32) requires x < 0x1_0000 ensures Gather8(Spread8(x)) == x {}
  lemma Stage4(x: bv32) ensures Gather4(Spread4(Spread8(x))) == Spread8(x) {}
  lemma Stage2(x: bv32) ensures Gather2(Spread2(Spread4(x))) == Spread4(x) {}
  lemma Stage1(x: bv32) ensures Gather1(Spread1(Spread2(x))) == Spread2(x) {}
  lemma Unstage8(x: bv32) ensures Spread8(Gather8(Gather4(x))) == Gather4(x) {}
  lemma Unstage4(x: bv32) ensures Spread4(Gather4(Gather2(x))) == Gather2(x) {}
  lemma Unstage2(x: bv32) ensures Spread2(Gather2(Gather1(x))) == Gather1(x) {}
  lemma Unstage1(x: bv32) ensures Spread1(Gather1(x & 0x5555_5555)) == x & 0x5555_5555 {}

  /** Gathering undoes spreading on 16-bit values. */
  lemma Gathered(x: bv32)
    requires x < 0x1_0000
    ensures Compact(Interleave(x)) == x
  {
    Stage1(Spread4(Spread8(x)));
    Stage2(Spread8(x));
    Stage4(x);
    Stage8(x);
  }

  /** Spreading undoes gathering on the even bits. */
  lemma Spread(m: bv32)
    ensures Interleave(Deinterleave(m)) == m & 0x5555_5555
  {
    var a := Gather1(m & 0x5555_5555);
    Unstage8(Gather2(a));
    Unstage4(a);
    Unstage2(m & 0x5555_5555);
    Unstage1(m);
  }

  /** The even bits of a key are `x`'s spread bits, the odd ones `y`'s. */
  lemma Split(x: bv32, y: bv32)
    ensures (Interleave(x) | (Interleave(y) << 1)) & 0x5555_5555 == Interleave(x)
    ensures ((Interleave(x) | (Interleave(y) << 1)) >> 1) & 0x5555_5555 == Interleave(y)
  {}

  lemma EvenHalf(x: bv32, y: bv32)
    requires x < 0x1_0000
    ensures Deinterleave(Interleave(x) | (Interleave(y) << 1)) == x
  {
    Split(x, y);
    Gathered(x);
  }

  lemma OddHalf(x: bv32, y: bv32)
    requires y < 0x1_0000
    ensures Deinterleave((Interleave(x) | (Interleave(y) << 1)) >> 1) == y
  {
    Split(x, y);
    Gathered(y);
  }

  /** Both coordinates come back out of an interleaved pair. */
  lemma DeinterleaveInterleave(x: bv32, y: bv32)
    requires x < 0x1_0000 && y < 0x1_0000
    ensures Deinterleave(Interleave(x) | (Interleave(y) << 1)) == x
    ensures Deinterleave((Interleave(x) | (Interleave(y) << 1)) >> 1) == y
  {
    EvenHalf(x, y);
    OddHalf(x, y);
  }

  /** A key is the even bits and the odd bits put back together. */
  lemma Merge(m: bv32)
    ensures (m & 0x5555_5555) | (((m >> 1) & 0x5555_5555) << 1) == m
  {}

  /** Every key is the interleaving of its two halves. */
  lemma InterleaveDeinterleave(m: bv32)
    ensures Interleave(Deinterleave(m)) | (Interleave(Deinterleave(m >> 1)) << 1) == m
  {
    Spread(m);
    Spread(m >> 1);
    Merge(m);
  }

  /** `(v as u32).wrapping_sub(i16::MIN as u32)`: the offset-binary value. */
  function Bias(v: Int16): (r: UInt32)
    ensures r == v + 0x8000
  {
    AsUInt32(AsUInt32(v) - AsUInt32(INT16_MIN))
  }

  /** `u.wrapping_add(i16::MIN as u32) as i16`: undoes the bias of a
      16-bit value. */
  function Unbias(u: UInt32): (r: Int16)
    ensures u < 0x1_0000 ==> r == u - 0x8000
  {
    AsInt16(AsUInt32(u + AsUInt32(INT16_MIN)))
  }

  /** `From<Point> for MortonPoint`. */
  function Encode(p: Point): MortonPoint {
    var x := ToBits(Bias(p.x));
    var y := ToBits(Bias(p.y));
    MortonPoint(Interleave(x) | (Interleave(y) << 1))
  }

  /** `From<MortonPoint> for Point`. */
  function Decode(m: MortonPoint): Point {
    Point(Unbias(ToNat(Deinterleave(m.key))), Unbias(ToNat(Deinterleave(m.key >> 1))))
  }

  /** Decoding undoes encoding. */
  lemma DecodeEncode(p: Point)
    ensures Decode(Encode(p)) == p
  {
    var x, y := Bias(p.x), Bias(p.y);
    Small(ToBits(x));
    Small(ToBits(y));
    ToNatToBits(x);
    ToNatToBits(y);
    DeinterleaveInterleave(ToBits(x), ToBits(y));
  }

  /** The keys of the centre and corner points. */
  lemma KnownKeys()
    ensures Encode(Point(0, 0)) == MortonPoint(0xC000_0000)
    ensures Encode(Point(INT16_MIN, INT16_MIN)) == MortonPoint(0)
    ensures Encode(Point(INT16_MAX, INT16_MAX)) == MortonPoint(0xFFFF_FFFF)
    ensures Encode(Point(INT16_MAX, INT16_MIN)) == MortonPoint(0x5555_5555)
    ensures Encode(Point(INT16_MIN, INT16_MAX)) == MortonPoint(0xAAAA_AAAA)
  {
    BiasBits();
    assert Interleave(0x8000) == 0x4000_0000;
    assert Interleave(0xFFFF) == 0x5555_5555;
  }

  lemma BiasBits()
    ensures ToBits(Bias(0)) == 0x8000
    ensures ToBits(Bias(INT16_MIN)) == 0
    ensures ToBits(Bias(INT16_MAX)) == 0xFFFF
  {
    HalfBits();
    LowBits();
  }

  lemma HalfBits()
    ensures ToBits(0x8000) == 0x8000 && ToBits(0) == 0
  {
    assert ToNat(0x8000) == 0x8000 && ToNat(0) == 0;
    ToBitsToNat(0x8000);
    ToBitsToNat(0);
  }

  lemma LowBits()
    ensures ToBits(0xFFFF) == 0xFFFF
  {
    assert ToNat(0xFFFF) == 0xFFFF;
    ToBitsToNat(0xFFFF);
  }
}
