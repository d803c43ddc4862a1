/** The fixed-point library of src/fixed/fixed.c: signed and unsigned 16.16
    values in 32-bit containers and 32.32 values in 64-bit containers. A value
    is its raw scaled integer; it stands for raw / 2^16 (32-bit formats) or
    raw / 2^32 (64-bit formats). Every C operation that can overflow wraps
    modulo the container size, and a right shift of a signed value is floor
    division (an arithmetic shift). */
module Fixed {
  import opened IntOps

  datatype Fixed32 = Fixed32(asInt: Int32)
  datatype UFixed32 = UFixed32(asUint: UInt32)
  datatype Fixed64 = Fixed64(asInt: Int64)
  datatype UFixed64 = UFixed64(asUint: UInt64)

  /** 1.0 in each format. */
  const FIXED32_ONE: Fixed32 := Fixed32(0x1_0000)
  const UFIXED32_ONE: UFixed32 := UFixed32(0x1_0000)
  const FIXED64_ONE: Fixed64 := Fixed64(0x1_0000_0000)
  const UFIXED64_ONE: UFixed64 := UFixed64(0x1_0000_0000)

  // ===========================================================================
  // 32-bit formats

  function Fixed32Add(a: Fixed32, b: Fixed32): (r: Fixed32)
    ensures Congruent(r.asInt, a.asInt + b.asInt, TWO_32)
  {
    Fixed32(WrapI32(a.asInt + b.asInt))
  }

  function Fixed32Subtract(a: Fixed32, b: Fixed32): (r: Fixed32)
    ensures Congruent(r.asInt, a.asInt - b.asInt, TWO_32)
  {
    Fixed32(WrapI32(a.asInt - b.asInt))
  }

  /** Adding and subtracting the same value are inverse operations, overflow included. */
  lemma Fixed32AddSubtract(a: Fixed32, b: Fixed32)
    ensures Fixed32Subtract(Fixed32Add(a, b), b) == a
    ensures Fixed32Add(Fixed32Subtract(a, b), b) == a
  {
    var s, d := Fixed32Add(a, b), Fixed32Subtract(a, b);
    WrappedAddSubtract(a.asInt, b.asInt, s.asInt, Fixed32Subtract(s, b).asInt, TWO_32);
    CongruentInRange(Fixed32Subtract(s, b).asInt, a.asInt, -TWO_31, TWO_32);
    WrappedSubtractAdd(a.asInt, b.asInt, d.asInt, Fixed32Add(d, b).asInt, TWO_32);
    CongruentInRange(Fixed32Add(d, b).asInt, a.asInt, -TWO_31, TWO_32);
  }

  /** The 64-bit product plus half a unit, shifted right by 16 and cut to 32 bits. */
  function Fixed32Multiply(a: Fixed32, b: Fixed32): (r: Fixed32)
  {
    ProductFitsInt64(a.asInt, b.asInt);
    var product: Int64 := a.asInt * b.asInt + TWO_15;
    Fixed32(WrapI32(product / TWO_16))
  }

  /** The result is the exact product rounded half up to a multiple of 2^-16,
      modulo 2^32. */
  lemma Fixed32MultiplyRounds(a: Fixed32, b: Fixed32)
    ensures Congruent(Fixed32Multiply(a, b).asInt, NearestQuotient(a.asInt * b.asInt, TWO_16), TWO_32)
  {
    ShiftRounding(a.asInt * b.asInt, TWO_16, TWO_15);
  }

  /** Multiplying by 1.0 on either side returns the operand. */
  lemma Fixed32MultiplyOne(a: Fixed32)
    ensures Fixed32Multiply(a, FIXED32_ONE) == a
    ensures Fixed32Multiply(FIXED32_ONE, a) == a
  {
  }

  /** The dividend shifted left by 17, C's truncating division, plus one,
      shifted right by one, cut to 32 bits. The divisor must not be zero. */
  function Fixed32Divide(a: Fixed32, b: Fixed32): (r: Fixed32)
    requires b.asInt != 0
  {
    var shifted: Int64 := a.asInt * TWO_17;
    var quotient := TruncDiv(shifted, b.asInt);
    Fixed32(WrapI32((quotient + 1) / 2))
  }

  /** When the quotient is not negative, the result is a / b rounded half up
      to a multiple of 2^-16, modulo 2^32. */
  lemma Fixed32DivideRounds(a: Fixed32, b: Fixed32)
    requires (a.asInt >= 0 && b.asInt > 0) || (a.asInt <= 0 && b.asInt < 0)
    ensures Congruent(Fixed32Divide(a, b).asInt, NearestQuotient(Abs(a.asInt) * TWO_16, Abs(b.asInt)), TWO_32)
  {
    var shifted := a.asInt * TWO_17;
    var t := TruncDiv(shifted, b.asInt);
    if b.asInt < 0 {
      assert t * Abs(b.asInt) == -(t * b.asInt);
    }
    HalvedQuotientRounds(Abs(a.asInt) * TWO_16, Abs(b.asInt), t);
  }

  /** Dividing by 1.0 returns the dividend. */
  lemma Fixed32DivideOne(a: Fixed32)
    ensures Fixed32Divide(a, FIXED32_ONE) == a
  {
    var shifted := a.asInt * TWO_17;
    var t := TruncDiv(shifted, TWO_16);
    assert t == 2 * a.asInt;
  }

  /** A negative quotient is not rounded to the nearest value: -3 * 2^-16
      divided by 4.0 is -0.75 * 2^-16, whose nearest value is -1 * 2^-16,
      but the result is 0. */
  lemma Fixed32DivideNegativeQuotient()
    ensures Fixed32Divide(Fixed32(-3), Fixed32(0x4_0000)) == Fixed32(0)
    ensures RoundsHalfUp(-1, -3 * TWO_16, 0x4_0000) && !RoundsHalfUp(0, -3 * TWO_16, 0x4_0000)
  {
    assert TruncDiv(-3 * TWO_17, 0x4_0000) == -1;
  }

  /** The divide with floor division in place of C's truncating division: the
      quotient is then rounded half up whatever the signs. */
  function Fixed32DivideRounded(a: Fixed32, b: Fixed32): (r: Fixed32)
    requires b.asInt != 0
    ensures Congruent(r.asInt, NearestQuotient(Sign(b.asInt) * a.asInt * TWO_16, Abs(b.asInt)), TWO_32)
  {
    var shifted: Int64 := a.asInt * TWO_17;
    var n, d := Sign(b.asInt) * shifted, Abs(b.asInt);
    var quotient := n / d;
    DivBounds(n, d);
    HalvedQuotientRounds(Sign(b.asInt) * a.asInt * TWO_16, d, quotient);
    Fixed32(WrapI32((quotient + 1) / 2))
  }

  function Sign(x: int): (s: int)
    ensures s * x == Abs(x) && (s == 1 || s == -1)
  {
    if x < 0 then -1 else 1
  }

  function UFixed32Add(a: UFixed32, b: UFixed32): (r: UFixed32)
    ensures Congruent(r.asUint, a.asUint + b.asUint, TWO_32)
  {
    UFixed32(WrapU32(a.asUint + b.asUint))
  }

  function UFixed32Subtract(a: UFixed32, b: UFixed32): (r: UFixed32)
    ensures Congruent(r.asUint, a.asUint - b.asUint, TWO_32)
  {
    UFixed32(WrapU32(a.asUint - b.asUint))
  }

  lemma UFixed32AddSubtract(a: UFixed32, b: UFixed32)
    ensures UFixed32Subtract(UFixed32Add(a, b), b) == a
    ensures UFixed32Add(UFixed32Subtract(a, b), b) == a
  {
    var s, d := UFixed32Add(a, b), UFixed32Subtract(a, b);
    WrappedAddSubtract(a.asUint, b.asUint, s.asUint, UFixed32Subtract(s, b).asUint, TWO_32);
    CongruentInRange(UFixed32Subtract(s, b).asUint, a.asUint, 0, TWO_32);
    WrappedSubtractAdd(a.asUint, b.asUint, d.asUint, UFixed32Add(d, b).asUint, TWO_32);
    CongruentInRange(UFixed32Add(d, b).asUint, a.asUint, 0, TWO_32);
  }

  function UFixed32Multiply(a: UFixed32, b: UFixed32): (r: UFixed32)
  {
    ProductFitsUInt64(a.asUint, b.asUint);
    var product: UInt64 := a.asUint * b.asUint + TWO_15;
    UFixed32(WrapU32(product / TWO_16))
  }

  lemma UFixed32MultiplyRounds(a: UFixed32, b: UFixed32)
    ensures Congruent(UFixed32Multiply(a, b).asUint, NearestQuotient(a.asUint * b.asUint, TWO_16), TWO_32)
  {
    ShiftRounding(a.asUint * b.asUint, TWO_16, TWO_15);
  }

  lemma UFixed32MultiplyOne(a: UFixed32)
    ensures UFixed32Multiply(a, UFIXED32_ONE) == a
    ensures UFixed32Multiply(UFIXED32_ONE, a) == a
  {
  }

  function UFixed32Divide(a: UFixed32, b: UFixed32): (r: UFixed32)
    requires b.asUint != 0
  {
    var shifted: UInt64 := a.asUint * TWO_17;
    var quotient: UInt64 := shifted / b.asUint;
    UFixed32(WrapU32((quotient + 1) / 2))
  }

  /** The unsigned quotient is always rounded half up, modulo 2^32. */
  lemma UFixed32DivideRounds(a: UFixed32, b: UFixed32)
    requires b.asUint != 0
    ensures Congruent(UFixed32Divide(a, b).asUint, NearestQuotient(a.asUint * TWO_16, b.asUint), TWO_32)
  {
    DivBounds(a.asUint * TWO_17, b.asUint);
    HalvedQuotientRounds(a.asUint * TWO_16, b.asUint, (a.asUint * TWO_17) / b.asUint);
  }

  lemma UFixed32DivideOne(a: UFixed32)
    ensures UFixed32Divide(a, UFIXED32_ONE) == a
  {
  }

  // ===========================================================================
  // 64-bit formats

  function Fixed64Add(a: Fixed64, b: Fixed64): (r: Fixed64)
    ensures Congruent(r.asInt, a.asInt + b.asInt, TWO_64)
  {
    Fixed64(WrapI64(a.asInt + b.asInt))
  }

  function Fixed64Subtract(a: Fixed64, b: Fixed64): (r: Fixed64)
    ensures Congruent(r.asInt, a.asInt - b.asInt, TWO_64)
  {
    Fixed64(WrapI64(a.asInt - b.asInt))
  }

  lemma Fixed64AddSubtract(a: Fixed64, b: Fixed64)
    ensures Fixed64Subtract(Fixed64Add(a, b), b) == a
    ensures Fixed64Add(Fixed64Subtract(a, b), b) == a
  {
    var s, d := Fixed64Add(a, b), Fixed64Subtract(a, b);
    WrappedAddSubtract(a.asInt, b.asInt, s.asInt, Fixed64Subtract(s, b).asInt, TWO_64);
    CongruentInRange(Fixed64Subtract(s, b).asInt, a.asInt, -TWO_63, TWO_64);
    WrappedSubtractAdd(a.asInt, b.asInt, d.asInt, Fixed64Add(d, b).asInt, TWO_64);
    CongruentInRange(Fixed64Add(d, b).asInt, a.asInt, -TWO_63, TWO_64);
  }

  /** Split-limb multiply: each operand is split into its upper 32 bits (an
      arithmetic shift) and its lower 32 bits (a mask, so never negative),
      and the three partial products are combined with a rounding half unit
      added to the fraction product before its upper half is taken as the
      carry. Every int64 operation wraps, the fraction product included. */
  function Fixed64Multiply(a: Fixed64, b: Fixed64): (r: Fixed64)
  {
    var aFrac, bFrac := a.asInt % TWO_32, b.asInt % TWO_32;
    var fracProduct := WrapI64(WrapI64(aFrac * bFrac) + TWO_31);
    Fixed64(Recombine(a.asInt, b.asInt, fracProduct / TWO_32, true))
  }

  /** A 64-bit container, two's-complement (`int64_t`) or unsigned (`uint64_t`). */
  function Wrap64(x: int, signed: bool): (r: int)
    ensures Congruent(r, x, TWO_64)
    ensures if signed then -TWO_63 <= r < TWO_63 else 0 <= r < TWO_64
  {
    if signed then WrapI64(x) else WrapU64(x)
  }

  /** `(int_product << 32) + mixed_product + carry` in a 64-bit container, from
      the upper and lower 32-bit halves of a and b. */
  function Recombine(a: int, b: int, carry: int, signed: bool): (r: int)
    ensures if signed then -TWO_63 <= r < TWO_63 else 0 <= r < TWO_64
  {
    var aInt, aFrac := a / TWO_32, a % TWO_32;
    var bInt, bFrac := b / TWO_32, b % TWO_32;
    var intProduct := Wrap64(aInt * bInt, signed);
    var mixedProduct := Wrap64(Wrap64(aInt * bFrac, signed) + Wrap64(aFrac * bInt, signed), signed);
    Wrap64(Wrap64(Wrap64(intProduct * TWO_32, signed) + mixedProduct, signed) + carry, signed)
  }

  /** The split is exact: the upper half times 2^32 plus the lower half gives
      back the raw value, and the lower half lies in [0, 2^32). */
  lemma Fixed64Split(a: Fixed64)
    ensures 0 <= a.asInt % TWO_32 < TWO_32
    ensures -TWO_31 <= a.asInt / TWO_32 < TWO_31
    ensures (a.asInt / TWO_32) * TWO_32 + a.asInt % TWO_32 == a.asInt
  {
  }

  /** When the fraction product plus the rounding half unit fits in int64, the
      result is the exact product rounded half up to a multiple of 2^-32,
      modulo 2^64. */
  lemma Fixed64MultiplyRounds(a: Fixed64, b: Fixed64)
    requires (a.asInt % TWO_32) * (b.asInt % TWO_32) + TWO_31 < TWO_63
    ensures Congruent(Fixed64Multiply(a, b).asInt, NearestQuotient(a.asInt * b.asInt, TWO_32), TWO_64)
  {
    var aFrac, bFrac := a.asInt % TWO_32, b.asInt % TWO_32;
    NonNegativeProduct(aFrac, bFrac);
    WrapI64Identity(aFrac * bFrac);
    WrapI64Identity(aFrac * bFrac + TWO_31);
    PartialProductsCombine(a.asInt, b.asInt, (aFrac * bFrac + TWO_31) / TWO_32, true);
  }

  /** With a fraction product that overflows int64 the carry comes out
      negative: (1.0 - 2^-32) squared gives -2 * 2^-32 instead of
      1.0 - 2 * 2^-32. */
  lemma Fixed64MultiplyFractionOverflow()
    ensures Fixed64Multiply(Fixed64(0xFFFF_FFFF), Fixed64(0xFFFF_FFFF)) == Fixed64(-2)
    ensures NearestQuotient(0xFFFF_FFFF * 0xFFFF_FFFF, TWO_32) == 0xFFFF_FFFE
  {
    RoundsHalfUpUnique(NearestQuotient(0xFFFF_FFFF * 0xFFFF_FFFF, TWO_32), 0xFFFF_FFFE,
      0xFFFF_FFFF * 0xFFFF_FFFF, TWO_32);
  }

  /** The multiply with the fraction product held in an unsigned 64-bit
      container, where it cannot overflow: the result is then the rounded
      product for every pair of operands. */
  function Fixed64MultiplyCorrected(a: Fixed64, b: Fixed64): (r: Fixed64)
    ensures Congruent(r.asInt, NearestQuotient(a.asInt * b.asInt, TWO_32), TWO_64)
  {
    var aFrac, bFrac := a.asInt % TWO_32, b.asInt % TWO_32;
    FractionProductFits(aFrac, bFrac);
    var fracProduct := WrapU64(WrapU64(aFrac * bFrac) + TWO_31);
    PartialProductsCombine(a.asInt, b.asInt, fracProduct / TWO_32, true);
    Fixed64(Recombine(a.asInt, b.asInt, fracProduct / TWO_32, true))
  }

  lemma Fixed64MultiplyOne(a: Fixed64)
    ensures Fixed64Multiply(a, FIXED64_ONE) == a
    ensures Fixed64Multiply(FIXED64_ONE, a) == a
  {
    NearestOfMultiple(a.asInt);
    assert FIXED64_ONE.asInt % TWO_32 == 0;
    Fixed64MultiplyRounds(a, FIXED64_ONE);
    CongruentInRange(Fixed64Multiply(a, FIXED64_ONE).asInt, a.asInt, -TWO_63, TWO_64);
    Fixed64MultiplyRounds(FIXED64_ONE, a);
    CongruentInRange(Fixed64Multiply(FIXED64_ONE, a).asInt, a.asInt, -TWO_63, TWO_64);
  }

  function UFixed64Add(a: UFixed64, b: UFixed64): (r: UFixed64)
    ensures Congruent(r.asUint, a.asUint + b.asUint, TWO_64)
  {
    UFixed64(WrapU64(a.asUint + b.asUint))
  }

  function UFixed64Subtract(a: UFixed64, b: UFixed64): (r: UFixed64)
    ensures Congruent(r.asUint, a.asUint - b.asUint, TWO_64)
  {
    UFixed64(WrapU64(a.asUint - b.asUint))
  }

  lemma UFixed64AddSubtract(a: UFixed64, b: UFixed64)
    ensures UFixed64Subtract(UFixed64Add(a, b), b) == a
    ensures UFixed64Add(UFixed64Subtract(a, b), b) == a
  {
    var s, d := UFixed64Add(a, b), UFixed64Subtract(a, b);
    WrappedAddSubtract(a.asUint, b.asUint, s.asUint, UFixed64Subtract(s, b).asUint, TWO_64);
    CongruentInRange(UFixed64Subtract(s, b).asUint, a.asUint, 0, TWO_64);
    WrappedSubtractAdd(a.asUint, b.asUint, d.asUint, UFixed64Add(d, b).asUint, TWO_64);
    CongruentInRange(UFixed64Add(d, b).asUint, a.asUint, 0, TWO_64);
  }

  /** The unsigned split-limb multiply; every uint64 operation wraps. */
  function UFixed64Multiply(a: UFixed64, b: UFixed64): (r: UFixed64)
  {
    var aFrac, bFrac := a.asUint % TWO_32, b.asUint % TWO_32;
    var fracProduct := WrapU64(WrapU64(aFrac * bFrac) + TWO_31);
    UFixed64(Recombine(a.asUint, b.asUint, fracProduct / TWO_32, false))
  }

  /** For every pair of operands the result is the exact product rounded half
      up to a multiple of 2^-32, modulo 2^64: the fraction product plus the
      half unit is at most (2^32 - 1)^2 + 2^31 and never overflows. */
  lemma UFixed64MultiplyRounds(a: UFixed64, b: UFixed64)
    ensures Congruent(UFixed64Multiply(a, b).asUint, NearestQuotient(a.asUint * b.asUint, TWO_32), TWO_64)
  {
    var aFrac, bFrac := a.asUint % TWO_32, b.asUint % TWO_32;
    FractionProductFits(aFrac, bFrac);
    PartialProductsCombine(a.asUint, b.asUint, (aFrac * bFrac + TWO_31) / TWO_32, false);
  }

  lemma UFixed64MultiplyOne(a: UFixed64)
    ensures UFixed64Multiply(a, UFIXED64_ONE) == a
    ensures UFixed64Multiply(UFIXED64_ONE, a) == a
  {
    NearestOfMultiple(a.asUint);
    UFixed64MultiplyRounds(a, UFIXED64_ONE);
    CongruentInRange(UFixed64Multiply(a, UFIXED64_ONE).asUint, a.asUint, 0, TWO_64);
    UFixed64MultiplyRounds(UFIXED64_ONE, a);
    CongruentInRange(UFixed64Multiply(UFIXED64_ONE, a).asUint, a.asUint, 0, TWO_64);
  }

  // ===========================================================================
  // Arithmetic behind the proofs.

  lemma ProductFitsInt64(x: Int32, y: Int32)
    ensures -TWO_62() <= x * y <= TWO_62()
  {
    ProductBound(Abs(x), Abs(y), TWO_31);
    assert Abs(x * y) == Abs(x) * Abs(y) by { AbsProduct(x, y); }
  }

  lemma ProductFitsUInt64(x: UInt32, y: UInt32)
    ensures 0 <= x * y < TWO_64 - TWO_32
  {
    ProductBound(x, y, TWO_32 - 1);
    assert (TWO_32 - 1) * (TWO_32 - 1) == 0xFFFF_FFFE_0000_0001;
  }

  lemma FractionProductFits(x: int, y: int)
    requires 0 <= x < TWO_32 && 0 <= y < TWO_32
    ensures 0 <= x * y + TWO_31 < TWO_64
    ensures WrapU64(WrapU64(x * y) + TWO_31) == x * y + TWO_31
  {
    ProductBound(x, y, TWO_32 - 1);
    assert (TWO_32 - 1) * (TWO_32 - 1) == 0xFFFF_FFFE_0000_0001;
    var p := x * y;
    assert 0 <= p + TWO_31 < TWO_64;
    assert WrapU64(p) == p;
  }

  function TWO_62(): int { 0x4000_0000_0000_0000 }

  lemma NonNegativeProduct(x: int, y: int)
    requires x >= 0 && y >= 0
    ensures x * y >= 0
  {
  }

  lemma AbsProduct(x: int, y: int)
    ensures Abs(x * y) == Abs(x) * Abs(y)
  {
    if x < 0 && y < 0 {
      assert x * y == Abs(x) * Abs(y);
    } else if x < 0 {
      assert x * y == -(Abs(x) * Abs(y));
    } else if y < 0 {
      assert x * y == -(Abs(x) * Abs(y));
    }
  }

  lemma ProductBound(x: nat, y: nat, k: nat)
    requires x <= k && y <= k
    ensures x * y <= k * k
  {
    assert x * y <= x * k;
    assert x * k <= k * k;
  }

  /** `(n + half) / unit` is n / unit rounded half up. */
  lemma ShiftRounding(n: int, unit: int, half: int)
    requires unit > 0 && unit == 2 * half
    ensures (n + half) / unit == NearestQuotient(n, unit)
  {
    var q := (n + half) / unit;
    DivBounds(n + half, unit);
    assert RoundsHalfUp(q, n, unit);
    RoundsHalfUpUnique(q, NearestQuotient(n, unit), n, unit);
  }

  /** Rounding the doubled quotient t of 2n / d by adding one and halving
      rounds n / d half up. */
  lemma HalvedQuotientRounds(n: int, d: int, t: int)
    requires d > 0 && t * d <= 2 * n < t * d + d
    ensures (t + 1) / 2 == NearestQuotient(n, d)
  {
    var q := (t + 1) / 2;
    if t == 2 * q - 1 {
      assert t * d == 2 * q * d - d;
    } else {
      assert t == 2 * q;
      assert t * d == 2 * q * d;
    }
    assert RoundsHalfUp(q, n, d);
    RoundsHalfUpUnique(q, NearestQuotient(n, d), n, d);
  }

  /** A whole number of units rounds to itself, on either side of the product. */
  lemma NearestOfMultiple(x: int)
    ensures NearestQuotient(x * TWO_32, TWO_32) == x
    ensures NearestQuotient(TWO_32 * x, TWO_32) == x
  {
    assert RoundsHalfUp(x, x * TWO_32, TWO_32);
    RoundsHalfUpUnique(NearestQuotient(x * TWO_32, TWO_32), x, x * TWO_32, TWO_32);
  }

  lemma DivAddMultiple(k: int, x: int, unit: int)
    requires unit > 0
    ensures (k * unit + x) / unit == k + x / unit
  {
    DivBounds(x, unit);
    DivBounds(k * unit + x, unit);
    var q := (k * unit + x) / unit;
    var d := q - k - x / unit;
    assert d * unit == q * unit - k * unit - (x / unit) * unit;
    if d >= 1 {
      MulAtLeast(d, unit);
      assert false;
    } else if d <= -1 {
      MulAtLeast(-d, unit);
      assert false;
    }
  }

  /** Rounding the product of two raw values, written through their 32-bit halves. */
  lemma SplitProductRounding(a: int, b: int)
    ensures NearestQuotient(a * b, TWO_32)
         == (a / TWO_32) * (b / TWO_32) * TWO_32 + ((a / TWO_32) * (b % TWO_32) + (a % TWO_32) * (b / TWO_32))
            + ((a % TWO_32) * (b % TWO_32) + TWO_31) / TWO_32
  {
    var ai, af, bi, bf := a / TWO_32, a % TWO_32, b / TWO_32, b % TWO_32;
    assert a == ai * TWO_32 + af;
    assert b == bi * TWO_32 + bf;
    var k := ai * bi * TWO_32 + (ai * bf + af * bi);
    assert a * b == (ai * TWO_32 + af) * (bi * TWO_32 + bf);
    assert (ai * TWO_32 + af) * (bi * TWO_32 + bf)
        == ai * bi * TWO_32 * TWO_32 + (ai * bf + af * bi) * TWO_32 + af * bf;
    assert a * b == k * TWO_32 + af * bf;
    DivAddMultiple(k, af * bf + TWO_31, TWO_32);
    assert a * b + TWO_31 == k * TWO_32 + (af * bf + TWO_31);
    ShiftRounding(a * b, TWO_32, TWO_31);
  }

  /** The recombination of the partial products, with the exact carry, is
      congruent modulo 2^64 to the rounded product. */
  lemma PartialProductsCombine(a: int, b: int, c: int, signed: bool)
    requires c == ((a % TWO_32) * (b % TWO_32) + TWO_31) / TWO_32
    ensures Congruent(Recombine(a, b, c, signed), NearestQuotient(a * b, TWO_32), TWO_64)
  {
    var aInt, aFrac := a / TWO_32, a % TWO_32;
    var bInt, bFrac := b / TWO_32, b % TWO_32;
    WrappedRecombine(aInt * bInt, aInt * bFrac, aFrac * bInt, c, signed);
    SplitProductRounding(a, b);
  }

  /** Wrapping each step of `(p << 32) + (m1 + m2) + c` in a 64-bit container
      leaves the sum unchanged modulo 2^64. */
  lemma WrappedRecombine(p: int, m1: int, m2: int, c: int, signed: bool)
    ensures Congruent(Wrap64(Wrap64(Wrap64(Wrap64(p, signed) * TWO_32, signed)
                        + Wrap64(Wrap64(m1, signed) + Wrap64(m2, signed), signed), signed) + c, signed),
                      p * TWO_32 + (m1 + m2) + c, TWO_64)
  {
    var wp, w1, w2 := Wrap64(p, signed), Wrap64(m1, signed), Wrap64(m2, signed);
    var shifted, mixed := Wrap64(wp * TWO_32, signed), Wrap64(w1 + w2, signed);
    var sum := Wrap64(shifted + mixed, signed);
    CongruentScale(wp, p, TWO_32, TWO_64);
    CongruentTransitive(shifted, wp * TWO_32, p * TWO_32, TWO_64);
    CongruentAdd(w1, m1, w2, m2, TWO_64);
    CongruentTransitive(mixed, w1 + w2, m1 + m2, TWO_64);
    CongruentAdd(shifted, p * TWO_32, mixed, m1 + m2, TWO_64);
    CongruentTransitive(sum, shifted + mixed, p * TWO_32 + (m1 + m2), TWO_64);
    CongruentAdd(sum, p * TWO_32 + (m1 + m2), c, c, TWO_64);
    CongruentTransitive(Wrap64(sum + c, signed), sum + c, p * TWO_32 + (m1 + m2) + c, TWO_64);
  }

  lemma WrapI64Identity(x: int)
    requires -TWO_63 <= x < TWO_63
    ensures WrapI64(x) == x
  {
  }
}
