/** The second fixed-point library, src/fixed-point/fixed-point.c: signed and
    unsigned 32.32 values in 64-bit containers. A value is one raw 64-bit
    integer equal to `integer * 2^32 + fraction`; the integer half and the
    fraction half are read from it by a shift and a mask. There is no divide
    in this library. */
module FixedPoint {
  import opened IntOps
  import Fixed

  datatype FixedPoint64 = FixedPoint64(asInt: Int64)
  {
    /** The upper 32 bits, read by an arithmetic shift. */
    function IntegerPart(): (i: int)
      ensures -TWO_31 <= i < TWO_31
    {
      asInt / TWO_32
    }

    /** The lower 32 bits, read by masking with UINT32_MAX. */
    function FractionPart(): (f: int)
      ensures 0 <= f < TWO_32
    {
      asInt % TWO_32
    }
  }

  datatype UFixedPoint64 = UFixedPoint64(asUint: UInt64)
  {
    function IntegerPart(): (i: int)
      ensures 0 <= i < TWO_32
    {
      asUint / TWO_32
    }

    function FractionPart(): (f: int)
      ensures 0 <= f < TWO_32
    {
      asUint % TWO_32
    }
  }

  /** The value whose halves are a signed 32-bit integer part and an unsigned
      32-bit fraction part: the shift and the mask read them back. */
  function FromParts(integer: Int32, fraction: UInt32): (r: FixedPoint64)
    ensures r.IntegerPart() == integer && r.FractionPart() == fraction
  {
    SplitOfParts(integer, fraction, TWO_32);
    FixedPoint64(integer * TWO_32 + fraction)
  }

  /** The unsigned value with the given halves, read back by the shift and the mask. */
  function UFromParts(integer: UInt32, fraction: UInt32): (r: UFixedPoint64)
    ensures r.IntegerPart() == integer && r.FractionPart() == fraction
  {
    SplitOfParts(integer, fraction, TWO_32);
    UFixedPoint64(integer * TWO_32 + fraction)
  }

  /** Splitting into halves and recombining them are inverse operations. */
  lemma SplitRecombine(x: FixedPoint64, integer: Int32, fraction: UInt32)
    ensures FromParts(x.IntegerPart(), x.FractionPart()) == x
    ensures FromParts(integer, fraction).IntegerPart() == integer
    ensures FromParts(integer, fraction).FractionPart() == fraction
  {
    SplitOfParts(integer, fraction, TWO_32);
  }

  lemma USplitRecombine(x: UFixedPoint64, integer: UInt32, fraction: UInt32)
    ensures UFromParts(x.IntegerPart(), x.FractionPart()) == x
    ensures UFromParts(integer, fraction).IntegerPart() == integer
    ensures UFromParts(integer, fraction).FractionPart() == fraction
  {
    SplitOfParts(integer, fraction, TWO_32);
  }

  function FixedPoint64Add(a: FixedPoint64, b: FixedPoint64): (r: FixedPoint64)
    ensures Congruent(r.asInt, a.asInt + b.asInt, TWO_64)
  {
    FixedPoint64(WrapI64(a.asInt + b.asInt))
  }

  function FixedPoint64Subtract(a: FixedPoint64, b: FixedPoint64): (r: FixedPoint64)
    ensures Congruent(r.asInt, a.asInt - b.asInt, TWO_64)
  {
    FixedPoint64(WrapI64(a.asInt - b.asInt))
  }

  /** Adding and subtracting the same value are inverse operations, overflow included. */
  lemma FixedPoint64AddSubtract(a: FixedPoint64, b: FixedPoint64)
    ensures FixedPoint64Subtract(FixedPoint64Add(a, b), b) == a
    ensures FixedPoint64Add(FixedPoint64Subtract(a, b), b) == a
  {
    var s, d := FixedPoint64Add(a, b), FixedPoint64Subtract(a, b);
    WrappedAddSubtract(a.asInt, b.asInt, s.asInt, FixedPoint64Subtract(s, b).asInt, TWO_64);
    CongruentInRange(FixedPoint64Subtract(s, b).asInt, a.asInt, -TWO_63, TWO_64);
    WrappedSubtractAdd(a.asInt, b.asInt, d.asInt, FixedPoint64Add(d, b).asInt, TWO_64);
    CongruentInRange(FixedPoint64Add(d, b).asInt, a.asInt, -TWO_63, TWO_64);
  }

  /** fixed_point64_multiply: the split-limb multiply on the two halves, with
      every int64 operation wrapping. The fraction product plus the rounding
      half unit gives the carry, its upper half; the integer product is
      shifted left by 32 and the mixed products and the carry are added. */
  function FixedPoint64Multiply(a: FixedPoint64, b: FixedPoint64): (r: FixedPoint64)
  {
    var aInteger, aFraction := a.IntegerPart(), a.FractionPart();
    var bInteger, bFraction := b.IntegerPart(), b.FractionPart();
    var integerProduct := WrapI64(aInteger * bInteger);
    var mixedProduct := WrapI64(WrapI64(aInteger * bFraction) + WrapI64(aFraction * bInteger));
    var fractionProduct := WrapI64(WrapI64(aFraction * bFraction) + TWO_31);
    FixedPoint64(ProductSum(integerProduct, mixedProduct, fractionProduct / TWO_32))
  }

  /** `(integer_product << 32) + mixed_product + carry` in int64. */
  function ProductSum(integerProduct: int, mixedProduct: int, carry: int): Int64
  {
    WrapI64(WrapI64(WrapI64(integerProduct * TWO_32) + mixedProduct) + carry)
  }

  /** On equal raw inputs the multiply agrees bit for bit with the one of
      src/fixed/fixed.c, of which it is a separate copy. */
  lemma FixedPoint64MultiplyAgrees(a: FixedPoint64, b: FixedPoint64)
    ensures FixedPoint64Multiply(a, b).asInt == Fixed.Fixed64Multiply(Fixed.Fixed64(a.asInt), Fixed.Fixed64(b.asInt)).asInt
  {
    var aInteger, aFraction := a.IntegerPart(), a.FractionPart();
    var bInteger, bFraction := b.IntegerPart(), b.FractionPart();
    var integerProduct := WrapI64(aInteger * bInteger);
    var mixedProduct := WrapI64(WrapI64(aInteger * bFraction) + WrapI64(aFraction * bInteger));
    var carry := WrapI64(WrapI64(aFraction * bFraction) + TWO_31) / TWO_32;
    FixedPoint64MultiplyFromProducts(a, b, integerProduct, mixedProduct, carry);
    Fixed64MultiplyFromCarry(a.asInt, b.asInt, carry);
    SignedRecombine(a.asInt, b.asInt, carry, integerProduct, mixedProduct);
  }

  /** The multiply of this library in terms of its three partial results. */
  lemma FixedPoint64MultiplyFromProducts(a: FixedPoint64, b: FixedPoint64, integerProduct: int, mixedProduct: int, carry: int)
    requires integerProduct == WrapI64(a.IntegerPart() * b.IntegerPart())
    requires mixedProduct == WrapI64(WrapI64(a.IntegerPart() * b.FractionPart()) + WrapI64(a.FractionPart() * b.IntegerPart()))
    requires carry == WrapI64(WrapI64(a.FractionPart() * b.FractionPart()) + TWO_31) / TWO_32
    ensures FixedPoint64Multiply(a, b).asInt == ProductSum(integerProduct, mixedProduct, carry)
  {
  }

  /** The multiply of src/fixed/fixed.c in terms of its carry. */
  lemma Fixed64MultiplyFromCarry(a: Int64, b: Int64, carry: int)
    requires carry == WrapI64(WrapI64((a % TWO_32) * (b % TWO_32)) + TWO_31) / TWO_32
    ensures Fixed.Fixed64Multiply(Fixed.Fixed64(a), Fixed.Fixed64(b)).asInt == Fixed.Recombine(a, b, carry, true)
  {
  }

  /** Fixed.Recombine in its signed form, from the same partial products. */
  lemma SignedRecombine(a: Int64, b: Int64, carry: int, integerProduct: int, mixedProduct: int)
    requires integerProduct == WrapI64((a / TWO_32) * (b / TWO_32))
    requires mixedProduct == WrapI64(WrapI64((a / TWO_32) * (b % TWO_32)) + WrapI64((a % TWO_32) * (b / TWO_32)))
    ensures Fixed.Recombine(a, b, carry, true) == ProductSum(integerProduct, mixedProduct, carry)
  {
    var aInt, aFrac := a / TWO_32, a % TWO_32;
    var bInt, bFrac := b / TWO_32, b % TWO_32;
    var p, m1, m2 := aInt * bInt, aInt * bFrac, aFrac * bInt;
    SignedWrap(p);
    SignedWrap(m1);
    SignedWrap(m2);
    SignedWrap(Fixed.Wrap64(m1, true) + Fixed.Wrap64(m2, true));
    SignedProductSum(Fixed.Wrap64(p, true), Fixed.Wrap64(Fixed.Wrap64(m1, true) + Fixed.Wrap64(m2, true), true), carry);
  }

  /** Fixed.Wrap64 in its signed form is the int64 wrap. */
  lemma SignedWrap(x: int)
    ensures Fixed.Wrap64(x, true) == WrapI64(x)
  {
  }

  /** The last three steps of Fixed.Recombine in its signed form are ProductSum. */
  lemma SignedProductSum(integerProduct: int, mixedProduct: int, carry: int)
    ensures Fixed.Wrap64(Fixed.Wrap64(Fixed.Wrap64(integerProduct * TWO_32, true) + mixedProduct, true) + carry, true)
      == ProductSum(integerProduct, mixedProduct, carry)
  {
  }

  /** When the fraction product plus the rounding half unit fits in int64, the
      result is the exact product rounded half up to a multiple of 2^-32,
      modulo 2^64. */
  lemma FixedPoint64MultiplyRounds(a: FixedPoint64, b: FixedPoint64)
    requires a.FractionPart() * b.FractionPart() + TWO_31 < TWO_63
    ensures Congruent(FixedPoint64Multiply(a, b).asInt, NearestQuotient(a.asInt * b.asInt, TWO_32), TWO_64)
  {
    FixedPoint64MultiplyAgrees(a, b);
    Fixed.Fixed64MultiplyRounds(Fixed.Fixed64(a.asInt), Fixed.Fixed64(b.asInt));
  }

  /** The same overflow as in src/fixed/fixed.c: (1.0 - 2^-32) squared gives
      -2 * 2^-32. */
  lemma FixedPoint64MultiplyFractionOverflow()
    ensures FixedPoint64Multiply(FixedPoint64(0xFFFF_FFFF), FixedPoint64(0xFFFF_FFFF)) == FixedPoint64(-2)
    ensures NearestQuotient(0xFFFF_FFFF * 0xFFFF_FFFF, TWO_32) != -2
  {
    FixedPoint64MultiplyAgrees(FixedPoint64(0xFFFF_FFFF), FixedPoint64(0xFFFF_FFFF));
    Fixed.Fixed64MultiplyFractionOverflow();
  }

  /** The multiply with the fraction product held in an unsigned 64-bit
      container: the rounding formula then holds for every pair of operands. */
  function FixedPoint64MultiplyCorrected(a: FixedPoint64, b: FixedPoint64): (r: FixedPoint64)
    ensures Congruent(r.asInt, NearestQuotient(a.asInt * b.asInt, TWO_32), TWO_64)
  {
    FixedPoint64(Fixed.Fixed64MultiplyCorrected(Fixed.Fixed64(a.asInt), Fixed.Fixed64(b.asInt)).asInt)
  }

  lemma FixedPoint64MultiplyOne(a: FixedPoint64)
    ensures FixedPoint64Multiply(a, FromParts(1, 0)) == a
    ensures FixedPoint64Multiply(FromParts(1, 0), a) == a
  {
    FixedPoint64MultiplyAgrees(a, FromParts(1, 0));
    FixedPoint64MultiplyAgrees(FromParts(1, 0), a);
    Fixed.Fixed64MultiplyOne(Fixed.Fixed64(a.asInt));
  }

  function UFixedPoint64Add(a: UFixedPoint64, b: UFixedPoint64): (r: UFixedPoint64)
    ensures Congruent(r.asUint, a.asUint + b.asUint, TWO_64)
  {
    UFixedPoint64(WrapU64(a.asUint + b.asUint))
  }

  function UFixedPoint64Subtract(a: UFixedPoint64, b: UFixedPoint64): (r: UFixedPoint64)
    ensures Congruent(r.asUint, a.asUint - b.asUint, TWO_64)
  {
    UFixedPoint64(WrapU64(a.asUint - b.asUint))
  }

  lemma UFixedPoint64AddSubtract(a: UFixedPoint64, b: UFixedPoint64)
    ensures UFixedPoint64Subtract(UFixedPoint64Add(a, b), b) == a
    ensures UFixedPoint64Add(UFixedPoint64Subtract(a, b), b) == a
  {
    var s, d := UFixedPoint64Add(a, b), UFixedPoint64Subtract(a, b);
    WrappedAddSubtract(a.asUint, b.asUint, s.asUint, UFixedPoint64Subtract(s, b).asUint, TWO_64);
    CongruentInRange(UFixedPoint64Subtract(s, b).asUint, a.asUint, 0, TWO_64);
    WrappedSubtractAdd(a.asUint, b.asUint, d.asUint, UFixedPoint64Add(d, b).asUint, TWO_64);
    CongruentInRange(UFixedPoint64Add(d, b).asUint, a.asUint, 0, TWO_64);
  }

  /** ufixed_point64_multiply: the same split-limb multiply in uint64, every
      operation wrapping modulo 2^64. */
  function UFixedPoint64Multiply(a: UFixedPoint64, b: UFixedPoint64): (r: UFixedPoint64)
  {
    var aInteger, aFraction := a.IntegerPart(), a.FractionPart();
    var bInteger, bFraction := b.IntegerPart(), b.FractionPart();
    var integerProduct := WrapU64(aInteger * bInteger);
    var mixedProduct := WrapU64(WrapU64(aInteger * bFraction) + WrapU64(aFraction * bInteger));
    var fractionProduct := WrapU64(WrapU64(aFraction * bFraction) + TWO_31);
    UFixedPoint64(UProductSum(integerProduct, mixedProduct, fractionProduct / TWO_32))
  }

  /** `(integer_product << 32) + mixed_product + carry` in uint64. */
  function UProductSum(integerProduct: int, mixedProduct: int, carry: int): UInt64
  {
    WrapU64(WrapU64(WrapU64(integerProduct * TWO_32) + mixedProduct) + carry)
  }

  lemma UFixedPoint64MultiplyAgrees(a: UFixedPoint64, b: UFixedPoint64)
    ensures UFixedPoint64Multiply(a, b).asUint == Fixed.UFixed64Multiply(Fixed.UFixed64(a.asUint), Fixed.UFixed64(b.asUint)).asUint
  {
    var aInteger, aFraction := a.IntegerPart(), a.FractionPart();
    var bInteger, bFraction := b.IntegerPart(), b.FractionPart();
    var integerProduct := WrapU64(aInteger * bInteger);
    var mixedProduct := WrapU64(WrapU64(aInteger * bFraction) + WrapU64(aFraction * bInteger));
    var carry := WrapU64(WrapU64(aFraction * bFraction) + TWO_31) / TWO_32;
    UFixedPoint64MultiplyFromProducts(a, b, integerProduct, mixedProduct, carry);
    UFixed64MultiplyFromCarry(a.asUint, b.asUint, carry);
    UnsignedRecombine(a.asUint, b.asUint, carry, integerProduct, mixedProduct);
  }

  /** The multiply of this library in terms of its three partial results. */
  lemma UFixedPoint64MultiplyFromProducts(a: UFixedPoint64, b: UFixedPoint64, integerProduct: int, mixedProduct: int, carry: int)
    requires integerProduct == WrapU64(a.IntegerPart() * b.IntegerPart())
    requires mixedProduct == WrapU64(WrapU64(a.IntegerPart() * b.FractionPart()) + WrapU64(a.FractionPart() * b.IntegerPart()))
    requires carry == WrapU64(WrapU64(a.FractionPart() * b.FractionPart()) + TWO_31) / TWO_32
    ensures UFixedPoint64Multiply(a, b).asUint == UProductSum(integerProduct, mixedProduct, carry)
  {
  }

  /** The multiply of src/fixed/fixed.c in terms of its carry. */
  lemma UFixed64MultiplyFromCarry(a: UInt64, b: UInt64, carry: int)
    requires carry == WrapU64(WrapU64((a % TWO_32) * (b % TWO_32)) + TWO_31) / TWO_32
    ensures Fixed.UFixed64Multiply(Fixed.UFixed64(a), Fixed.UFixed64(b)).asUint == Fixed.Recombine(a, b, carry, false)
  {
  }

  /** Fixed.Recombine in its unsigned form, from the same partial products. */
  lemma UnsignedRecombine(a: UInt64, b: UInt64, carry: int, integerProduct: int, mixedProduct: int)
    requires integerProduct == WrapU64((a / TWO_32) * (b / TWO_32))
    requires mixedProduct == WrapU64(WrapU64((a / TWO_32) * (b % TWO_32)) + WrapU64((a % TWO_32) * (b / TWO_32)))
    ensures Fixed.Recombine(a, b, carry, false) == UProductSum(integerProduct, mixedProduct, carry)
  {
  }

  /** For every pair of operands the result is the exact product rounded half
      up to a multiple of 2^-32, modulo 2^64. */
  lemma UFixedPoint64MultiplyRounds(a: UFixedPoint64, b: UFixedPoint64)
    ensures Congruent(UFixedPoint64Multiply(a, b).asUint, NearestQuotient(a.asUint * b.asUint, TWO_32), TWO_64)
  {
    UFixedPoint64MultiplyAgrees(a, b);
    Fixed.UFixed64MultiplyRounds(Fixed.UFixed64(a.asUint), Fixed.UFixed64(b.asUint));
  }

  lemma UFixedPoint64MultiplyOne(a: UFixedPoint64)
    ensures UFixedPoint64Multiply(a, UFromParts(1, 0)) == a
    ensures UFixedPoint64Multiply(UFromParts(1, 0), a) == a
  {
    UFixedPoint64MultiplyAgrees(a, UFromParts(1, 0));
    UFixedPoint64MultiplyAgrees(UFromParts(1, 0), a);
    Fixed.UFixed64MultiplyOne(Fixed.UFixed64(a.asUint));
  }

  lemma SplitOfParts(k: int, x: int, unit: int)
    requires unit > 0 && 0 <= x < unit
    ensures (k * unit + x) / unit == k && (k * unit + x) % unit == x
  {
    Fixed.DivAddMultiple(k, x, unit);
  }
}
