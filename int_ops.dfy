/** C integer arithmetic as the fixed-point code uses it: the fixed-width integer
    types as ranges of `int`, two's-complement wrap-around (modelled as
    arithmetic modulo 2^n), C's truncating division, and round-half-up to a
    power-of-two unit. Everything else in the project that wraps, rounds or
    divides goes through the definitions here. */
module IntOps {

  const TWO_15: int := 0x8000
  const TWO_16: int := 0x1_0000
  const TWO_17: int := 0x2_0000
  const TWO_31: int := 0x8000_0000
  const TWO_32: int := 0x1_0000_0000
  const TWO_63: int := 0x8000_0000_0000_0000
  const TWO_64: int := 0x1_0000_0000_0000_0000

  type UInt16 = x: int | 0 <= x < 0x1_0000
  type Int32 = x: int | -0x8000_0000 <= x < 0x8000_0000
  type UInt32 = x: int | 0 <= x < 0x1_0000_0000
  type Int64 = x: int | -0x8000_0000_0000_0000 <= x < 0x8000_0000_0000_0000
  type UInt64 = x: int | 0 <= x < 0x1_0000_0000_0000_0000

  /** x and y leave the same remainder modulo m. */
  ghost predicate Congruent(x: int, y: int, m: int)
    requires m > 0
  {
    (x - y) % m == 0
  }

  // ---------------------------------------------------------------------------
  // Wrap-around: the value of x in a container of 32 or 64 bits.

  /** Conversion to a 16-bit unsigned container (`uint16_t`). */
  function WrapU16(x: int): (r: UInt16)
    ensures Congruent(r, x, TWO_16)
  {
    x % TWO_16
  }

  /** Conversion to a 32-bit unsigned container (`uint32_t`). */
  function WrapU32(x: int): (r: UInt32)
    ensures Congruent(r, x, TWO_32)
  {
    x % TWO_32
  }

  /** Conversion to a 32-bit two's-complement container (`int32_t`). */
  function WrapI32(x: int): (r: Int32)
    ensures Congruent(r, x, TWO_32)
  {
    (x + TWO_31) % TWO_32 - TWO_31
  }

  /** Conversion to a 64-bit unsigned container (`uint64_t`). */
  function WrapU64(x: int): (r: UInt64)
    ensures Congruent(r, x, TWO_64)
  {
    x % TWO_64
  }

  /** Conversion to a 64-bit two's-complement container (`int64_t`). */
  function WrapI64(x: int): (r: Int64)
    ensures Congruent(r, x, TWO_64)
  {
    (x + TWO_63) % TWO_64 - TWO_63
  }

  // ---------------------------------------------------------------------------
  // Division and rounding.

  /** C's integer division `n / d`: the quotient truncated toward zero. */
  function TruncDiv(n: int, d: int): (q: int)
    requires d != 0
    ensures n >= 0 ==> 0 <= q * d <= n
    ensures n < 0 ==> n <= q * d <= 0
    ensures Abs(n - q * d) < Abs(d)
  {
    var m := Abs(n) / Abs(d);
    var q := if (n < 0) == (d < 0) then m else -m;
    TruncDivProduct(n, d, m, q);
    q
  }

  function Abs(x: int): (r: nat)
    ensures r == x || r == -x
  {
    if x < 0 then -x else x
  }

  /** True when q is n / unit rounded to the nearest integer, exact halves
      rounded up: n / unit lies in [q - 1/2, q + 1/2). */
  ghost predicate RoundsHalfUp(q: int, n: int, unit: int)
  {
    2 * q * unit - unit <= 2 * n < 2 * q * unit + unit
  }

  /** n / unit rounded half up, for a positive unit. */
  function NearestQuotient(n: int, unit: int): (q: int)
    requires unit > 0
    ensures RoundsHalfUp(q, n, unit)
  {
    var q := (2 * n + unit) / (2 * unit);
    DivBounds(2 * n + unit, 2 * unit);
    assert 2 * q * unit == q * (2 * unit);
    q
  }

  /** There is only one such rounded quotient. */
  lemma RoundsHalfUpUnique(q: int, q': int, n: int, unit: int)
    requires unit > 0
    requires RoundsHalfUp(q, n, unit) && RoundsHalfUp(q', n, unit)
    ensures q == q'
  {
    if q < q' {
      MulAtLeast(q' - q, 2 * unit);
      assert false;
    } else if q' < q {
      MulAtLeast(q - q', 2 * unit);
      assert false;
    }
  }

  // ---------------------------------------------------------------------------
  // Arithmetic facts the proofs above and in the fixed-point modules need.

  lemma MulAtLeast(d: int, m: int)
    requires d >= 1 && m > 0
    ensures d * m >= m
  {
  }

  /** The product of two uint32 values fits in a uint64. */
  lemma ProductFits(a: UInt32, b: UInt32)
    ensures 0 <= a * b < TWO_64
  {
    MulMonotone(a, b, TWO_32 - 1);
    MulMonotone(TWO_32 - 1, a, TWO_32 - 1);
  }

  lemma MulMonotone(x: nat, y: int, z: int)
    requires y <= z
    ensures x * y <= x * z
  {
    assert x * z - x * y == x * (z - y);
  }

  lemma DivBounds(n: int, d: int)
    requires d > 0
    ensures (n / d) * d <= n < (n / d) * d + d
  {
  }

  lemma TruncDivProduct(n: int, d: int, m: int, q: int)
    requires d != 0 && m == Abs(n) / Abs(d)
    requires q == if (n < 0) == (d < 0) then m else -m
    ensures n >= 0 ==> 0 <= q * d <= n
    ensures n < 0 ==> n <= q * d <= 0
    ensures Abs(n - q * d) < Abs(d)
  {
    DivBounds(Abs(n), Abs(d));
    assert m >= 0;
    if d > 0 {
      assert q * d == (if n < 0 then -(m * Abs(d)) else m * Abs(d));
    } else {
      assert q * d == (if n < 0 then -(m * Abs(d)) else m * Abs(d));
    }
  }

  /** (k * m) is a multiple of m. */
  lemma MultipleMod(k: int, m: int)
    requires m > 0
    ensures (k * m) % m == 0
  {
    var q, r := (k * m) / m, (k * m) % m;
    assert (k - q) * m == r;
    if k - q >= 1 {
      MulAtLeast(k - q, m);
      assert false;
    } else if k - q <= -1 {
      MulAtLeast(q - k, m);
      assert false;
    }
  }

  lemma CongruentMultiple(x: int, y: int, m: int)
    requires m > 0 && Congruent(x, y, m)
    ensures x - y == ((x - y) / m) * m
  {
  }

  lemma CongruentSymmetric(x: int, y: int, m: int)
    requires m > 0 && Congruent(x, y, m)
    ensures Congruent(y, x, m)
  {
    CongruentMultiple(x, y, m);
    assert y - x == (-((x - y) / m)) * m;
    MultipleMod(-((x - y) / m), m);
  }

  lemma CongruentTransitive(x: int, y: int, z: int, m: int)
    requires m > 0 && Congruent(x, y, m) && Congruent(y, z, m)
    ensures Congruent(x, z, m)
  {
    CongruentMultiple(x, y, m);
    CongruentMultiple(y, z, m);
    assert x - z == ((x - y) / m + (y - z) / m) * m;
    MultipleMod((x - y) / m + (y - z) / m, m);
  }

  lemma CongruentAdd(x: int, x': int, y: int, y': int, m: int)
    requires m > 0 && Congruent(x, x', m) && Congruent(y, y', m)
    ensures Congruent(x + y, x' + y', m)
  {
    CongruentMultiple(x, x', m);
    CongruentMultiple(y, y', m);
    assert (x + y) - (x' + y') == ((x - x') / m + (y - y') / m) * m;
    MultipleMod((x - x') / m + (y - y') / m, m);
  }

  lemma CongruentSubtract(x: int, x': int, y: int, y': int, m: int)
    requires m > 0 && Congruent(x, x', m) && Congruent(y, y', m)
    ensures Congruent(x - y, x' - y', m)
  {
    CongruentMultiple(x, x', m);
    CongruentMultiple(y, y', m);
    assert (x - y) - (x' - y') == ((x - x') / m - (y - y') / m) * m;
    MultipleMod((x - x') / m - (y - y') / m, m);
  }

  lemma CongruentScale(x: int, x': int, c: int, m: int)
    requires m > 0 && Congruent(x, x', m)
    ensures Congruent(x * c, x' * c, m)
  {
    CongruentMultiple(x, x', m);
    assert x * c - x' * c == (x - x') * c == ((x - x') / m * c) * m;
    MultipleMod((x - x') / m * c, m);
  }

  /** Two values of one container that are congruent modulo its size are equal. */
  lemma CongruentInRange(x: int, y: int, lo: int, m: int)
    requires m > 0 && lo <= x < lo + m && lo <= y < lo + m && Congruent(x, y, m)
    ensures x == y
  {
  }

  /** Adding b and then subtracting it again, each modulo m, gives back a modulo m. */
  lemma WrappedAddSubtract(a: int, b: int, s: int, d: int, m: int)
    requires m > 0 && Congruent(s, a + b, m) && Congruent(d, s - b, m)
    ensures Congruent(d, a, m)
  {
    CongruentSubtract(s, a + b, b, b, m);
    CongruentTransitive(d, s - b, a, m);
  }

  /** Subtracting b and then adding it again, each modulo m, gives back a modulo m. */
  lemma WrappedSubtractAdd(a: int, b: int, s: int, d: int, m: int)
    requires m > 0 && Congruent(s, a - b, m) && Congruent(d, s + b, m)
    ensures Congruent(d, a, m)
  {
    CongruentAdd(s, a - b, b, b, m);
    CongruentTransitive(d, s + b, a, m);
  }
}
