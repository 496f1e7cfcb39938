/** The two integer power routines of the posit pow tests: `ipow(int, int)`,
    exponentiation by squaring over 32-bit ints, and `ipow(int64_t, uint8_t)`,
    the same algorithm unrolled into a switch whose entry point comes from the
    `highest_bit_set` table, computing in a `uint64_t` accumulator. */
module MathPow {
  import opened Arith

  newtype int32 = x: int | -0x8000_0000 <= x < 0x8000_0000
  newtype int64 = x: int | -0x8000_0000_0000_0000 <= x < 0x8000_0000_0000_0000
  newtype uint64 = x: int | 0 <= x < 0x1_0000_0000_0000_0000
  newtype uint8 = x: int | 0 <= x < 0x100

  /** 2^64: the modulus of `uint64_t` arithmetic. */
  const Modulus: int := 0x1_0000_0000_0000_0000

  /** base^exp over the unbounded integers: the reference the routines are proved against. */
  function Pow(base: int, exp: nat): int
  {
    if exp == 0 then 1 else base * Pow(base, exp - 1)
  }

  predicate InInt32(x: int)
  {
    -0x8000_0000 <= x < 0x8000_0000
  }

  /** The representative of x modulo 2^64 in the int64 range, i.e. what a
      two's-complement machine keeps of x in 64 bits. */
  function Wrap64(x: int): (r: int)
    ensures -0x8000_0000_0000_0000 <= r < 0x8000_0000_0000_0000
    ensures r % Modulus == x % Modulus
  {
    var u := x % Modulus;
    if u < 0x8000_0000_0000_0000 then u
    else
      ModAddMultiple(u - Modulus, 1, Modulus);
      ModAddMultiple(x % Modulus, x / Modulus, Modulus);
      u - Modulus
  }

  // ---------------------------------------------------------------------
  // Facts about Pow

  lemma {:induction false} PowSquare(b: int, n: nat)
    ensures Pow(b * b, n) == Pow(b, 2 * n)
  {
    if n > 0 {
      var q := Pow(b, 2 * n - 2);
      PowSquare(b, n - 1);
      assert Pow(b * b, n) == (b * b) * q;
      assert Pow(b, 2 * n) == b * (b * q);
    }
  }

  /** One step of square-and-multiply: b^e == b^(e mod 2) * (b*b)^(e div 2). */
  lemma PowHalve(b: int, e: nat)
    ensures Pow(b, e) == Pow(b, e % 2) * Pow(b * b, e / 2)
  {
    var h := e / 2;
    PowSquare(b, h);
    if e % 2 == 1 {
      assert e == 2 * h + 1;
      assert Pow(b, e) == b * Pow(b, 2 * h);
    } else {
      assert e == 2 * h;
    }
  }

  lemma {:induction false} PowNonnegative(b: int, n: nat)
    requires b >= 0
    ensures Pow(b, n) >= 0
  {
    if n > 0 {
      PowNonnegative(b, n - 1);
      MulMonotone(0, b, Pow(b, n - 1));
    }
  }

  /** A power of a nonzero base is nonzero. */
  lemma {:induction false} PowNonzero(b: int, n: nat)
    requires b != 0
    ensures Pow(b, n) != 0
  {
    if n > 0 {
      PowNonzero(b, n - 1);
    }
  }

  /** Congruent bases give congruent powers. */
  lemma {:induction false} PowCongruent(x: int, y: int, n: nat, m: int)
    requires m > 0 && x % m == y % m
    ensures Pow(x, n) % m == Pow(y, n) % m
  {
    if n > 0 {
      PowCongruent(x, y, n - 1, m);
      ModMul(x, Pow(x, n - 1), m);
      ModMul(y, Pow(y, n - 1), m);
    }
  }

  lemma MulCongruent(a: int, a': int, b: int, b': int, m: int)
    requires m > 0 && a % m == a' % m && b % m == b' % m
    ensures (a * b) % m == (a' * b') % m
  {
    ModMul(a, b, m);
    ModMul(a', b', m);
  }

  // ---------------------------------------------------------------------
  // ipow(int base, int exp)

  /** A factor of P by a positive cofactor lies between 0 and P. */
  lemma FactorBetween(x: int, y: int, p: int)
    requires x * y == p && y >= 1
    ensures p >= 0 ==> 0 <= x <= p
    ensures p < 0 ==> p <= x < 0
  {
    if x > 0 {
      MulMonotone(1, y, x);
    } else if x < 0 {
      MulMonotone(1, y, -x);
    }
  }

  /** 2^31 is not a perfect square, so squaring an int never lands exactly on it. */
  lemma NotSquareOf2To31(x: int)
    ensures x * x != 0x8000_0000
  {
    var a := if x >= 0 then x else -x;
    assert x * x == a * a;
    if a <= 46340 {
      MulMonotone(a, 46340, a);
      MulMonotone(a, 46340, 46340);
    } else {
      MulMonotone(46341, a, a);
      MulMonotone(46341, a, 46341);
    }
  }

  /** The multiply half of one iteration, `if (exp & 1) result *= base;`:
      it keeps result * base^exp == power with base squared and exp halved,
      and the new result lies between 0 and power, so it fits an int. */
  lemma MultiplyStep(r: int, b: int, e: nat, power: int)
    requires r * Pow(b, e) == power && InInt32(power) && InInt32(r)
    requires r == 0 ==> b == 0
    ensures var r' := if e % 2 == 1 then r * b else r;
      && InInt32(r')
      && r' * Pow(b * b, e / 2) == power
      && (r' == 0 ==> b == 0)
  {
    PowHalve(b, e);
    if e % 2 == 1 {
      assert Pow(b, e % 2) == b;
      MultiplyOdd(r, b, e / 2, power);
    } else {
      assert Pow(b, e % 2) == 1;
    }
  }

  /** The odd case: result * base divides power by (base*base)^h, so it
      lies between 0 and power. */
  lemma MultiplyOdd(r: int, b: int, h: nat, power: int)
    requires r * (b * Pow(b * b, h)) == power && InInt32(power)
    requires r == 0 ==> b == 0
    ensures InInt32(r * b) && (r * b) * Pow(b * b, h) == power
    ensures r * b == 0 ==> b == 0
  {
    var rest := Pow(b * b, h);
    assert (r * b) * rest == power;
    if b != 0 {
      PowNonzero(b * b, h);
      PowNonnegative(b * b, h);
      FactorBetween(r * b, rest, power);
    }
  }

  /** The squaring half, `base *= base`, reached only while bits of exp
      remain: base * base divides power, so it fits an int. */
  lemma SquareStep(r: int, b: int, h: nat, power: int)
    requires h >= 1 && r * Pow(b * b, h) == power && InInt32(power)
    requires r == 0 ==> b == 0
    ensures InInt32(b * b)
    ensures r == 0 ==> b * b == 0
  {
    var bb := b * b;
    if r != 0 && b != 0 {
      var q := Pow(bb, h - 1);
      PowNonzero(bb, h - 1);
      assert power == bb * (r * q);
      NotSquareOf2To31(b);
      DivisorFits(bb, r * q, power);
    }
  }

  /** A non-negative divisor of an int other than 2^31 fits an int. */
  lemma DivisorFits(d: int, c: int, p: int)
    requires d * c == p && c != 0 && InInt32(p) && d >= 0 && d != 0x8000_0000
    ensures InInt32(d)
  {
    if c > 0 {
      FactorBetween(d, c, p);
    } else {
      assert d * (-c) == -p;
      FactorBetween(d, -c, -p);
    }
  }

  /** `ipow(int, int)`: exponentiation by squaring. The exponent must be
      non-negative (a negative one never reaches 0 under `>>= 1`) and the power
      must fit an int (signed overflow is undefined); under those conditions no
      intermediate product overflows and the result is base^exp. */
  method IPow(base: int32, exp: int32) returns (result: int32)
    requires exp >= 0
    requires InInt32(Pow(base as int, exp as nat))
    ensures result as int == Pow(base as int, exp as nat)
  {
    ghost var power := Pow(base as int, exp as nat);
    var b, e := base, exp;
    result := 1;
    while true
      invariant e >= 0
      invariant result as int * Pow(b as int, e as nat) == power
      invariant result == 0 ==> b == 0
      decreases e
    {
      MultiplyStep(result as int, b as int, e as nat, power);
      if e % 2 == 1 {
        result := result * b;
      }
      e := e / 2;
      if e == 0 {
        break;
      }
      SquareStep(result as int, b as int, e as nat, power);
      b := b * b;
    }
  }

  // ---------------------------------------------------------------------
  // ipow(int64_t base, uint8_t exp)

  /** The `highest_bit_set` lookup table, row by row as in the source. */
  const HighestBitSet: seq<uint8> :=
    (((([0, 1, 2, 2, 3, 3, 3, 3] +
    [4, 4, 4, 4, 4, 4, 4, 4]) +
    ([5, 5, 5, 5, 5, 5, 5, 5] +
    [5, 5, 5, 5, 5, 5, 5, 5])) +
    (([6, 6, 6, 6, 6, 6, 6, 6] +
    [6, 6, 6, 6, 6, 6, 6, 6]) +
    ([6, 6, 6, 6, 6, 6, 6, 6] +
    [6, 6, 6, 6, 6, 6, 6, 255]))) +
    ((([255, 255, 255, 255, 255, 255, 255, 255] +
    [255, 255, 255, 255, 255, 255, 255, 255]) +
    ([255, 255, 255, 255, 255, 255, 255, 255] +
    [255, 255, 255, 255, 255, 255, 255, 255])) +
    (([255, 255, 255, 255, 255, 255, 255, 255] +
    [255, 255, 255, 255, 255, 255, 255, 255]) +
    ([255, 255, 255, 255, 255, 255, 255, 255] +
    [255, 255, 255, 255, 255, 255, 255, 255])))) +
    (((([255, 255, 255, 255, 255, 255, 255, 255] +
    [255, 255, 255, 255, 255, 255, 255, 255]) +
    ([255, 255, 255, 255, 255, 255, 255, 255] +
    [255, 255, 255, 255, 255, 255, 255, 255])) +
    (([255, 255, 255, 255, 255, 255, 255, 255] +
    [255, 255, 255, 255, 255, 255, 255, 255]) +
    ([255, 255, 255, 255, 255, 255, 255, 255] +
    [255, 255, 255, 255, 255, 255, 255, 255]))) +
    ((([255, 255, 255, 255, 255, 255, 255, 255] +
    [255, 255, 255, 255, 255, 255, 255, 255]) +
    ([255, 255, 255, 255, 255, 255, 255, 255] +
    [255, 255, 255, 255, 255, 255, 255, 255])) +
    (([255, 255, 255, 255, 255, 255, 255, 255] +
    [255, 255, 255, 255, 255, 255, 255, 255]) +
    ([255, 255, 255, 255, 255, 255, 255, 255] +
    [255, 255, 255, 255, 255, 255, 255, 255]))))

  /** The number of bits needed to write e: 0 for 0, floor(log2 e) + 1 otherwise. */
  function BitLength(e: nat): nat
  {
    if e == 0 then 0 else 1 + BitLength(e / 2)
  }

  lemma {:induction false} BitLengthIs(e: nat, len: nat)
    requires len >= 1 && Pow2(len - 1) <= e < Pow2(len)
    ensures BitLength(e) == len
  {
    if len > 1 {
      BitLengthIs(e / 2, len - 1);
    }
  }

  lemma TableSmall(e: nat)
    requires e < 32
    ensures HighestBitSet[e] as int ==
      if e == 0 then 0 else if e == 1 then 1 else if e < 4 then 2
      else if e < 8 then 3 else if e < 16 then 4 else 5
  {
  }

  lemma TableSix(e: nat)
    requires 32 <= e < 63
    ensures HighestBitSet[e] == 6
  {
  }

  lemma TableOverflowLow(e: nat)
    requires 63 <= e < 128
    ensures HighestBitSet[e] == 255
  {
  }

  lemma TableOverflowMid(e: nat)
    requires 128 <= e < 192
    ensures HighestBitSet[e] == 255
  {
  }

  lemma TableOverflowHigh(e: nat)
    requires 192 <= e < 256
    ensures HighestBitSet[e] == 255
  {
  }

  /** Entry e of `highest_bit_set` is the bit length of e for e < 63 and the
      overflow marker 255 from 63 on (entry 63 already holds 255). */
  lemma HighestBitSetIsBitLength(e: nat)
    requires e < 256
    ensures e < 63 ==> HighestBitSet[e] as int == BitLength(e) <= 6
    ensures e >= 63 <==> HighestBitSet[e] == 255
  {
    if e < 32 {
      TableSmall(e);
      if e == 0 {
      } else if e == 1 {
        BitLengthIs(e, 1);
      } else if e < 4 {
        BitLengthIs(e, 2);
      } else if e < 8 {
        BitLengthIs(e, 3);
      } else if e < 16 {
        BitLengthIs(e, 4);
      } else {
        BitLengthIs(e, 5);
      }
    } else if e < 63 {
      TableSix(e);
      BitLengthIs(e, 6);
    } else if e < 128 {
      TableOverflowLow(e);
    } else if e < 192 {
      TableOverflowMid(e);
    } else {
      TableOverflowHigh(e);
    }
  }

  lemma {:induction false} BitLengthBound(e: nat)
    ensures e < Pow2(BitLength(e))
  {
    if e > 0 {
      BitLengthBound(e / 2);
    }
  }

  /** `result *= base` with a `uint64_t` result: base is converted to
      `uint64_t` and the product is kept modulo 2^64. */
  function MulUnsigned(result: uint64, base: int64): (r: uint64)
    ensures r as int % Modulus == (result as int * base as int) % Modulus
  {
    MulResidue(result as int, base as int, Modulus);
    ((result as int * (base as int % Modulus)) % Modulus) as uint64
  }

  /** The arithmetic behind one case block, modulo any m: multiplying in
      base^(exp mod 2), squaring the base and halving the exponent keep
      result * base^exp unchanged modulo m. */
  lemma StepCongruence(result: int, result': int, base: int, base': int, exp: nat, m: int)
    requires m > 0
    requires result' % m == (result * Pow(base, exp % 2)) % m
    requires base' % m == (base * base) % m
    ensures (result' * Pow(base', exp / 2)) % m == (result * Pow(base, exp)) % m
  {
    var low := Pow(base, exp % 2);
    var high := Pow(base * base, exp / 2);
    PowHalve(base, exp);
    PowCongruent(base', base * base, exp / 2, m);
    MulCongruent(result', result * low, Pow(base', exp / 2), high, m);
    assert result * Pow(base, exp) == (result * low) * high;
  }

  /** One case block of the switch: `if (exp & 1) result *= base; exp >>= 1;
      base *= base;`. The signed `base *= base` is taken to wrap modulo 2^64.
      The block halves the exponent and keeps result * base^exp unchanged
      modulo 2^64. */
  method FallThroughCase(result: uint64, base: int64, exp: uint8, ghost left: int, ghost power: int)
    returns (result': uint64, base': int64, exp': uint8)
    requires Pending(result, base, exp, left, power) && left >= 1
    ensures exp' as int == exp as int / 2
    ensures (result' as int * Pow(base' as int, exp' as nat)) % Modulus
         == (result as int * Pow(base as int, exp as nat)) % Modulus
    ensures Pending(result', base', exp', left - 1, power)
  {
    result' := result;
    if exp % 2 == 1 {
      result' := MulUnsigned(result, base);
      assert Pow(base as int, exp as nat % 2) == base as int;
    } else {
      assert Pow(base as int, exp as nat % 2) == 1;
    }
    exp' := exp / 2;
    base' := Wrap64(base as int * base as int) as int64;
    StepCongruence(result as int, result' as int, base as int, base' as int, exp as nat, Modulus);
  }

  /** What the switch keeps while it consumes the exponent: `left` bits of
      exp remain and result * base^exp is congruent to the power sought. */
  ghost predicate Pending(result: uint64, base: int64, exp: uint8, left: int, power: int)
  {
    && 0 <= left
    && exp as int < Pow2(left)
    && (result as int * Pow(base as int, exp as nat)) % Modulus == power
  }

  /** Case 1 and `default`: with at most one exponent bit left, multiplying
      it in leaves exactly the power sought, modulo 2^64. */
  lemma LastCase(before: uint64, result: uint64, base: int64, exp: uint8, left: int, power: int)
    requires Pending(before, base, exp, left, power) && left <= 1
    requires result == if exp % 2 == 1 then MulUnsigned(before, base) else before
    ensures result as int % Modulus == power
  {
    if exp == 1 {
      assert Pow(base as int, 1) == base as int;
    } else {
      assert exp == 0;
    }
  }

  /** `ipow(int64_t, uint8_t)`. For exp >= 63 the table sends it to the
      overflow case, which returns the exact power for base 1 and -1 and 0 for
      every other base; for exp < 63 it returns base^exp reduced modulo 2^64
      and read back as a signed 64-bit value. */
  method IPow64(base: int64, exp: uint8) returns (r: int64)
    ensures exp >= 63 && base == 1 ==> r == 1
    ensures exp >= 63 && base == -1 ==> r as int == Pow(-1, exp as nat)
    ensures exp >= 63 && base != 1 && base != -1 ==> r == 0
    ensures exp < 63 ==> r as int == Wrap64(Pow(base as int, exp as nat))
  {
    HighestBitSetIsBitLength(exp as nat);
    var b, e := base, exp;
    var result: uint64 := 1;
    var hb := HighestBitSet[e];
    if hb == 255 {
      // the overflow marker
      if b == 1 {
        return 1;
      }
      if b == -1 {
        MinusOnePow(e as nat);
        return 1 - 2 * (e % 2) as int64;
      }
      return 0;
    }
    BitLengthBound(e as nat);
    ghost var power := Pow(base as int, exp as nat) % Modulus;
    assert Pending(result, b, e, hb as int, power);
    // Entering the switch at case hb runs that case and every case below it;
    // whenever case c runs, exactly c bits of the exponent are left.
    if hb >= 6 {
      result, b, e := FallThroughCase(result, b, e, 6, power);
    }
    assert Pending(result, b, e, if hb >= 5 then 5 else hb as int, power);
    if hb >= 5 {
      result, b, e := FallThroughCase(result, b, e, 5, power);
    }
    assert Pending(result, b, e, if hb >= 4 then 4 else hb as int, power);
    if hb >= 4 {
      result, b, e := FallThroughCase(result, b, e, 4, power);
    }
    assert Pending(result, b, e, if hb >= 3 then 3 else hb as int, power);
    if hb >= 3 {
      result, b, e := FallThroughCase(result, b, e, 3, power);
    }
    assert Pending(result, b, e, if hb >= 2 then 2 else hb as int, power);
    if hb >= 2 {
      result, b, e := FallThroughCase(result, b, e, 2, power);
    }
    ghost var left := if hb >= 1 then 1 else hb as int;
    assert Pending(result, b, e, left, power);
    ghost var before := result;
    if hb >= 1 {
      if e % 2 == 1 {
        result := MulUnsigned(result, b);
      }
    }
    LastCase(before, result, b, e, left, power);
    r := Wrap64(result as int) as int64;
  }

  /** (-1)^exp is 1 - 2 * (exp & 1). */
  lemma {:induction false} MinusOnePow(exp: nat)
    ensures Pow(-1, exp) == 1 - 2 * (exp % 2)
  {
    if exp > 0 {
      MinusOnePow(exp - 1);
    }
  }

  /** Both overloads on the same base and exponent. Whenever base^exp fits
      an int, `ipow(int, int)` is defined and the two return the same value,
      base^exp itself: below exponent 63 the 64-bit wrap leaves it alone,
      and from 63 on the only such bases are -1, 0 and 1, which the
      overflow case of `ipow(int64_t, uint8_t)` handles exactly. */
  method OverloadsAgree(base: int32, exp: uint8) returns (narrow: int32, wide: int64)
    requires InInt32(Pow(base as int, exp as nat))
    ensures narrow as int == wide as int == Pow(base as int, exp as nat)
  {
    narrow := IPow(base, exp as int32);
    wide := IPow64(base as int64, exp);
    var p := Pow(base as int, exp as nat);
    if exp < 63 {
      WrapKeepsInt64(p);
    } else if base == 0 {
      PowZero(exp as nat);
    } else if base == 1 {
      PowOne(exp as nat);
    } else if base != -1 {
      PowGrows(base as int, exp as nat);
      Pow2Monotone(32, exp as nat);
      Pow2Of32();
      assert false;
    }
  }

  lemma Pow2Of32()
    ensures Pow2(32) == 0x1_0000_0000
  {
    assert Pow2(8) == 0x100;
    Pow2Add(8, 8);
    Pow2Add(16, 8);
    Pow2Add(24, 8);
  }

  lemma {:induction false} PowOne(e: nat)
    ensures Pow(1, e) == 1
  {
    if e > 0 {
      PowOne(e - 1);
    }
  }

  /** The 64-bit wrap leaves a value of the int64 range unchanged. */
  lemma WrapKeepsInt64(x: int)
    requires -0x8000_0000_0000_0000 <= x < 0x8000_0000_0000_0000
    ensures Wrap64(x) == x
  {
    if x >= 0 {
      DivModUnique(x, Modulus, 0, x);
    } else {
      DivModUnique(x, Modulus, -1, x + Modulus);
    }
  }

  lemma PowZero(e: nat)
    requires e >= 1
    ensures Pow(0, e) == 0
  {
  }

  /** A base of magnitude at least 2 raised to e has magnitude at least 2^e. */
  lemma {:induction false} PowGrows(b: int, e: nat)
    requires b >= 2 || b <= -2
    ensures Pow(b, e) >= Pow2(e) || -Pow(b, e) >= Pow2(e)
  {
    if e > 0 {
      PowGrows(b, e - 1);
      DoubleMagnitude(b, Pow(b, e - 1), Pow2(e - 1));
    }
  }

  /** Multiplying by a factor of magnitude at least 2 at least doubles a magnitude. */
  lemma DoubleMagnitude(b: int, x: int, m: int)
    requires (b >= 2 || b <= -2) && (x >= m || -x >= m) && m >= 0
    ensures b * x >= 2 * m || -(b * x) >= 2 * m
  {
    var ab, ax := if b >= 0 then b else -b, if x >= 0 then x else -x;
    assert ab * ax == b * x || ab * ax == -(b * x);
    MulMonotone(2, ab, ax);
    MulMonotone(m, ax, 2);
  }

  /** The manual calls of the test driver: 2^5 with the int overload,
      1024^2 and (1024^2)^2 with the int64_t one. */
  method ManualTesting() returns (x: int32, y: int64, z: int64)
    ensures x == 32 && y == 0x10_0000 && z == 0x100_0000_0000
  {
    x := IPow(2, 5);
    y := IPow64(1024, 2);
    z := IPow64(y, 2);
  }
}
