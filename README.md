# Integer/posit adapter and integer powers of the Universal number library

This project models two pieces of the Universal number library.

1. **The integer/posit adapter.** `convert_i2p` takes a fixed-width integer
   `integer<ibits>` apart into the decoded value that a posit is built from:
   - the sign and the zero flag;
   - the scale, which is the index of the leading one of |w|;
   - the fraction: the bits of |w| below the leading one, left-aligned in an
     `ibits`-wide buffer.

   `convert_p2i` goes the other way and rebuilds an `n`-bit integer in place
   from a posit's scale, significand and sign:
   - a negative scale gives 0;
   - a zero scale gives 1;
   - otherwise the significand's low bits are loaded and shifted by
     `scale - fbits`, then complemented and incremented for a negative posit.

2. **The two `ipow` routines** of the posit power test driver:
   - `ipow(int, int)` is exponentiation by squaring on 32-bit ints.
   - `ipow(int64_t, uint8_t)` is the same algorithm unrolled into a
     fall-through `switch`. The `highest_bit_set` table chooses the entry
     case, and the value 255 marks an overflow.

Integers are bit sequences, least significant bit first (`Bits`), and
`UValue`/`SValue` read them as unsigned and two's-complement numbers.
`integer<nbits>` is modelled as follows:
- `twos_complement` is `Flip` followed by `Increment`;
- `findMsb` is `FindMsb`;
- `<<=` is `ShiftBits`, a logical shift that shifts right when the amount is
  negative.

The rest of the model:
- The decoded value `value<ibits>` is the `Decoded` datatype.
- What `convert_p2i` reads from a posit is the `PositView` datatype: scale,
  significand, sign and `fbits`.
- `convert_p2i` writes its result into an `array<bool>`, as the source writes
  into `v`.
- The fixed-width C++ integers of `math_pow.cpp` are newtypes (`int32`,
  `int64`, `uint64`, `uint8`).
- Unsigned 64-bit products are kept modulo 2^64.

The round trip is stated for a posit that holds w exactly. `RoundTrip.ExactView`
is that posit with a significand of `f` fraction bits, for any `f` with
|w| < 2^(f+1). It is an idealised posit: a tapered posit's regime takes
fraction bits away at large scales, so `p = v` need not produce it (see
"## Left out"). Three properties connect the two directions of the adapter
on it:
- `P2ICorrected` converts the exact posit back to the original integer, for
  every `f` (`RoundTrip.RoundTripCorrected`).
- The code as written does the same, except for -1, when the whole
  significand fits the integer, that is f + 1 <= ibits
  (`RoundTrip.RoundTripAsWritten`).
- When f + 1 > ibits, the code as written never gives back an integer of
  scale > 0 (`RoundTrip.RoundTripNarrowFails`).

## Model

| member | source | states |
|---|---|---|
| IntegerToPosit.ConvertI2P | include/universal/adapters/adapt_integer_and_posit.hpp:72-94 | The buffer-filling loop produces exactly the decoded value `DecodeInteger(w)`, and it writes to the buffer `scale` times when scale > 0, otherwise not at all. |
| IntegerToPosit.DecodedLayout | include/universal/adapters/adapt_integer_and_posit.hpp:78-92 | sign is set iff w < 0; isZero is set iff w == 0; inf and NaN are never set; scale is the magnitude's leading-one index, in -1..ibits-1; bits scale-1..0 of the magnitude fill the top of the fraction in order; every fraction bit below them is 0. |
| IntegerToPosit.MagnitudeValue | include/universal/adapters/adapt_integer_and_posit.hpp:83 | `w2` reads unsigned as \|w\|. This holds for the most negative value too, whose negation is itself. |
| IntegerToPosit.ScaleBounds | include/universal/adapters/adapt_integer_and_posit.hpp:82-84 | The scale is -1 exactly for zero. Otherwise 2^scale <= \|w\| < 2^(scale+1). |
| IntegerToPosit.FractionValue | include/universal/adapters/adapt_integer_and_posit.hpp:84-92 | No magnitude bit is lost: \|w\| = 2^scale + low, and the fraction reads as low * 2^(ibits-scale). Here low is the value of the bits of w2 below its leading one. |
| IntegerToPosit.FractionZeroIff | include/universal/adapters/adapt_integer_and_posit.hpp:85-90 | The fraction is all zeros iff w is 0 or \|w\| is a power of two. |
| IntegerToPosit.ScaleMonotone | include/universal/adapters/adapt_integer_and_posit.hpp:82 | A larger nonzero magnitude never has a smaller scale. |
| IntegerToPosit.MostNegative | include/universal/adapters/adapt_integer_and_posit.hpp:83-92 | The most negative integer decodes as negative, with scale ibits-1 and an all-zero fraction. |
| IntegerToPosit.LeftAlignedValue | include/universal/adapters/adapt_integer_and_posit.hpp:85-90 | The left-aligned buffer reads as the bits below msb times 2^(n-msb). |
| PositToInteger.ClearInPlace | include/universal/adapters/adapt_integer_and_posit.hpp:41-44 | `v = 0` leaves every bit of `v` clear. |
| PositToInteger.SetOneInPlace | include/universal/adapters/adapt_integer_and_posit.hpp:45-47 | `v = 1` leaves `v` equal to the pattern of the integer 1. |
| PositToInteger.LoadInPlace | include/universal/adapters/adapt_integer_and_posit.hpp:55-59 | After `v.clear()` and the copy loop, `v` holds significand bits min(n, fbits+1)-1..0 in place, and every bit above them is clear. |
| PositToInteger.ConvertP2I | include/universal/adapters/adapt_integer_and_posit.hpp:38-67 | The in-place conversion leaves `v` equal to `P2IBits(p, n)`. A negative scale gives all zeros. A zero scale gives the pattern of 1. |
| PositToInteger.ShiftInPlace | include/universal/adapters/adapt_integer_and_posit.hpp:60-61 | `v <<= shift` leaves `v` equal to the old bits shifted by `shift` (right when negative). |
| PositToInteger.FlipInPlace | include/universal/adapters/adapt_integer_and_posit.hpp:63 | `v.flip()` leaves every bit inverted. |
| PositToInteger.IncrementInPlace | include/universal/adapters/adapt_integer_and_posit.hpp:64 | `v += 1` leaves `v` equal to the old bits incremented modulo 2^n. |
| Bits.ShiftLeftValue | include/universal/adapters/adapt_integer_and_posit.hpp:60-61 | A left shift by k multiplies by 2^k modulo 2^n. |
| Bits.ShiftRightValue | include/universal/adapters/adapt_integer_and_posit.hpp:60-61 | A right shift by j divides by 2^j, rounding down. |
| Bits.FlipValue | include/universal/adapters/adapt_integer_and_posit.hpp:63 | Flipping reads as 2^n - 1 - x. |
| Bits.IncrementValue | include/universal/adapters/adapt_integer_and_posit.hpp:64 | Incrementing reads as x + 1, or 0 when x was 2^n - 1. |
| Bits.TwosComplementValue | include/universal/adapters/adapt_integer_and_posit.hpp:62-65 | Complement-and-add-one reads as 2^n - x, or as 0 for x = 0. |
| Bits.NegativeMagnitude | include/universal/adapters/adapt_integer_and_posit.hpp:83 | The two's complement of a negative integer reads unsigned as its absolute value. |
| Bits.TwosComplementInvolutive | include/universal/adapters/adapt_integer_and_posit.hpp:62-65 | Negating twice gives the original bits back. |
| Bits.MsbBounds | include/universal/adapters/adapt_integer_and_posit.hpp:84 | findMsb is -1 exactly for 0. Otherwise 2^msb <= value < 2^(msb+1). |
| Bits.SValueRange | include/universal/adapters/adapt_integer_and_posit.hpp:78 | A two's-complement value lies in [-2^(n-1), 2^(n-1)) and is negative iff its top bit is set. |
| PositToInteger.FractionalTruncatesToZero | include/universal/adapters/adapt_integer_and_posit.hpp:41-44 | A posit with negative scale (magnitude below 1) truncates to 0, so returning 0 is exact. |
| PositToInteger.AlignedValue | include/universal/adapters/adapt_integer_and_posit.hpp:55-61 | The significand moved to its place (hidden bit kept) holds the magnitude truncated toward zero, modulo 2^n. |
| PositToInteger.CorrectedWraps | include/universal/adapters/adapt_integer_and_posit.hpp:55-65 | The corrected conversion reads unsigned as +Trunc or -Trunc modulo 2^n, by sign. |
| PositToInteger.CorrectedValue | include/universal/adapters/adapt_integer_and_posit.hpp:38-67 | Whenever the truncated value fits the whole signed range of n bits (down to -2^(n-1) for a negative posit, below 2^(n-1) for a positive one), the corrected conversion yields the posit's value truncated toward zero, with its sign. |
| PositToInteger.AsWrittenAgrees | include/universal/adapters/adapt_integer_and_posit.hpp:48-65 | With a positive scale and room for the whole significand, the code as written computes exactly the corrected conversion. |
| PositToInteger.P2ISigned | include/universal/adapters/adapt_integer_and_posit.hpp:48-65 | Under the same conditions, with a value anywhere in the signed range of n bits, the code as written truncates toward zero for both signs. |
| PositToInteger.MostNegativeResult | include/universal/adapters/adapt_integer_and_posit.hpp:48-65 | Posit -128.0 with 5 fraction bits becomes -128, the most negative 8-bit integer. |
| PositToInteger.ExactShift | include/universal/adapters/adapt_integer_and_posit.hpp:55-61 | For a non-negative posit with fbits <= scale < n, the result's bits read unsigned as significand * 2^(scale-fbits), nothing dropped. Below scale n-1 they also read so as a signed integer. |
| PositToInteger.PositiveTopScaleWraps | include/universal/adapters/adapt_integer_and_posit.hpp:55-61 | At scale n-1 the result's top bit is set: posit +128.0 with 5 fraction bits reads 128 unsigned and -128 signed in an 8-bit integer. |
| PositToInteger.UnitValue | include/universal/adapters/adapt_integer_and_posit.hpp:45-47 | The pattern written for `v = 1` reads as 1, signed and unsigned. |
| PositToInteger.ScaleZeroIgnoresSign | include/universal/adapters/adapt_integer_and_posit.hpp:45-47 | On the scale-0 path the result is +1 for both signs (see Findings). |
| PositToInteger.ScaleZeroDropsSign | include/universal/adapters/adapt_integer_and_posit.hpp:45-47 | Posit -1.0 gives +1, while the corrected conversion gives -1. |
| PositToInteger.NarrowTargetDropsHiddenBit | include/universal/adapters/adapt_integer_and_posit.hpp:56-59 | Posit 8.0 with 12 fraction bits gives 0 in an 8-bit integer, while the corrected conversion gives 8. |
| RoundTrip.ExactView | include/universal/adapters/adapt_integer_and_posit.hpp:92 | The posit with f fraction bits built from a decoded integer of scale at most f has the decoded scale and sign, exactly f fraction bits, and its hidden bit set. That the significand holds \|w\| exactly is `RoundTrip.ExactViewExact`. |
| RoundTrip.ExactViewExact | include/universal/adapters/adapt_integer_and_posit.hpp:83-92 | The exact posit holds \|w\| exactly: its significand is f - scale zeros, then the bits of w2 below the leading one, then the hidden bit, and it reads as \|w\| * 2^(f - scale). |
| RoundTrip.RepresentableScale | include/universal/adapters/adapt_integer_and_posit.hpp:82-84 | A nonzero integer with \|w\| < 2^(f+1) has a scale between 0 and f, and below ibits. |
| RoundTrip.ExactViewAligned | include/universal/adapters/adapt_integer_and_posit.hpp:83-90 | For every fraction width f that holds w exactly, aligning the posit's significand at its scale rebuilds the magnitude w2 bit for bit. |
| RoundTrip.RoundTripCorrected | include/universal/adapters/adapt_integer_and_posit.hpp:38-94 | For every nonzero integer w and every fraction width f with \|w\| < 2^(f+1), the corrected integer conversion applied to w's exact posit gives back w. |
| RoundTrip.RoundTripAsWritten | include/universal/adapters/adapt_integer_and_posit.hpp:38-94 | When f + 1 <= ibits, the code as written round-trips every such integer except -1. |
| RoundTrip.RoundTripNarrowFails | include/universal/adapters/adapt_integer_and_posit.hpp:55-65 | When f >= ibits and the scale is positive, what the code as written returns reads below 2^scale in signed magnitude, so it is never w (see Findings). |
| RoundTrip.FiveThroughTwelveFractionBits | include/universal/adapters/adapt_integer_and_posit.hpp:38-94 | Integer<8> 5, through the posit with 12 fraction bits that holds it exactly, comes back as 0 as written and as 5 corrected. |
| RoundTrip.MinusOneComesBackPositive | include/universal/adapters/adapt_integer_and_posit.hpp:45-47 | -1 decodes to scale 0 and comes back as +1, for every fraction width. |
| MathPow.IPow | tests/posit/math_pow.cpp:40-53 | For exp >= 0 and a power that fits an int, the loop returns base^exp and no intermediate product overflows. |
| MathPow.MultiplyStep | tests/posit/math_pow.cpp:44-46 | `if (exp & 1) result *= base` keeps result * base^exp equal to the power, with exp halved and base squared, and keeps result in the int range. |
| MathPow.SquareStep | tests/posit/math_pow.cpp:47-49 | `base *= base`, reached only while exp is nonzero, stays in the int range. |
| MathPow.HighestBitSetIsBitLength | tests/posit/math_pow.cpp:61-94 | Table entry e is the bit length of e (at most 6) for e < 63. It is the marker 255 iff e >= 63. |
| MathPow.BitLengthBound | tests/posit/math_pow.cpp:61-69 | e < 2^(bit length of e), so the switch entered at case `highest_bit_set[exp]` consumes every exponent bit. |
| MathPow.MulUnsigned | tests/posit/math_pow.cpp:110 | `result *= base` on a `uint64_t` result is the product modulo 2^64. |
| MathPow.StepCongruence | tests/posit/math_pow.cpp:109-128 | One case block keeps result * base^exp unchanged modulo m. |
| MathPow.FallThroughCase | tests/posit/math_pow.cpp:109-128 | One case block halves exp and keeps result * base^exp congruent to the power modulo 2^64. |
| MathPow.LastCase | tests/posit/math_pow.cpp:129-132 | Case 1 and `default` leave exactly the power modulo 2^64. |
| MathPow.IPow64 | tests/posit/math_pow.cpp:60-134 | Results by case: exp >= 63 with base 1 gives 1; exp >= 63 with base -1 gives (-1)^exp; exp >= 63 with any other base gives 0; exp < 63 gives base^exp wrapped to 64-bit two's complement. |
| MathPow.MinusOnePow | tests/posit/math_pow.cpp:104-106 | `1 - 2 * (exp & 1)` equals (-1)^exp. |
| MathPow.Wrap64 | tests/posit/math_pow.cpp:96-132 | The 64-bit two's-complement reading is in the int64 range and congruent to x modulo 2^64. |
| MathPow.OverloadsAgree | tests/posit/math_pow.cpp:40-134 | Called on the same base and a `uint8_t` exponent, both overloads return base^exp whenever it fits an int, exponents of 63 and above included. |
| MathPow.ManualTesting | tests/posit/math_pow.cpp:154-161 | The driver's calls give 2^5 = 32, 1024^2 = 2^20 and (1024^2)^2 = 2^40. |

## Left out

- `p = v`, the posit encoding of the decoded value (regime, exponent, rounding): it belongs to the posit type, not the adapter. The round trip is stated on the exact posit `RoundTrip.ExactView` of the decoded value, whose significand `RoundTrip.ExactViewExact` shows holds \|w\| exactly.
- RoundTrip.ExactView: |w| < 2^(fbits+1) does not by itself make `p = v` exact. A tapered posit's regime uses up fraction bits at large scales. `Posit::fbits` is only the width of the significand buffer, not the precision at every scale. In `posit<8,0>` (fbits 5), for instance, scale 5 leaves no fraction bits, so integer<8> 63 is rounded to 64, and lines 55-61 of adapt_integer_and_posit.hpp return 64. The round-trip lemmas hold for posits that do hold w exactly, which `ExactView` models. The posit encoding is not part of this model.
- `sw::unum::scale(p)` and `significant(p)` of a posit: `PositView` carries their results as inputs.
- The zero posit: `PositView` has no zero flag, and what `scale(p)` reports for zero is not part of this model. `convert_p2i` does not test for zero. If `scale(p)` is 0 for zero, lines 45-47 return 1 (`PositToInteger.ScaleZeroIgnoresSign`). If it is negative, lines 41-44 return 0 (`PositToInteger.ConvertP2I`).
- `scale(w)` of the integer type: that code is not part of this model. It is taken to be the leading-one index of \|w\|, which is the value `findMsb(w2)` computes next.
- The bodies of the `integer<nbits>` operations (`<<=`, `flip`, `+=`, `twos_complement`, `findMsb`): these are modelled by their meaning on bit sequences.
- `<<=` by a negative amount: taken to be a logical right shift.
- The zero integer: its decoded value has `isZero` set, and the posit then encodes zero without reading the scale. The round-trip lemmas therefore cover nonzero integers.
- MathPow.IPow: requires a non-negative exponent, which is needed for the loop to terminate. It also requires that base^exp fits an int, because signed overflow is undefined behaviour in C++, so the model says nothing about overflowing calls.
- MathPow.IPow64: `base *= base` on `int64_t` may overflow, which is undefined behaviour. It is modelled as two's-complement wrap-around modulo 2^64. The return converts `uint64_t` to `int64_t` by the same wrap.
- `GenerateTestCase`, `GeneratePowTable`, the posit `pow`, stream output and the stress tests of the driver: they test the posit library, not the modelled routines.

## Findings

| source | as written | input that shows it | evidently intended | confidence | as-written member | corrected member |
|---|---|---|---|---|---|---|
| include/universal/adapters/adapt_integer_and_posit.hpp:45-47 | `v = 1` on the scale-0 path, whatever the posit's sign | posit -1.0 (scale 0, negative) converts to +1. Integer -1 converted to a posit and back gives +1. | \|value\| is in [1, 2), so the result is -1 for a negative posit | high (not executed) | PositToInteger.ScaleZeroDropsSign | PositToInteger.CorrectedValue |
| include/universal/adapters/adapt_integer_and_posit.hpp:56-59 | only significand bits min(n, fbits+1)-1..0 are loaded, so when n < fbits+1 the hidden bit and the top fraction bits are lost before the shift | posit 8.0 with 12 fraction bits into an 8-bit integer gives 0. Integer<8> 5 converted to the posit with 12 fraction bits and back gives 0. | load the whole significand and then shift, giving 8 | high (not executed) | PositToInteger.NarrowTargetDropsHiddenBit, RoundTrip.RoundTripNarrowFails, RoundTrip.FiveThroughTwelveFractionBits | PositToInteger.AlignedValue, RoundTrip.RoundTripCorrected |
