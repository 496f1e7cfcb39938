/** convert_i2p: a fixed-width two's-complement integer `w` of `ibits` bits
    becomes the decoded value (sign, scale, fraction, isZero, isInf, isNaN)
    that the posit is then built from. The magnitude's leading one becomes
    the hidden bit and its scale; the bits below it are copied, most
    significant first, into a fraction buffer of `ibits` bits whose top
    position receives the bit just below the hidden bit. */
module IntegerToPosit {
  import opened Arith
  import opened Bits

  /** The decoded value handed to the posit (`value<ibits>::set`). */
  datatype Decoded = Decoded(
    sign: bool,
    scale: int,
    fraction: seq<bool>,
    isZero: bool,
    isInf: bool,
    isNaN: bool)

  function Abs(x: int): nat
  {
    if x < 0 then -x else x
  }

  /** `w2`: the two's-complement negation of a negative `w`, `w` itself otherwise. */
  function Magnitude(w: seq<bool>): (r: seq<bool>)
    ensures |r| == |w|
  {
    if SValue(w) < 0 then TwosComplement(w) else w
  }

  /** The bits of `w2` below index `msb`, moved so that bit msb-1 lands in
      the top position of an `|w2|`-bit buffer; every other position is 0. */
  function LeftAligned(w2: seq<bool>, msb: int): (r: seq<bool>)
    requires msb < |w2|
    ensures |r| == |w2|
  {
    seq(|w2|, j requires 0 <= j < |w2| => |w2| - msb <= j && w2[j - (|w2| - msb)])
  }

  /** The decoded value convert_i2p produces. The integer's scale is the
      index of the magnitude's leading one (-1 for zero). */
  function DecodeInteger(w: seq<bool>): (d: Decoded)
    ensures |d.fraction| == |w|
  {
    var w2 := Magnitude(w);
    var msb := FindMsb(w2);
    Decoded(SValue(w) < 0, msb, LeftAligned(w2, msb), SValue(w) == 0, false, false)
  }

  /** The conversion as the adapter performs it: the fraction buffer starts
      cleared and is filled by a descending loop over the bits of `w2` below
      its leading one, its write position `fbit` moving down in step.
      `writes` counts the loop's writes to the buffer. */
  method ConvertI2P(w: seq<bool>) returns (d: Decoded, ghost writes: nat)
    ensures d == DecodeInteger(w)
    ensures writes == if d.scale > 0 then d.scale else 0
  {
    var ibits := |w|;
    var sign := SValue(w) < 0;
    var isZero := SValue(w) == 0;
    var isInf, isNaN := false, false;
    var scale := FindMsb(Magnitude(w));
    var w2 := if sign then TwosComplement(w) else w;
    var msb := FindMsb(w2);
    var fraction := new bool[ibits](_ => false);
    var fbit := ibits - 1;
    var i := msb - 1;
    writes := 0;
    while i >= 0
      invariant -1 <= msb < ibits
      invariant (if msb >= 0 then -1 else msb - 1) <= i <= msb - 1
      invariant |w2| == ibits
      invariant writes == msb - 1 - i
      invariant fbit == ibits - msb + i
      invariant forall j :: 0 <= j < ibits ==>
        fraction[j] == (fbit < j && w2[j - (ibits - msb)])
    {
      fraction[fbit] := w2[i];
      fbit := fbit - 1;
      i := i - 1;
      writes := writes + 1;
    }
    FilledIsLeftAligned(fraction[..], w2, msb);
    d := Decoded(sign, scale, fraction[..], isZero, isInf, isNaN);
  }

  /** A buffer whose bit j is bit j - (n - msb) of w2 from index n - msb
      up, and 0 below, is the left-aligned buffer. */
  lemma FilledIsLeftAligned(f: seq<bool>, w2: seq<bool>, msb: int)
    requires |f| == |w2| && msb < |w2|
    requires forall j :: 0 <= j < |f| ==> f[j] == (|w2| - msb <= j && w2[j - (|w2| - msb)])
    ensures f == LeftAligned(w2, msb)
  {
  }

  // ---------------------------------------------------------------------
  // What the decoded value means

  /** The layout of the decoded value: the sign and zero flags read the
      integer, infinity and NaN are never set, the scale is the magnitude's
      leading one, bits scale-1..0 of the magnitude sit at the top of the
      fraction in order, and every fraction bit below them is 0. */
  lemma DecodedLayout(w: seq<bool>)
    ensures var d := DecodeInteger(w);
      (d.sign <==> SValue(w) < 0) && (d.isZero <==> SValue(w) == 0) &&
      !d.isInf && !d.isNaN &&
      d.scale == FindMsb(Magnitude(w)) && -1 <= d.scale < |w| &&
      (forall k :: 0 <= k < d.scale ==> d.fraction[|w| - d.scale + k] == Magnitude(w)[k]) &&
      (forall j :: 0 <= j < |w| && j < |w| - d.scale ==> !d.fraction[j])
  {
  }

  /** The magnitude pattern reads, unsigned, as |w|; for the most negative
      value its negation is itself and reads as 2^(ibits-1). */
  lemma MagnitudeValue(w: seq<bool>)
    ensures UValue(Magnitude(w)) == Abs(SValue(w))
  {
    if SValue(w) < 0 {
      NegativeMagnitude(w);
    } else if |w| >= 1 {
      SValueRange(w);
    }
  }

  /** The scale places the magnitude: 2^scale <= |w| < 2^(scale+1), and the
      scale is -1 exactly for zero. */
  lemma ScaleBounds(w: seq<bool>)
    ensures DecodeInteger(w).scale == -1 <==> SValue(w) == 0
    ensures DecodeInteger(w).scale >= 0 ==>
      Pow2(DecodeInteger(w).scale) <= Abs(SValue(w)) < Pow2(DecodeInteger(w).scale + 1)
  {
    MagnitudeValue(w);
    MsbBounds(Magnitude(w));
  }

  /** The left-aligned buffer reads as the bits below msb scaled up by 2^(n-msb). */
  lemma LeftAlignedValue(w2: seq<bool>, msb: nat)
    requires msb < |w2|
    ensures UValue(LeftAligned(w2, msb)) == Pow2(|w2| - msb) * UValue(w2[..msb])
  {
    var z := Zeros(|w2| - msb);
    assert LeftAligned(w2, msb) == z + w2[..msb];
    UValueAppend(z, w2[..msb]);
    UValueZeros(|w2| - msb);
  }

  /** No magnitude bit is lost: |w| is the hidden bit 2^scale plus the
      value `low` of the bits of `w2` below it, and the fraction holds
      exactly those bits moved up to its top, reading as low * 2^(ibits -
      scale); together, |w| == (1 + fraction / 2^ibits) * 2^scale. */
  lemma FractionValue(w: seq<bool>)
    requires SValue(w) != 0
    ensures var w2, scale := Magnitude(w), DecodeInteger(w).scale;
      0 <= scale < |w2| &&
      Abs(SValue(w)) == Pow2(scale) + UValue(w2[..scale]) &&
      UValue(DecodeInteger(w).fraction) == Pow2(|w2| - scale) * UValue(w2[..scale])
  {
    ScaleBounds(w);
    MagnitudeValue(w);
    var w2 := Magnitude(w);
    var m: nat := DecodeInteger(w).scale;
    LeftAlignedValue(w2, m);
    MsbSplit(w2);
  }

  /** The fraction is all zeros exactly when |w| is a power of two (the
      hidden bit alone) or w is zero. */
  lemma FractionZeroIff(w: seq<bool>)
    ensures (forall j :: 0 <= j < |w| ==> !DecodeInteger(w).fraction[j]) <==>
      (SValue(w) == 0 ||
       (DecodeInteger(w).scale >= 0 && Abs(SValue(w)) == Pow2(DecodeInteger(w).scale)))
  {
    var d := DecodeInteger(w);
    UValueZeroIff(d.fraction);
    ScaleBounds(w);
    if SValue(w) == 0 {
      assert forall j :: 0 <= j < |w| ==> !d.fraction[j];
    } else {
      FractionValue(w);
      var w2 := Magnitude(w);
      ZeroProduct(Pow2(|w2| - d.scale), UValue(w2[..d.scale]));
    }
  }

  lemma ZeroProduct(p: int, x: int)
    requires p >= 1 && x >= 0
    ensures p * x == 0 <==> x == 0
  {
    if x > 0 {
      MulMonotone(1, p, x);
    }
  }

  /** Scale is monotone in the magnitude: a larger nonzero |w| never has a
      smaller scale, whatever the two widths. */
  lemma ScaleMonotone(w1: seq<bool>, w2: seq<bool>)
    requires SValue(w1) != 0 && Abs(SValue(w1)) <= Abs(SValue(w2))
    ensures DecodeInteger(w1).scale <= DecodeInteger(w2).scale
  {
    ScaleBounds(w1);
    ScaleBounds(w2);
    Pow2Below(DecodeInteger(w2).scale, DecodeInteger(w1).scale, Abs(SValue(w1)));
  }

  /** The most negative integer, whose negation overflows back to itself,
      still decodes exactly: negative, scale ibits-1, empty fraction. */
  lemma MostNegative(n: nat)
    requires n >= 1
    ensures SValue(Zeros(n - 1) + [true]) == -(Pow2(n - 1) as int)
    ensures DecodeInteger(Zeros(n - 1) + [true]).sign
    ensures DecodeInteger(Zeros(n - 1) + [true]).scale == n - 1
    ensures DecodeInteger(Zeros(n - 1) + [true]).fraction == Zeros(n)
  {
    var w := Zeros(n - 1) + [true];
    PowerPattern(n - 1);
    assert Pow2(n) == 2 * Pow2(n - 1);
    FractionZeroIff(w);
    ScaleBounds(w);
    Pow2Below(DecodeInteger(w).scale, n - 1, Pow2(n - 1));
    Pow2Below(n - 1, DecodeInteger(w).scale, Pow2(n - 1));
    assert DecodeInteger(w).fraction == Zeros(n);
  }
}
