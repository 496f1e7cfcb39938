/** Integer to decoded value and back. A nonzero integer w decodes to a
    scale s and a left-aligned fraction. Given a fraction width f with
    |w| < 2^(f+1), ExactView(d, f) is the posit with f fraction bits that
    holds w exactly. Converting it back to an integer of w's width gives w
    again with the corrected conversion for every such f; with the code as
    written when f + 1 <= |w| and w is not -1; and never when f >= |w| and
    the scale is positive. */
module RoundTrip {
  import opened Arith
  import opened Bits
  import opened IntegerToPosit
  import opened PositToInteger

  /** The exact posit, with `f` fraction bits, for a decoded nonzero
      integer whose scale is at most f: its scale, its sign, and as
      significand the top `f` fraction bits (zero-extended below when f
      exceeds the fraction's width) under the hidden bit. */
  function ExactView(d: Decoded, f: nat): (p: PositView)
    requires 0 <= d.scale <= f
    ensures p.WellFormed() && p.scale == d.scale && p.isneg == d.sign && p.fbits == f
    ensures p.significant[f]
  {
    var n := |d.fraction|;
    PositView(d.scale, seq(f, i requires 0 <= i < f => 0 <= n - f + i && d.fraction[n - f + i]) + [true],
      d.sign, f)
  }

  /** An integer is exactly representable with f fraction bits when its
      magnitude is below 2^(f+1); its scale is then at most f. */
  lemma RepresentableScale(w: seq<bool>, f: nat)
    requires SValue(w) != 0 && Abs(SValue(w)) < Pow2(f + 1)
    ensures 0 <= DecodeInteger(w).scale <= f && DecodeInteger(w).scale < |w|
  {
    ScaleBounds(w);
    Pow2Below(f, DecodeInteger(w).scale, Abs(SValue(w)));
  }

  /** The exact posit holds |w| exactly: its significand is f - scale
      zeros, then the bits of w2 below the leading one, then the hidden
      bit, so it reads as |w| * 2^(f - scale). */
  lemma ExactViewExact(w: seq<bool>, f: nat)
    requires SValue(w) != 0 && Abs(SValue(w)) < Pow2(f + 1)
    ensures 0 <= DecodeInteger(w).scale <= f
    ensures var s := DecodeInteger(w).scale;
      ExactView(DecodeInteger(w), f).significant == Zeros(f - s) + Magnitude(w)[..s] + [true]
    ensures var s := DecodeInteger(w).scale;
      UValue(ExactView(DecodeInteger(w), f).significant) == Abs(SValue(w)) * Pow2(f - s)
  {
    RepresentableScale(w, f);
    var d, w2 := DecodeInteger(w), Magnitude(w);
    var s: nat := d.scale;
    assert d.scale == FindMsb(w2) && d.fraction == LeftAligned(w2, d.scale);
    ExactViewPattern(w2, d, f);
    var low := w2[..s];
    FractionValue(w);
    SignificandValue(low, f - s, Abs(SValue(w)));
  }

  /** Bit by bit, the exact posit's significand is f - scale zeros, the
      bits of w2 below its leading one, and the hidden bit. */
  lemma ExactViewPattern(w2: seq<bool>, d: Decoded, f: nat)
    requires 0 <= d.scale <= f && d.scale < |w2|
    requires d.fraction == LeftAligned(w2, d.scale)
    ensures ExactView(d, f).significant == Zeros(f - d.scale) + w2[..d.scale] + [true]
  {
    var p, s := ExactView(d, f), d.scale;
    var pattern := Zeros(f - s) + w2[..s] + [true];
    forall i | 0 <= i < f + 1
      ensures p.significant[i] == pattern[i]
    {
      if i < f - s {
      } else if i < f {
        assert pattern[i] == w2[i - (f - s)];
      }
    }
  }

  /** z zeros, then the low bits, then a set bit at index z + |low|,
      read as (2^|low| + low) * 2^z. */
  lemma SignificandValue(low: seq<bool>, z: nat, m: nat)
    requires m == Pow2(|low|) + UValue(low)
    ensures UValue(Zeros(z) + low + [true]) == m * Pow2(z)
  {
    var zs, top := Zeros(z), low + [true];
    assert zs + low + [true] == zs + top;
    TopBitValue(low, m);
    UValueAppend(zs, top);
    UValueZeros(z);
    assert UValue(zs + top) == Pow2(z) * m;
  }

  /** The low bits with a set bit above them read as 2^|low| + low. */
  lemma TopBitValue(low: seq<bool>, m: nat)
    requires m == Pow2(|low|) + UValue(low)
    ensures UValue(low + [true]) == m
  {
    UValueAppend(low, [true]);
    assert UValue([true]) == 1;
    assert Pow2(|low|) * 1 == Pow2(|low|);
  }

  /** Aligning the exact posit's significand at its scale rebuilds the
      magnitude pattern w2 bit for bit, whatever the fraction width f. */
  lemma ExactViewAligned(w: seq<bool>, f: nat)
    requires SValue(w) != 0 && Abs(SValue(w)) < Pow2(f + 1)
    ensures 0 <= DecodeInteger(w).scale <= f && DecodeInteger(w).scale < |w|
    ensures Aligned(ExactView(DecodeInteger(w), f), |w|) == Magnitude(w)
  {
    RepresentableScale(w, f);
    var d, w2 := DecodeInteger(w), Magnitude(w);
    assert d.scale == FindMsb(w2) && d.fraction == LeftAligned(w2, d.scale);
    var p := ExactView(d, f);
    ExactViewBits(w2, d, f);
    AlignedAtMsb(w2, p);
  }

  /** The exact posit's significand holds the bits of w2 below its leading
      one just under the hidden bit. */
  lemma ExactViewBits(w2: seq<bool>, d: Decoded, f: nat)
    requires 0 <= d.scale <= f && d.scale < |w2|
    requires d.fraction == LeftAligned(w2, d.scale)
    ensures forall k :: 0 <= k < d.scale ==>
      ExactView(d, f).significant[f - d.scale + k] == w2[k]
  {
    var p := ExactView(d, f);
    var n, s := |w2|, d.scale;
    forall k | 0 <= k < s
      ensures p.significant[f - s + k] == w2[k]
    {
      assert p.significant[f - s + k] == d.fraction[n - s + k];
    }
  }

  /** A significand whose hidden bit sits at index fbits and whose bits
      just below it are the bits of w2 below its leading one, aligned at
      the leading one's index, is w2 again. */
  lemma AlignedAtMsb(w2: seq<bool>, p: PositView)
    requires p.WellFormed() && 0 <= p.scale == FindMsb(w2) <= p.fbits
    requires p.significant[p.fbits]
    requires forall k :: 0 <= k < p.scale ==> p.significant[p.fbits - p.scale + k] == w2[k]
    ensures Aligned(p, |w2|) == w2
  {
    forall i | 0 <= i < |w2|
      ensures Aligned(p, |w2|)[i] == w2[i]
    {
      AlignedBit(w2, p, i);
    }
  }

  lemma AlignedBit(w2: seq<bool>, p: PositView, i: nat)
    requires p.WellFormed() && 0 <= p.scale == FindMsb(w2) <= p.fbits && i < |w2|
    requires p.significant[p.fbits]
    requires forall k :: 0 <= k < p.scale ==> p.significant[p.fbits - p.scale + k] == w2[k]
    ensures Aligned(p, |w2|)[i] == w2[i]
  {
    var s, f := p.scale, p.fbits;
    if i < s {
      assert p.significant[f - s + i] == w2[i];
    }
  }

  /** The corrected integer conversion undoes convert_i2p for every nonzero
      integer exactly representable with f fraction bits, the most
      negative one included. */
  lemma RoundTripCorrected(w: seq<bool>, f: nat)
    requires SValue(w) != 0 && Abs(SValue(w)) < Pow2(f + 1)
    ensures 0 <= DecodeInteger(w).scale <= f
    ensures P2ICorrected(ExactView(DecodeInteger(w), f), |w|) == w
  {
    ExactViewAligned(w, f);
    if SValue(w) < 0 {
      TwosComplementInvolutive(w);
    }
  }

  /** The conversion as written also undoes convert_i2p when the whole
      significand fits the integer (f + 1 <= ibits), except for -1, whose
      scale is 0. */
  lemma RoundTripAsWritten(w: seq<bool>, f: nat)
    requires SValue(w) != 0 && SValue(w) != -1 && Abs(SValue(w)) < Pow2(f + 1)
    requires f + 1 <= |w|
    ensures 0 <= DecodeInteger(w).scale <= f
    ensures P2IBits(ExactView(DecodeInteger(w), f), |w|) == w
  {
    RepresentableScale(w, f);
    var d, n := DecodeInteger(w), |w|;
    var p := ExactView(d, f);
    if d.scale > 0 {
      AsWrittenAgrees(p, n);
      RoundTripCorrected(w, f);
    } else {
      ScaleBounds(w);
      assert Pow2(1) == 2;
      SValueRange(w);
      assert SValue(w) == 1;
      UnitValue(n);
      UValueInjective(P2IBits(p, n), w);
    }
  }

  /** When the significand does not fit the integer (f >= ibits), the
      conversion as written never gives back an integer of scale > 0: the
      hidden bit is not loaded, so what it returns reads below 2^scale in
      magnitude, while |w| is at least 2^scale. */
  lemma RoundTripNarrowFails(w: seq<bool>, f: nat)
    requires SValue(w) != 0 && Abs(SValue(w)) < Pow2(f + 1)
    requires f >= |w| && DecodeInteger(w).scale > 0
    ensures Abs(SValue(P2IBits(ExactView(DecodeInteger(w), f), |w|))) < Pow2(DecodeInteger(w).scale)
    ensures P2IBits(ExactView(DecodeInteger(w), f), |w|) != w
  {
    RepresentableScale(w, f);
    var d, n := DecodeInteger(w), |w|;
    var p := ExactView(d, f);
    var k := p.scale - p.fbits;
    var shifted := ShiftBits(Loaded(p, n), k);
    var r := P2IBits(p, n);
    NarrowShiftedBelow(p, n);
    if p.isneg {
      assert r == TwosComplement(shifted);
      NegatedPatternBelow(shifted, p.scale);
    } else {
      assert r == shifted;
      SmallPatternBelow(shifted, p.scale);
    }
    ScaleBounds(w);
  }

  /** A pattern of n bits reading below 2^b, b < n, has a signed value
      below 2^b in magnitude. */
  lemma SmallPatternBelow(x: seq<bool>, b: nat)
    requires b < |x| && UValue(x) < Pow2(b)
    ensures Abs(SValue(x)) < Pow2(b)
  {
    Pow2Monotone(b, |x| - 1);
    SValueRange(x);
  }

  /** So does its negation. */
  lemma NegatedPatternBelow(x: seq<bool>, b: nat)
    requires b < |x| && UValue(x) < Pow2(b)
    ensures Abs(SValue(TwosComplement(x))) < Pow2(b)
  {
    var n, y, u := |x|, TwosComplement(x), UValue(x);
    TwosComplementValue(x);
    SValueRange(y);
    if u != 0 {
      Pow2Monotone(b, n - 1);
      NegationReadsBack(UValue(y), u, Pow2(n), Pow2(n - 1));
    }
  }

  /** 2^n - u, for 0 < u <= 2^(n-1), is in the negative half and reads
      back signed as -u. */
  lemma NegationReadsBack(uy: int, u: int, pn: int, half: int)
    requires pn == 2 * half && 0 < u <= half && uy == pn - u
    ensures uy >= half && uy - pn == -u
  {
  }

  /** With no room for the hidden bit (fbits >= n), the loaded bits shifted
      right by fbits - scale read below 2^scale. */
  lemma NarrowShiftedBelow(p: PositView, n: nat)
    requires p.WellFormed() && 0 <= p.scale <= p.fbits && n <= p.fbits
    ensures UValue(ShiftBits(Loaded(p, n), p.scale - p.fbits)) < Pow2(p.scale)
  {
    var s: nat, j: nat := p.scale, p.fbits - p.scale;
    var loaded := Loaded(p, n);
    ShiftRightValue(loaded, j);
    assert ShiftBits(loaded, p.scale - p.fbits) == ShiftBits(loaded, -(j as int));
    Pow2Add(s, j);
    Pow2Monotone(n, s + j);
    DivBelow(UValue(loaded), Pow2(s), Pow2(j));
  }

  /** Integer 5 in 8 bits, sent through the 12-fraction-bit posit that
      holds it exactly, comes back as 0 from the conversion as written and
      as 5 from the corrected one. */
  lemma FiveThroughTwelveFractionBits()
    ensures var w := [true, false, true, false, false, false, false, false];
      SValue(w) == 5 && DecodeInteger(w).scale == 2 &&
      UValue(P2IBits(ExactView(DecodeInteger(w), 12), 8)) == 0 &&
      P2ICorrected(ExactView(DecodeInteger(w), 12), 8) == w
  {
    var w := [true, false, true, false, false, false, false, false];
    assert UValue(w) == 5;
    assert SValue(w) == 5;
    assert Pow2(13) == 8192;
    RoundTripCorrected(w, 12);
    var d := DecodeInteger(w);
    assert d.scale == 2;
    var p := ExactView(d, 12);
    NarrowLoadedZeros(w, d, p);
    UValueZeros(8);
  }

  /** The eight significand bits that fit the 8-bit integer are all 0. */
  lemma NarrowLoadedZeros(w: seq<bool>, d: Decoded, p: PositView)
    requires w == [true, false, true, false, false, false, false, false]
    requires d == DecodeInteger(w) && d.scale == 2 && p == ExactView(d, 12)
    ensures P2IBits(p, 8) == Zeros(8)
  {
    DecodedLayout(w);
    assert forall i :: 0 <= i < 6 ==> !d.fraction[i];
    assert Loaded(p, 8) == Zeros(8);
  }

  /** -1 in n >= 2 bits decodes to scale 0, and the conversion as written
      returns +1 for it, whatever the fraction width. */
  lemma MinusOneComesBackPositive(n: nat, f: nat)
    requires n >= 2
    ensures SValue(Flip(Zeros(n))) == -1
    ensures DecodeInteger(Flip(Zeros(n))).scale == 0
    ensures SValue(P2IBits(ExactView(DecodeInteger(Flip(Zeros(n))), f), n)) == 1
  {
    var w := Flip(Zeros(n));
    FlipValue(Zeros(n));
    UValueZeros(n);
    SValueRange(w);
    ScaleBounds(w);
    var d := DecodeInteger(w);
    assert Pow2(1) == 2;
    Pow2Below(0, d.scale, 1);
    ScaleZeroIgnoresSign(ExactView(d, f), n);
  }
}
