/** convert_p2i: from a posit's scale, significand and sign, rebuild the
    bits of an `n`-bit two's-complement integer `v` in place. A negative
    scale gives 0 and a zero scale gives 1. Otherwise the significand's low
    bits are loaded, shifted by scale - fbits, and negated (complement, add
    one) for a negative posit. */
module PositToInteger {
  import opened Arith
  import opened Bits

  /** What the conversion reads from the posit: its scale, its significand
      (`fbits` fraction bits with the hidden bit above them, at index
      `fbits`), its sign, and the fraction width of its configuration. */
  datatype PositView = PositView(scale: int, significant: seq<bool>, isneg: bool, fbits: nat)
  {
    predicate WellFormed()
    {
      |significant| == fbits + 1
    }
  }

  /** The integer 1 of width n. */
  function Unit(n: nat): (r: seq<bool>)
    ensures |r| == n
  {
    seq(n, i => i == 0)
  }

  /** `v` after it is cleared and bits m-1 down to 0 are copied from the
      significand, where m = min(n, fbits + 1). */
  function Loaded(p: PositView, n: nat): (r: seq<bool>)
    requires p.WellFormed()
    ensures |r| == n
  {
    seq(n, i requires 0 <= i < n => i < p.fbits + 1 && p.significant[i])
  }

  /** The bits convert_p2i leaves in an n-bit integer. */
  function P2IBits(p: PositView, n: nat): (r: seq<bool>)
    requires p.WellFormed()
    ensures |r| == n
  {
    if p.scale < 0 then Zeros(n)
    else if p.scale == 0 then Unit(n)
    else
      var shifted := ShiftBits(Loaded(p, n), p.scale - p.fbits);
      if p.isneg then Increment(Flip(shifted)) else shifted
  }

  // ---------------------------------------------------------------------
  // The integer's in-place operations that the conversion calls

  /** `v = 0`, and `v.clear()`. */
  method ClearInPlace(v: array<bool>)
    modifies v
    ensures v[..] == Zeros(v.Length)
  {
    forall i | 0 <= i < v.Length {
      v[i] := false;
    }
  }

  /** `v = 1`. */
  method SetOneInPlace(v: array<bool>)
    modifies v
    ensures v[..] == Unit(v.Length)
  {
    forall i | 0 <= i < v.Length {
      v[i] := i == 0;
    }
  }

  /** `v <<= k`, a negative k shifting right. */
  method ShiftInPlace(v: array<bool>, k: int)
    modifies v
    ensures v[..] == ShiftBits(old(v[..]), k)
  {
    var shifted := ShiftBits(v[..], k);
    forall i | 0 <= i < v.Length {
      v[i] := shifted[i];
    }
  }

  /** `v.flip()`. */
  method FlipInPlace(v: array<bool>)
    modifies v
    ensures v[..] == Flip(old(v[..]))
  {
    forall i | 0 <= i < v.Length {
      v[i] := !v[i];
    }
  }

  /** `v += 1`. */
  method IncrementInPlace(v: array<bool>)
    modifies v
    ensures v[..] == Increment(old(v[..]))
  {
    var next := Increment(v[..]);
    forall i | 0 <= i < v.Length {
      v[i] := next[i];
    }
  }

  /** `v.clear()`, then the loop copying significand bits msb-1 down to 0
      into `v`, where msb = min(n, fbits + 1). */
  method LoadInPlace(p: PositView, v: array<bool>)
    requires p.WellFormed()
    modifies v
    ensures v[..] == Loaded(p, v.Length)
  {
    var n := v.Length;
    ClearInPlace(v);
    var msb := if n < p.fbits + 1 then n else p.fbits + 1;
    var i := msb - 1;
    while i >= 0
      invariant -1 <= i < msb
      invariant forall j :: 0 <= j < n ==> v[j] == (i < j < msb && p.significant[j])
    {
      v[i] := p.significant[i];
      i := i - 1;
    }
    LoadedBits(v[..], p, n, msb);
  }

  /** The conversion, writing the integer `v` in place. */
  method ConvertP2I(p: PositView, v: array<bool>)
    requires p.WellFormed()
    modifies v
    ensures v[..] == P2IBits(p, v.Length)
    ensures p.scale < 0 ==> forall i :: 0 <= i < v.Length ==> !v[i]
    ensures p.scale == 0 ==> forall i :: 0 <= i < v.Length ==> (v[i] <==> i == 0)
  {
    var n := v.Length;
    var scale := p.scale;
    if scale < 0 {
      ClearInPlace(v);
      return;
    }
    if scale == 0 {
      SetOneInPlace(v);
    } else {
      LoadInPlace(p, v);
      ghost var loaded := v[..];
      var shift := scale - p.fbits;
      ShiftInPlace(v, shift);
      ghost var shifted := v[..];
      if p.isneg {
        FlipInPlace(v);
        IncrementInPlace(v);
      }
      PositivePath(p, n, shift, loaded, shifted, v[..]);
    }
  }

  /** The bits left by load, shift and the optional negation are those of
      the conversion's positive-scale path. */
  lemma PositivePath(p: PositView, n: nat, k: int, loaded: seq<bool>, shifted: seq<bool>, r: seq<bool>)
    requires p.WellFormed() && p.scale > 0 && k == p.scale - p.fbits
    requires loaded == Loaded(p, n) && shifted == ShiftBits(loaded, k)
    requires r == if p.isneg then Increment(Flip(shifted)) else shifted
    ensures r == P2IBits(p, n)
  {
  }

  /** A cleared n-bit integer with bits msb-1..0 copied from the
      significand, msb = min(n, fbits + 1), is the loaded pattern. */
  lemma LoadedBits(b: seq<bool>, p: PositView, n: nat, msb: int)
    requires p.WellFormed() && |b| == n
    requires msb == if n < p.fbits + 1 then n else p.fbits + 1
    requires forall j :: 0 <= j < n ==> b[j] == (j < msb && p.significant[j])
    ensures b == Loaded(p, n)
  {
  }

  // ---------------------------------------------------------------------
  // The intended conversion, and how the code above relates to it

  /** The posit's value truncated toward zero in magnitude: the significand
      read as an integer, scaled by 2^(scale - fbits), rounded down. */
  function Trunc(p: PositView): (t: nat)
  {
    ScaleValue(UValue(p.significant), p.scale - p.fbits)
  }

  /** The posit's value truncated toward zero, with its sign. */
  function TruncSigned(p: PositView): (t: int)
  {
    if p.isneg then -(Trunc(p) as int) else Trunc(p)
  }

  /** Bit i of the result is significand bit i + fbits - scale: the whole
      significand, hidden bit included, moved to its place and cut to n bits. */
  function Aligned(p: PositView, n: nat): (r: seq<bool>)
    ensures |r| == n
  {
    seq(n, i requires 0 <= i < n =>
      0 <= i + p.fbits - p.scale < |p.significant| && p.significant[i + p.fbits - p.scale])
  }

  /** The conversion with the sign applied on every path and the hidden bit
      kept whatever the target width. */
  function P2ICorrected(p: PositView, n: nat): (r: seq<bool>)
    ensures |r| == n
  {
    if p.isneg then TwosComplement(Aligned(p, n)) else Aligned(p, n)
  }

  /** With scale >= fbits the truncated value is the significand times
      2^(scale - fbits). */
  lemma TruncLeft(p: PositView, u: nat, k: nat)
    requires u == UValue(p.significant) && k == p.scale - p.fbits
    ensures Trunc(p) == u * Pow2(k)
  {
    ScaleLeftValue(u, k);
  }

  /** With scale < fbits the truncated value is the significand divided by
      2^(fbits - scale), rounded down. */
  lemma TruncRight(p: PositView, u: nat, j: nat)
    requires u == UValue(p.significant) && j == p.fbits - p.scale
    ensures Trunc(p) == u / Pow2(j)
  {
    ScaleRightValue(u, p.scale - p.fbits, j);
  }

  /** A posit below one in magnitude truncates to 0. */
  lemma FractionalTruncatesToZero(p: PositView)
    requires p.WellFormed() && p.scale < 0
    ensures Trunc(p) == 0
  {
    var u, j := UValue(p.significant), p.fbits - p.scale;
    TruncRight(p, u, j);
    assert u < Pow2(p.fbits + 1);
    Pow2Monotone(p.fbits + 1, j);
    DivModUnique(u, Pow2(j), 0, u);
  }

  /** The aligned bits hold the truncated magnitude modulo 2^n. */
  lemma AlignedValue(p: PositView, n: nat)
    ensures UValue(Aligned(p, n)) == Trunc(p) % Pow2(n)
  {
    AlignedValueAt(p, n, p.scale - p.fbits, Trunc(p));
  }

  /** AlignedValue with the shift distance k and the value t named. */
  lemma AlignedValueAt(p: PositView, n: nat, k: int, t: nat)
    requires k == p.scale - p.fbits && t == ScaleValue(UValue(p.significant), k)
    ensures UValue(Aligned(p, n)) == t % Pow2(n)
  {
    ShiftedLowBits(p.significant, k, n, t);
    AlignedIsShifted(p, n, k);
  }

  /** The aligned bits are the significand, widened by n zero bits, shifted
      by k = scale - fbits and cut to n bits. */
  lemma AlignedIsShifted(p: PositView, n: nat, k: int)
    requires k == p.scale - p.fbits
    ensures Aligned(p, n) == ShiftBits(p.significant + Zeros(n), k)[..n]
  {
    var wide := p.significant + Zeros(n);
    var sh := ShiftBits(wide, k);
    forall i | 0 <= i < n
      ensures Aligned(p, n)[i] == sh[i]
    {
      var j := i - k;
      if 0 <= j < |p.significant| {
        assert wide[j] == p.significant[j];
      } else if |p.significant| <= j < |wide| {
        assert wide[j] == Zeros(n)[j - |p.significant|];
      }
    }
  }

  lemma NegatedAlignedValue(p: PositView, n: nat)
    ensures UValue(TwosComplement(Aligned(p, n))) == (-(Trunc(p) as int)) % Pow2(n)
  {
    AlignedValue(p, n);
    NegationWraps(Aligned(p, n), Trunc(p), n);
  }

  /** The corrected conversion yields +-Trunc reduced modulo 2^n. */
  lemma CorrectedWraps(p: PositView, n: nat)
    ensures !p.isneg ==> UValue(P2ICorrected(p, n)) == Trunc(p) % Pow2(n)
    ensures p.isneg ==> UValue(P2ICorrected(p, n)) == (-(Trunc(p) as int)) % Pow2(n)
  {
    if p.isneg {
      NegatedAlignedValue(p, n);
      assert P2ICorrected(p, n) == TwosComplement(Aligned(p, n));
    } else {
      AlignedValue(p, n);
    }
  }

  /** Whenever the posit's value truncated toward zero fits the signed
      range of n bits (down to -2^(n-1) for a negative posit, below 2^(n-1)
      for a positive one), the corrected conversion yields exactly that value. */
  lemma CorrectedValue(p: PositView, n: nat)
    requires p.WellFormed() && n >= 1
    requires if p.isneg then Trunc(p) <= Pow2(n - 1) else Trunc(p) < Pow2(n - 1)
    ensures SValue(P2ICorrected(p, n)) == TruncSigned(p)
  {
    var r, t, half := P2ICorrected(p, n), Trunc(p), Pow2(n - 1);
    assert Pow2(n) == 2 * half;
    CorrectedWraps(p, n);
    SValueRange(r);
    DivModUnique(t, Pow2(n), 0, t);
    if p.isneg {
      NegMod(t, Pow2(n));
    }
  }

  /** With room for the whole significand (fbits + 1 <= n) and a positive
      scale, the code computes exactly the corrected conversion. */
  lemma AsWrittenAgrees(p: PositView, n: nat)
    requires p.WellFormed() && p.scale > 0 && p.fbits + 1 <= n
    ensures P2IBits(p, n) == P2ICorrected(p, n)
  {
    assert ShiftBits(Loaded(p, n), p.scale - p.fbits) == Aligned(p, n);
  }

  /** The conversion as written truncates toward zero when the significand
      fits the target, the scale is positive and the value fits the signed
      range, for posits of either sign. */
  lemma P2ISigned(p: PositView, n: nat)
    requires p.WellFormed() && p.scale > 0 && p.fbits + 1 <= n
    requires if p.isneg then Trunc(p) <= Pow2(n - 1) else Trunc(p) < Pow2(n - 1)
    ensures SValue(P2IBits(p, n)) == TruncSigned(p)
  {
    AsWrittenAgrees(p, n);
    CorrectedValue(p, n);
  }

  /** Posit -128.0 (scale 7, five fraction bits) becomes the most negative
      8-bit integer, -128, as written and corrected alike. */
  lemma MostNegativeResult()
    ensures var p := PositView(7, Zeros(5) + [true], true, 5);
      Trunc(p) == 128 && SValue(P2IBits(p, 8)) == -128
  {
    var p := PositView(7, Zeros(5) + [true], true, 5);
    PowerPattern(5);
    TruncLeft(p, Pow2(5), 2);
    Pow2Add(5, 2);
    assert Pow2(7) == 128;
    P2ISigned(p, 8);
  }

  /** A non-negative posit with fbits <= scale < n converts to bits that
      read unsigned as its significand times 2^(scale - fbits), with
      nothing dropped; below scale n - 1 they read so signed as well. At
      scale n - 1 the top bit of the integer is set (see
      PositiveTopScaleWraps). */
  lemma ExactShift(p: PositView, n: nat)
    requires p.WellFormed() && !p.isneg && p.fbits + 1 <= n && p.fbits <= p.scale < n && p.scale > 0
    ensures UValue(P2IBits(p, n)) == UValue(p.significant) * Pow2(p.scale - p.fbits)
    ensures p.scale < n - 1 ==>
      SValue(P2IBits(p, n)) == UValue(p.significant) * Pow2(p.scale - p.fbits)
  {
    AsWrittenAgrees(p, n);
    AlignedValue(p, n);
    var u, k := UValue(p.significant), p.scale - p.fbits;
    TruncLeft(p, u, k);
    assert Pow2(|p.significant|) == Pow2(p.fbits + 1);
    ShiftedBelow(u, p.fbits + 1, k, n);
    DivModUnique(u * Pow2(k), Pow2(n), 0, u * Pow2(k));
    if p.scale < n - 1 {
      ShiftedBelow(u, p.fbits + 1, k, n - 1);
      SValueRange(P2IBits(p, n));
    }
  }

  /** Posit +128.0 (scale 7, five fraction bits) does not fit an 8-bit
      integer: its bits read unsigned as 128 and signed as -128. */
  lemma PositiveTopScaleWraps()
    ensures var p := PositView(7, Zeros(5) + [true], false, 5);
      UValue(P2IBits(p, 8)) == 128 && SValue(P2IBits(p, 8)) == -128
  {
    var p := PositView(7, Zeros(5) + [true], false, 5);
    PowerPattern(5);
    ExactShift(p, 8);
    Pow2Add(5, 2);
    assert Pow2(7) == 128 && Pow2(8) == 256;
    SValueRange(P2IBits(p, 8));
  }

  /** The pattern written for `v = 1` reads as 1, signed and unsigned, in
      any width of two bits or more. */
  lemma UnitValue(n: nat)
    requires n >= 2
    ensures UValue(Unit(n)) == 1 && SValue(Unit(n)) == 1
  {
    var u := Unit(n);
    assert u == [true] + Zeros(n - 1);
    UValueZeros(n - 1);
    assert UValue(u) == 1 + 2 * UValue(Zeros(n - 1));
    SValueRange(u);
    Pow2Monotone(1, n - 1);
  }

  /** On the scale == 0 path the result is +1 whatever the posit's sign. */
  lemma ScaleZeroIgnoresSign(p: PositView, n: nat)
    requires p.WellFormed() && p.scale == 0 && n >= 2
    ensures SValue(P2IBits(p, n)) == 1
  {
    UnitValue(n);
  }

  /** Posit -1.0 (scale 0, five fraction bits) becomes +1 in an 8-bit
      integer, while the corrected conversion gives -1. */
  lemma ScaleZeroDropsSign()
    ensures var p := PositView(0, Zeros(5) + [true], true, 5);
      SValue(P2IBits(p, 8)) == 1 && Trunc(p) == 1 && SValue(P2ICorrected(p, 8)) == -1
  {
    var p := PositView(0, Zeros(5) + [true], true, 5);
    ScaleZeroIgnoresSign(p, 8);
    PowerPattern(5);
    assert Pow2(5) == 32;
    TruncRight(p, 32, 5);
    DivModUnique(32, 32, 1, 0);
    assert Pow2(7) == 128;
    CorrectedValue(p, 8);
  }

  /** Posit 8.0 with twelve fraction bits (scale 3) becomes 0 in an 8-bit
      integer: only significand bits 0..7 are loaded and the hidden bit at
      index 12 is lost. The corrected conversion gives 8. */
  lemma NarrowTargetDropsHiddenBit()
    ensures var p := PositView(3, Zeros(12) + [true], false, 12);
      P2IBits(p, 8) == Zeros(8) && Trunc(p) == 8 && SValue(P2ICorrected(p, 8)) == 8
  {
    var p := PositView(3, Zeros(12) + [true], false, 12);
    NarrowTargetLoadsZeros(p);
    NarrowTargetTrunc(p);
    assert Pow2(7) == 128;
    CorrectedValue(p, 8);
  }

  lemma NarrowTargetLoadsZeros(p: PositView)
    requires p == PositView(3, Zeros(12) + [true], false, 12)
    ensures P2IBits(p, 8) == Zeros(8)
  {
    assert Loaded(p, 8) == Zeros(8);
  }

  lemma NarrowTargetTrunc(p: PositView)
    requires p == PositView(3, Zeros(12) + [true], false, 12)
    ensures Trunc(p) == 8
  {
    PowerPattern(12);
    Pow2Add(3, 9);
    assert Pow2(3) == 8;
    TruncRight(p, Pow2(12), 9);
    DivModUnique(Pow2(12), Pow2(9), 8, 0);
  }
}
