/** Fixed-width bit patterns, least significant bit first, with the
    operations the adapter takes from the integer and bitblock types:
    unsigned and two's-complement value, bit complement, increment,
    two's-complement negation, most-significant-bit search and a logical
    shift by a signed amount. Those types are not part of this model; these
    definitions are the behaviour the adapter relies on. */
module Bits {
  import opened Arith

  function Bit(b: bool): nat
  {
    if b then 1 else 0
  }

  /** Unsigned value of a pattern (index 0 is the least significant bit). */
  function UValue(s: seq<bool>): (r: nat)
    ensures r < Pow2(|s|)
  {
    if s == [] then 0 else Bit(s[0]) + 2 * UValue(s[1..])
  }

  /** Two's-complement value: the top bit weighs -2^(n-1). */
  function SValue(s: seq<bool>): int
  {
    if |s| > 0 && s[|s| - 1] then UValue(s) - Pow2(|s|) else UValue(s)
  }

  /** The signed reading of an n-bit unsigned value. */
  function ToSigned(u: int, n: nat): int
  {
    if n > 0 && u >= Pow2(n - 1) then u - Pow2(n) else u
  }

  function Zeros(n: nat): (r: seq<bool>)
    ensures |r| == n && forall i :: 0 <= i < n ==> !r[i]
  {
    seq(n, _ => false)
  }

  /** Every bit inverted (`flip()`). */
  function Flip(s: seq<bool>): (r: seq<bool>)
    ensures |r| == |s| && forall i :: 0 <= i < |s| ==> r[i] == !s[i]
  {
    seq(|s|, i requires 0 <= i < |s| => !s[i])
  }

  /** Ripple-carry increment within the width (`+= 1`). */
  function Increment(s: seq<bool>): (r: seq<bool>)
    ensures |r| == |s|
  {
    if s == [] then []
    else if s[0] then [false] + Increment(s[1..])
    else [true] + s[1..]
  }

  /** Two's-complement negation within the width: complement, then add one. */
  function TwosComplement(s: seq<bool>): (r: seq<bool>)
    ensures |r| == |s|
  {
    Increment(Flip(s))
  }

  /** Index of the most significant set bit, -1 when no bit is set (`findMsb`). */
  function FindMsb(s: seq<bool>): (r: int)
    ensures -1 <= r < |s|
    ensures r >= 0 ==> s[r]
    ensures forall i :: r < i < |s| ==> !s[i]
  {
    if s == [] then -1
    else if s[|s| - 1] then |s| - 1
    else FindMsb(s[..|s| - 1])
  }

  /** Logical shift within the width by a signed amount: bit i of the result
      is bit i - k of s, zero where that falls outside. A positive k shifts
      towards the most significant end, a negative one towards bit 0. */
  function ShiftBits(s: seq<bool>, k: int): (r: seq<bool>)
    ensures |r| == |s|
  {
    seq(|s|, i requires 0 <= i < |s| => 0 <= i - k < |s| && s[i - k])
  }

  // ---------------------------------------------------------------------
  // Values of concatenations

  lemma {:induction false} UValueAppend(a: seq<bool>, b: seq<bool>)
    ensures UValue(a + b) == UValue(a) + Pow2(|a|) * UValue(b)
  {
    if a == [] {
      assert a + b == b;
    } else {
      UValueAppend(a[1..], b);
      assert (a + b)[1..] == a[1..] + b;
      assert (a + b)[0] == a[0];
      DoubleSum(UValue(a + b), Bit(a[0]), UValue(a[1..]), Pow2(|a| - 1), UValue(b),
        UValue(a), Pow2(|a|));
    }
  }

  lemma DoubleSum(whole: int, bit: int, rest: int, p: int, v: int, low: int, pa: int)
    requires whole == bit + 2 * (rest + p * v)
    requires low == bit + 2 * rest && pa == 2 * p
    ensures whole == low + pa * v
  {
  }

  lemma {:induction false} UValueZeros(n: nat)
    ensures UValue(Zeros(n)) == 0
  {
    if n > 0 {
      UValueZeros(n - 1);
      assert Zeros(n)[1..] == Zeros(n - 1);
    }
  }

  /** A single set bit above m zeros reads as 2^m. */
  lemma PowerPattern(m: nat)
    ensures UValue(Zeros(m) + [true]) == Pow2(m)
  {
    var z := Zeros(m);
    UValueAppend(z, [true]);
    UValueZeros(m);
    assert UValue([true]) == 1;
    assert Pow2(|z|) == Pow2(m);
    assert Pow2(m) * 1 == Pow2(m);
  }

  /** Splitting a pattern at j: the low j bits plus 2^j times the rest. */
  lemma UValueSplit(s: seq<bool>, j: nat)
    requires j <= |s|
    ensures UValue(s) == UValue(s[..j]) + Pow2(j) * UValue(s[j..])
    ensures UValue(s[..j]) < Pow2(j)
  {
    assert s == s[..j] + s[j..];
    UValueAppend(s[..j], s[j..]);
  }

  /** A pattern is worth 0 exactly when no bit is set. */
  lemma {:induction false} UValueZeroIff(s: seq<bool>)
    ensures UValue(s) == 0 <==> forall i :: 0 <= i < |s| ==> !s[i]
  {
    if s != [] {
      UValueZeroIff(s[1..]);
      assert forall i :: 1 <= i < |s| ==> s[i] == s[1..][i - 1];
    }
  }

  // ---------------------------------------------------------------------
  // Values of the operations

  lemma {:induction false} FlipValue(s: seq<bool>)
    ensures UValue(Flip(s)) == Pow2(|s|) - 1 - UValue(s)
  {
    if s != [] {
      FlipValue(s[1..]);
      assert Flip(s)[1..] == Flip(s[1..]);
    }
  }

  /** Increment adds one, wrapping to zero from the all-ones pattern. */
  lemma {:induction false} IncrementValue(s: seq<bool>)
    ensures UValue(Increment(s)) == if UValue(s) + 1 == Pow2(|s|) then 0 else UValue(s) + 1
  {
    if s != [] {
      var u, p := UValue(s[1..]), Pow2(|s| - 1);
      if s[0] {
        IncrementValue(s[1..]);
        assert Increment(s)[1..] == Increment(s[1..]);
        assert UValue(Increment(s)) == 2 * UValue(Increment(s[1..]));
      } else {
        assert Increment(s)[1..] == s[1..];
      }
    }
  }

  /** Negation modulo 2^n: the pattern of 2^n - u, or 0 for 0. */
  lemma TwosComplementValue(s: seq<bool>)
    ensures UValue(TwosComplement(s)) == if UValue(s) == 0 then 0 else Pow2(|s|) - UValue(s)
  {
    var f := Flip(s);
    FlipValue(s);
    IncrementValue(f);
    assert TwosComplement(s) == Increment(f);
  }

  /** The top bit weighs 2^(n-1). */
  lemma {:induction false} UValueLast(s: seq<bool>)
    requires |s| >= 1
    ensures UValue(s) == UValue(s[..|s| - 1]) + (if s[|s| - 1] then Pow2(|s| - 1) else 0)
  {
    if |s| > 1 {
      var t := s[1..];
      UValueLast(t);
      assert t[..|t| - 1] == s[..|s| - 1][1..];
    }
  }

  /** The sign bit decides the sign, and the signed value is the unsigned
      one read in the two's-complement range. */
  lemma SValueRange(s: seq<bool>)
    requires |s| >= 1
    ensures SValue(s) == ToSigned(UValue(s), |s|)
    ensures -(Pow2(|s| - 1) as int) <= SValue(s) < Pow2(|s| - 1)
    ensures SValue(s) < 0 <==> s[|s| - 1]
  {
    var n := |s|;
    UValueLast(s);
    assert UValue(s[..n - 1]) < Pow2(n - 1);
    assert Pow2(n) == 2 * Pow2(n - 1);
  }

  /** For a negative pattern, negation gives the magnitude as an unsigned
      pattern; this includes the most negative value, whose negation is
      itself and reads as 2^(n-1). */
  lemma NegativeMagnitude(s: seq<bool>)
    requires SValue(s) < 0
    ensures UValue(TwosComplement(s)) == -SValue(s)
  {
    SValueRange(s);
    TwosComplementValue(s);
  }

  /** The leading one at index m contributes exactly 2^m on top of the bits below it. */
  lemma {:induction false} MsbSplit(s: seq<bool>)
    requires FindMsb(s) >= 0
    ensures UValue(s) == UValue(s[..FindMsb(s)]) + Pow2(FindMsb(s))
  {
    var n := |s|;
    UValueLast(s);
    if !s[n - 1] {
      var t := s[..n - 1];
      MsbSplit(t);
      assert t[..FindMsb(t)] == s[..FindMsb(s)];
    }
  }

  /** FindMsb locates the leading one: 2^msb <= value < 2^(msb+1), and -1
      exactly for the zero pattern. */
  lemma MsbBounds(s: seq<bool>)
    ensures FindMsb(s) == -1 <==> UValue(s) == 0
    ensures FindMsb(s) >= 0 ==> Pow2(FindMsb(s)) <= UValue(s) < Pow2(FindMsb(s) + 1)
  {
    var m := FindMsb(s);
    UValueZeroIff(s);
    if m >= 0 {
      MsbSplit(s);
      assert UValue(s[..m]) < Pow2(m);
      assert Pow2(m + 1) == 2 * Pow2(m);
    }
  }

  /** A left shift by k >= 0 multiplies by 2^k and drops what leaves the width. */
  lemma ShiftLeftValue(s: seq<bool>, k: nat)
    ensures UValue(ShiftBits(s, k)) == (UValue(s) * Pow2(k)) % Pow2(|s|)
  {
    var n := |s|;
    if k <= n {
      ShiftLeftPattern(s, k);
      UValueAppend(Zeros(k), s[..n - k]);
      UValueZeros(k);
      UValueSplit(s, n - k);
      Pow2Add(n - k, k);
      ScaledResidue(UValue(s), UValue(s[..n - k]), UValue(s[n - k..]), Pow2(k), Pow2(n - k), Pow2(n));
    } else {
      assert ShiftBits(s, k) == Zeros(n);
      UValueZeros(n);
      Pow2Add(n, k - n);
      MultipleResidue(UValue(s), Pow2(k), Pow2(n), Pow2(k - n));
    }
  }

  /** Shifting left by k <= n brings in k zero bits at the bottom. */
  lemma ShiftLeftPattern(s: seq<bool>, k: nat)
    requires k <= |s|
    ensures ShiftBits(s, k) == Zeros(k) + s[..|s| - k]
  {
    var r, t := ShiftBits(s, k), Zeros(k) + s[..|s| - k];
    forall i | 0 <= i < |s|
      ensures r[i] == t[i]
    {
      if i >= k {
        assert t[i] == s[..|s| - k][i - k];
      }
    }
  }

  /** Shifting right by j <= n brings in j zero bits at the top. */
  lemma ShiftRightPattern(s: seq<bool>, j: nat)
    requires j <= |s|
    ensures ShiftBits(s, -(j as int)) == s[j..] + Zeros(j)
  {
    var r, t := ShiftBits(s, -(j as int)), s[j..] + Zeros(j);
    forall i | 0 <= i < |s|
      ensures r[i] == t[i]
    {
      if i < |s| - j {
        assert t[i] == s[j..][i];
      }
    }
  }

  /** A right shift by j bits divides by 2^j, rounding down. */
  lemma ShiftRightValue(s: seq<bool>, j: nat)
    ensures UValue(ShiftBits(s, -(j as int))) == UValue(s) / Pow2(j)
  {
    var n := |s|;
    if j <= n {
      ShiftRightPattern(s, j);
      UValueAppend(s[j..], Zeros(j));
      UValueZeros(j);
      UValueSplit(s, j);
      SplitDivMod(UValue(s), UValue(s[..j]), UValue(s[j..]), Pow2(j));
    } else {
      assert ShiftBits(s, -(j as int)) == Zeros(n);
      UValueZeros(n);
      Pow2Monotone(n, j);
      SplitDivMod(UValue(s), UValue(s), 0, Pow2(j));
    }
  }

  /** Patterns of one width are equal exactly when their values are. */
  lemma {:induction false} UValueInjective(a: seq<bool>, b: seq<bool>)
    requires |a| == |b| && UValue(a) == UValue(b)
    ensures a == b
  {
    if a != [] {
      UValueInjective(a[1..], b[1..]);
      assert a == [a[0]] + a[1..] && b == [b[0]] + b[1..];
    }
  }

  /** Negating twice within the width gives the pattern back. */
  lemma TwosComplementInvolutive(s: seq<bool>)
    ensures TwosComplement(TwosComplement(s)) == s
  {
    TwosComplementValue(s);
    TwosComplementValue(TwosComplement(s));
    UValueInjective(TwosComplement(TwosComplement(s)), s);
  }

  /** The low j bits hold the value modulo 2^j. */
  lemma LowBitsValue(s: seq<bool>, j: nat)
    requires j <= |s|
    ensures UValue(s[..j]) == UValue(s) % Pow2(j)
  {
    UValueSplit(s, j);
    SplitDivMod(UValue(s), UValue(s[..j]), UValue(s[j..]), Pow2(j));
  }

  /** Zeros appended on the high side do not change the value. */
  lemma ZeroExtendValue(s: seq<bool>, k: nat)
    ensures UValue(s + Zeros(k)) == UValue(s)
  {
    UValueAppend(s, Zeros(k));
    UValueZeros(k);
  }

  /** A pattern holding t modulo 2^n negates to -t modulo 2^n. */
  lemma NegationWraps(s: seq<bool>, t: int, n: nat)
    requires |s| == n && UValue(s) == t % Pow2(n)
    ensures UValue(TwosComplement(s)) == (-t) % Pow2(n)
  {
    TwosComplementValue(s);
    NegMod(t, Pow2(n));
  }

  /** Shifting s, widened by n zero bits, and keeping the low n bits gives
      the shifted value of s modulo 2^n. */
  lemma ShiftedLowBits(s: seq<bool>, k: int, n: nat, t: nat)
    requires t == ScaleValue(UValue(s), k)
    ensures UValue(ShiftBits(s + Zeros(n), k)[..n]) == t % Pow2(n)
  {
    if k >= 0 {
      ShiftedLowBitsLeft(s, k, n, UValue(s));
    } else {
      ShiftedLowBitsRight(s, k, n, UValue(s));
    }
  }

  lemma ShiftedLowBitsLeft(s: seq<bool>, k: int, n: nat, u: nat)
    requires k >= 0 && u == UValue(s)
    ensures UValue(ShiftBits(s + Zeros(n), k)[..n]) == ScaleValue(u, k) % Pow2(n)
  {
    var wide := s + Zeros(n);
    var sh := ShiftBits(wide, k);
    ScaleLeftValue(u, k);
    ZeroExtendValue(s, n);
    ShiftLeftValue(wide, k);
    LowBitsValue(sh, n);
    ModPow2Twice(u * Pow2(k), n, |wide|);
  }

  lemma ShiftedLowBitsRight(s: seq<bool>, k: int, n: nat, u: nat)
    requires k < 0 && u == UValue(s)
    ensures UValue(ShiftBits(s + Zeros(n), k)[..n]) == ScaleValue(u, k) % Pow2(n)
  {
    var wide := s + Zeros(n);
    var j: nat := -k;
    var sh := ShiftBits(wide, -(j as int));
    ScaleRightValue(u, k, j);
    ZeroExtendValue(s, n);
    ShiftRightValue(wide, j);
    LowBitsValue(sh, n);
  }
}
