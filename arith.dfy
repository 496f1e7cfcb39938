/** Powers of two and the uniqueness of Euclidean division: the integer
    facts that the bit-level models of the adapter and of ipow rest on. */
module Arith {

  /** 2^k. */
  function Pow2(k: nat): (r: nat)
    ensures r >= 1
  {
    if k == 0 then 1 else 2 * Pow2(k - 1)
  }

  lemma {:induction false} Pow2Add(a: nat, b: nat)
    ensures Pow2(a + b) == Pow2(a) * Pow2(b)
  {
    if a > 0 {
      Pow2Add(a - 1, b);
      calc {
        Pow2(a + b);
        2 * Pow2(a - 1 + b);
        2 * (Pow2(a - 1) * Pow2(b));
        (2 * Pow2(a - 1)) * Pow2(b);
      }
    }
  }

  lemma {:induction false} Pow2Monotone(a: nat, b: nat)
    requires a <= b
    ensures Pow2(a) <= Pow2(b)
  {
    if a < b {
      Pow2Monotone(a, b - 1);
    }
  }

  /** A value below 2^(a+1) that is at least 2^b forces b <= a. */
  lemma Pow2Below(a: nat, b: nat, x: int)
    requires Pow2(b) <= x < Pow2(a + 1)
    ensures b <= a
  {
    if b > a {
      Pow2Monotone(a + 1, b);
    }
  }

  /** Multiplication by a positive factor is monotone. */
  lemma MulMonotone(a: int, b: int, c: int)
    requires a <= b && c >= 0
    ensures a * c <= b * c
  {
  }

  /** Euclidean division is determined by any quotient/remainder pair. */
  lemma DivModUnique(x: int, d: int, q: int, r: int)
    requires d > 0 && 0 <= r < d && x == q * d + r
    ensures x / d == q && x % d == r
  {
    var q', r' := x / d, x % d;
    assert x == q' * d + r' && 0 <= r' < d;
    assert (q - q') * d == r' - r;
    if q > q' {
      MulMonotone(1, q - q', d);
      assert false;
    } else if q < q' {
      MulMonotone(1, q' - q, d);
      assert false;
    }
  }

  /** Adding a multiple of m does not change the residue. */
  lemma ModAddMultiple(x: int, k: int, m: int)
    requires m > 0
    ensures (x + k * m) % m == x % m
  {
    var q, r := x / m, x % m;
    assert x + k * m == (q + k) * m + r;
    DivModUnique(x + k * m, m, q + k, r);
  }

  /** Residues multiply: (a * b) mod m depends only on a mod m and b mod m. */
  lemma ModMul(a: int, b: int, m: int)
    requires m > 0
    ensures (a * b) % m == ((a % m) * (b % m)) % m
  {
    var qa, ra := a / m, a % m;
    var qb, rb := b / m, b % m;
    MulSplit(a, b, ra, qa, m);
    ModAddMultiple(ra * b, qa * b, m);
    MulSplit(b, ra, rb, qb, m);
    ModAddMultiple(rb * ra, qb * ra, m);
  }

  /** x = r + q * m gives x * y == r * y + (q * y) * m. */
  lemma MulSplit(x: int, y: int, r: int, q: int, m: int)
    requires x == r + q * m
    ensures x * y == r * y + (q * y) * m
  {
  }

  /** Reducing one factor first, and the product twice, leaves the residue
      of the product unchanged. */
  lemma MulResidue(a: int, b: int, m: int)
    requires m > 0
    ensures ((a * (b % m)) % m) % m == (a * b) % m
  {
    var c := b % m;
    var p := a * c;
    DivModUnique(c, m, 0, c);
    DivModUnique(p % m, m, 0, p % m);
    ModMul(a, b, m);
    ModMul(a, c, m);
  }

  /** Scaling u = low + 2^(n-k) * high by 2^k modulo 2^n keeps low * 2^k. */
  lemma ScaledResidue(u: int, low: int, high: int, pk: int, pnk: int, pn: int)
    requires u == low + pnk * high && 0 <= low < pnk
    requires pn == pnk * pk && pk >= 1
    ensures (u * pk) % pn == pk * low
  {
    assert u * pk == high * pn + low * pk;
    MulMonotone(low, pnk - 1, pk);
    DivModUnique(u * pk, pn, high, low * pk);
  }

  /** A multiple of m leaves no residue. */
  lemma MultipleResidue(u: int, pk: int, pn: int, q: int)
    requires pn > 0 && pk == pn * q
    ensures (u * pk) % pn == 0
  {
    assert u * pk == (u * q) * pn;
    DivModUnique(u * pk, pn, u * q, 0);
  }

  /** u = low + d * high with 0 <= low < d has quotient high and residue low. */
  lemma SplitDivMod(u: int, low: int, high: int, d: int)
    requires u == low + d * high && 0 <= low < d
    ensures u / d == high && u % d == low
  {
    DivModUnique(u, d, high, low);
  }

  /** Reducing modulo a*b first does not change the residue modulo a. */
  lemma ModMod(x: int, a: int, b: int)
    requires a > 0 && b > 0
    ensures (x % (a * b)) % a == x % a
  {
    var q, r := x / (a * b), x % (a * b);
    assert x == r + (q * b) * a;
    ModAddMultiple(r, q * b, a);
  }

  /** The Euclidean residue of -x: 0 or m minus the residue of x. */
  lemma NegMod(x: int, m: int)
    requires m > 0
    ensures (-x) % m == if x % m == 0 then 0 else m - x % m
  {
    var q, r := x / m, x % m;
    if r == 0 {
      DivModUnique(-x, m, -q, 0);
    } else {
      DivModUnique(-x, m, -q - 1, m - r);
    }
  }

  /** Reducing modulo 2^N, then modulo 2^n for n <= N, is reducing modulo 2^n. */
  lemma ModPow2Twice(x: int, n: nat, bigN: nat)
    requires n <= bigN
    ensures (x % Pow2(bigN)) % Pow2(n) == x % Pow2(n)
  {
    Pow2Add(n, bigN - n);
    assert Pow2(bigN) == Pow2(n) * Pow2(bigN - n);
    ModMod(x, Pow2(n), Pow2(bigN - n));
  }

  /** A value below 2^a shifted up by b stays below 2^n when a + b <= n. */
  lemma ShiftedBelow(u: int, a: nat, b: nat, n: nat)
    requires 0 <= u < Pow2(a) && a + b <= n
    ensures 0 <= u * Pow2(b) < Pow2(n)
  {
    Pow2Add(a, b);
    Pow2Monotone(a + b, n);
    BelowProduct(u, Pow2(a), Pow2(b), Pow2(n));
  }

  lemma BelowProduct(u: int, pa: int, pb: int, m: int)
    requires 0 <= u < pa && pb >= 1 && pa * pb <= m
    ensures 0 <= u * pb < m
  {
    MulMonotone(u, pa - 1, pb);
    MulMonotone(0, u, pb);
    assert (pa - 1) * pb == pa * pb - pb;
  }

  /** Shifting the value u by k places with no width limit, one place at a
      time: doubling for a positive k, halving with the remainder dropped
      for a negative one. */
  function ScaleValue(u: nat, k: int): (r: nat)
    decreases if k >= 0 then k else -k
  {
    if k == 0 then u
    else if k > 0 then 2 * ScaleValue(u, k - 1)
    else ScaleValue(u / 2, k + 1)
  }

  /** A left shift by k multiplies by 2^k. */
  lemma {:induction false} ScaleLeftValue(u: nat, k: nat)
    ensures ScaleValue(u, k) == u * Pow2(k)
  {
    if k > 0 {
      ScaleLeftValue(u, k - 1);
      assert u * Pow2(k) == 2 * (u * Pow2(k - 1));
    }
  }

  /** A right shift by j divides by 2^j, rounding down. */
  lemma {:induction false} ScaleRightValue(u: nat, k: int, j: nat)
    requires k == -(j as int)
    ensures ScaleValue(u, k) == u / Pow2(j)
    decreases j
  {
    if j > 0 {
      ScaleRightValue(u / 2, k + 1, j - 1);
      HalveThenDivide(u, j - 1);
    }
  }

  /** A value below a * b, divided by b, is below a. */
  lemma DivBelow(x: int, a: int, b: int)
    requires 0 <= x < a * b && b > 0
    ensures x / b < a
  {
    var q, r := x / b, x % b;
    assert x == q * b + r;
    if q >= a {
      MulMonotone(a, q, b);
      assert false;
    }
  }

  /** Halving and then dividing by 2^j is dividing by 2^(j+1). */
  lemma HalveThenDivide(u: nat, j: nat)
    ensures (u / 2) / Pow2(j) == u / Pow2(j + 1)
  {
    var q, r0 := u / 2, u % 2;
    var q2, r1 := q / Pow2(j), q % Pow2(j);
    assert u == r0 + 2 * q;
    assert q == r1 + Pow2(j) * q2;
    assert u == (r0 + 2 * r1) + Pow2(j + 1) * q2;
    SplitDivMod(u, r0 + 2 * r1, q2, Pow2(j + 1));
  }
}
