/** Powers of two and the Euclidean division facts the bit decoders rest on.
    Shifts by a variable amount are modelled as multiplication and division
    by `Pow2`. The algebra is stated over plain variables, in small steps,
    so that no single proof asks the solver for much non-linear reasoning. */
module Arith {

  /** 2^k. */
  function Pow2(k: nat): (r: nat)
    ensures r > 0
  {
    if k == 0 then 1 else 2 * Pow2(k - 1)
  }

  lemma {:induction false} Pow2Add(a: nat, b: nat)
    ensures Pow2(a + b) == Pow2(a) * Pow2(b)
  {
    if a > 0 {
      Pow2Add(a - 1, b);
    }
  }

  lemma {:induction false} Pow2Monotone(a: nat, b: nat)
    requires a <= b
    ensures Pow2(a) <= Pow2(b)
    decreases b
  {
    if a < b {
      Pow2Monotone(a, b - 1);
    }
  }

  /** Pow2Add with the sum named, so callers need not match `a + b`. */
  lemma Pow2Sum(a: nat, b: nat, c: nat)
    requires a + b == c
    ensures Pow2(c) == Pow2(a) * Pow2(b)
  {
    Pow2Add(a, b);
  }

  lemma Pow2Constants()
    ensures Pow2(8) == 0x100 && Pow2(16) == 0x1_0000
    ensures Pow2(31) == 0x8000_0000 && Pow2(32) == 0x1_0000_0000
  {
    Pow2Sum(8, 8, 16);
    Pow2Sum(16, 15, 31);
    Pow2Sum(16, 16, 32);
  }

  lemma MulAtLeast(k: int, d: int)
    requires k >= 1 && d > 0
    ensures k * d >= d
  {
  }

  lemma MulMonotone(a: int, b: int, c: nat)
    requires a <= b
    ensures a * c <= b * c
  {
  }

  lemma DivNonnegative(x: nat, d: int)
    requires d > 0
    ensures x / d >= 0
  {
  }

  /** Quotient and remainder are determined by any decomposition
      x == q * d + r with 0 <= r < d (Dafny's `/` and `%` are Euclidean). */
  lemma DivModUnique(x: int, d: int, q: int, r: int)
    requires d > 0 && 0 <= r < d && x == q * d + r
    ensures x / d == q && x % d == r
  {
    var q', r' := x / d, x % d;
    assert x == q' * d + r';
    if q > q' {
      MulAtLeast(q - q', d);
    } else if q < q' {
      MulAtLeast(q' - q, d);
    }
  }

  /** (x + d*y) / d == y and (x + d*y) % d == x, for 0 <= x < d. */
  lemma DivModAdd(x: int, d: int, y: int)
    requires d > 0 && 0 <= x < d
    ensures (x + d * y) / d == y && (x + d * y) % d == x
  {
    DivModUnique(x + d * y, d, y, x);
  }

  /** The algebra of one step of splitting a little-endian bit string:
      b + 2*(low + p*rest) == (b + 2*low) + (2p)*rest. */
  lemma SplitStep(b: int, low: int, p: int, rest: int, pp: int)
    requires pp == 2 * p
    ensures b + 2 * (low + p * rest) == (b + 2 * low) + pp * rest
  {
  }

  /** The same step for a digit worth c: b + c*(low + p*rest) == (b + c*low) + (c*p)*rest. */
  lemma DigitStep(b: int, c: int, low: int, p: int, rest: int, pp: int)
    requires pp == c * p
    ensures b + c * (low + p * rest) == (b + c * low) + pp * rest
  {
  }

  lemma ScaleBelow(x: nat, a: nat, k: nat, d: nat)
    requires k > 0 && d == a * k && x < a
    ensures x * k < d
  {
    MulAtLeast(a - x, k);
  }

  lemma AddScaledBelow(x: nat, f: nat, b: nat, d: nat, m: nat)
    requires d > 0 && m == d * b && f < b && x < d
    ensures x + d * f < m
  {
    MulAtLeast(b - f, d);
  }

  lemma Expand3(x: int, f: int, h: int, a: int, b: int, k: int)
    ensures (x + a * (f + b * h)) * k == x * k + (a * k) * f + ((a * k) * b) * h
  {
  }

  lemma FactorSub(d: int, f: int, b: int)
    ensures d * f - d * b == d * (f - b)
  {
  }

  /** A word lo + a*(field + b*hi), with lo < a and field < b, multiplied by
      k and reduced modulo m = a*k*b keeps lo*k + d*field, where d = a*k. */
  lemma ScaledWord(w: nat, lo: nat, field: nat, hi: nat, a: nat, b: nat, k: nat, d: nat, m: nat)
    requires a > 0 && b > 0 && k > 0
    requires d == a * k && m == d * b
    requires lo < a && field < b
    requires w == lo + a * (field + b * hi)
    ensures (w * k) % m == lo * k + d * field
    ensures lo * k < d
    ensures lo * k + d * field < m
  {
    Expand3(lo, field, hi, a, b, k);
    ScaleBelow(lo, a, k, d);
    AddScaledBelow(lo * k, field, b, d, m);
    DivModAdd(lo * k + d * field, m, hi);
  }

  /** Reading low + d*field (low < d) as a signed number whose sign threshold
      is `half` and modulus `m`, then dividing by d, sign-extends field from
      the width whose sign threshold is hb. */
  lemma SignedField(low: nat, field: nat, d: nat, b: nat, hb: nat, half: nat, m: nat)
    requires d > 0 && low < d && field < b
    requires b == 2 * hb && half == d * hb && m == d * b
    ensures (if low + d * field >= half then low + d * field - m else low + d * field) / d
      == (if field >= hb then field - b else field)
  {
    if field >= hb {
      MulMonotone(hb, field, d);
      FactorSub(d, field, b);
      DivModAdd(low, d, field - b);
    } else {
      MulMonotone(field + 1, hb, d);
      DivModAdd(low, d, field);
    }
  }

  /** Subtracting a multiple of d keeps the remainder modulo d. */
  lemma SubMultiple(a: int, b: int, d: int)
    requires d > 0 && b % d == 0
    ensures (a - b) % d == a % d
  {
    DivModUnique(a - b, d, a / d - b / d, a % d);
  }

  /** Adding a multiple of d adds its quotient. */
  lemma DivAddMultiple(a: int, b: int, d: int)
    requires d > 0 && b % d == 0
    ensures (a + b) / d == a / d + b / d && (a + b) % d == a % d
  {
    DivModUnique(a + b, d, a / d + b / d, a % d);
  }

  /** For 0 <= x < m, x - m lies in [-m, 0), so its floor quotient by m is -1. */
  lemma NegativeQuotient(x: nat, m: nat)
    requires m > 0 && x < m
    ensures (x - m) / m == -1
  {
    DivModAdd(x, m, -1);
  }

  /** (x >> 3) &^ 3 on a non-negative x: the byte index x / 8 rounded down to
      a multiple of 4, which is 4 * (x / 32); eight times it is x less its
      remainder modulo 32. */
  lemma AlignWord(x: nat)
    ensures x / 8 - (x / 8) % 4 == 4 * (x / 32)
    ensures 8 * (x / 8 - (x / 8) % 4) + x % 32 == x
  {
    var q := x / 8;
    assert x == 32 * (q / 4) + (8 * (q % 4) + x % 8);
    DivModUnique(x, 32, q / 4, 8 * (q % 4) + x % 8);
  }

  /** A multiple of 4 more than 4 below another multiple of 4 is at least 8 below it. */
  lemma FourAligned(a: nat, len: nat)
    requires a % 4 == 0 && len % 4 == 0 && a + 4 < len
    ensures a + 8 <= len
  {
    DivModUnique(a, 4, a / 4, 0);
    DivModUnique(len, 4, len / 4, 0);
  }

  /** (n + 7) / 8, the bytes n bits occupy: n / 8 whole ones and one more for
      a remainder. */
  lemma BytesForBits(n: nat)
    ensures (n + 7) / 8 == n / 8 + (if n % 8 != 0 then 1 else 0)
  {
    if n % 8 != 0 {
      DivModUnique(n + 7, 8, n / 8 + 1, n % 8 - 1);
    } else {
      DivModUnique(n + 7, 8, n / 8, 7);
    }
  }
}
