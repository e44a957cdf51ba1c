/**
 * Mathematical stand-ins for the C shift and mask operations the codec uses.
 * `x >> n` on an unsigned value is `x / Pow2(n)`, `x & ((1 << n) - 1)` is
 * `x % Pow2(n)`, and a byte is an integer in 0..255.
 */
module Arith {

  type byte = x: int | 0 <= x < 256

  const UINT32_LIMIT: nat := 0x1_0000_0000
  const UINT64_LIMIT: nat := 0x1_0000_0000_0000_0000

  predicate Int32(x: int) {
    -0x8000_0000 <= x < 0x8000_0000
  }

  function Pow2(n: nat): (p: nat)
    ensures p >= 1
  {
    if n == 0 then 1 else 2 * Pow2(n - 1)
  }

  lemma {:induction false} Pow2Add(a: nat, b: nat)
    ensures Pow2(a + b) == Pow2(a) * Pow2(b)
  {
    if a > 0 {
      Pow2Add(a - 1, b);
      assert Pow2(a + b) == 2 * Pow2(a - 1 + b);
    }
  }

  /** One more 7-bit group multiplies the range by 128. */
  lemma Pow2Group(n: nat)
    requires n >= 1
    ensures Pow2(7 * n) == 128 * Pow2(7 * (n - 1))
  {
    var below := 7 * (n - 1);
    Pow2Sum(below, 7, 7 * n);
    Pow2Seven();
    var p := Pow2(below);
    assert Pow2(7 * n) == p * 128;
  }

  /** `Pow2Add` for a sum given by name. */
  lemma Pow2Sum(a: nat, b: nat, c: nat)
    requires a + b == c
    ensures Pow2(c) == Pow2(a) * Pow2(b)
  {
    Pow2Add(a, b);
  }

  lemma Pow2Seven()
    ensures Pow2(7) == 128
  {
  }

  /** A quotient below k follows from a dividend below p * k. */
  lemma DivBelow(v: nat, p: nat, k: nat)
    requires p > 0 && v < p * k
    ensures 0 <= v / p < k
  {
    DivNonnegative(v, p);
    if v / p >= k {
      MulLeft(p, k, v / p);
    }
  }

  /** Euclid's equation for a positive divisor. */
  lemma DivMod(v: int, p: int)
    requires p > 0
    ensures v == (v / p) * p + v % p && 0 <= v % p < p
  {
  }

  lemma DivNonnegative(v: int, p: int)
    requires v >= 0 && p > 0
    ensures v / p >= 0
  {
    var q, r := v / p, v % p;
    assert v == p * q + r;
    if q < 0 {
      MulLeft(p, q, -1);
    }
  }

  lemma {:induction false} Pow2Monotone(a: nat, b: nat)
    requires a <= b
    ensures Pow2(a) <= Pow2(b)
  {
    if a < b {
      Pow2Monotone(a, b - 1);
    }
  }

  lemma {:induction false} MulAtLeast(k: int, d: int)
    requires k >= 1 && d > 0
    ensures k * d >= d
  {
    if k > 1 {
      MulAtLeast(k - 1, d);
      assert k * d == (k - 1) * d + d;
    }
  }

  /** Quotient and remainder are determined by the equation they satisfy. */
  lemma DivModUnique(x: int, d: int, q: int, r: int)
    requires d > 0 && 0 <= r < d && x == q * d + r
    ensures x / d == q && x % d == r
  {
    var q', r' := x / d, x % d;
    assert x == q' * d + r';
    if q' > q {
      assert q' * d - q * d == (q' - q) * d;
      MulAtLeast(q' - q, d);
    } else if q' < q {
      assert q * d - q' * d == (q - q') * d;
      MulAtLeast(q - q', d);
    }
  }

  lemma MulLeft(k: int, a: int, b: int)
    requires k >= 0 && a <= b
    ensures k * a <= k * b
  {
    if a < b {
      assert k * b - k * a == k * (b - a);
      if k > 0 { MulAtLeast(k, b - a); }
    }
  }

  /** Dividing by a, then by b, is dividing by a * b. */
  lemma DivDiv(x: nat, a: nat, b: nat)
    requires a > 0 && b > 0
    ensures x / a / b == x / (a * b)
  {
    var q1, r1 := x / a, x % a;
    var q2, r2 := q1 / b, q1 % b;
    assert x == q1 * a + r1;
    assert q1 == q2 * b + r2;
    assert q1 * a == q2 * (a * b) + r2 * a by {
      assert q1 * a == (q2 * b + r2) * a;
      assert (q2 * b + r2) * a == q2 * b * a + r2 * a;
      assert q2 * b * a == q2 * (a * b);
    }
    MulLeft(a, r2, b - 1);
    assert a * (b - 1) == a * b - a;
    DivModUnique(x, a * b, q2, r2 * a + r1);
  }

  lemma Pow2Uint32()
    ensures Pow2(32) == UINT32_LIMIT
  {
    assert Pow2(8) == 256;
    Pow2Add(8, 8);
    Pow2Add(16, 16);
  }

  lemma Pow2Uint64()
    ensures Pow2(64) == UINT64_LIMIT
  {
    Pow2Uint32();
    Pow2Add(32, 32);
  }

  /** `x >> n` for an unsigned x: n halvings. */
  function Shr(x: nat, n: nat): nat {
    if n == 0 then x else Shr(x / 2, n - 1)
  }

  lemma {:induction false} ShrIsDiv(x: nat, n: nat)
    ensures Shr(x, n) == x / Pow2(n)
  {
    if n > 0 {
      ShrIsDiv(x / 2, n - 1);
      DivDiv(x, 2, Pow2(n - 1));
    }
  }

  /** Shifting right by a, then by b, is shifting right by a + b. */
  lemma {:induction false} ShrShr(x: nat, a: nat, b: nat)
    ensures Shr(Shr(x, a), b) == Shr(x, a + b)
  {
    if a > 0 {
      ShrShr(x / 2, a - 1, b);
    }
  }

  /** A right shift leaves nothing exactly when the value is below the shifted-out range. */
  lemma ShrZeroIff(x: nat, n: nat)
    ensures Shr(x, n) == 0 <==> x < Pow2(n)
  {
    ShrIsDiv(x, n);
    var p := Pow2(n);
    if x < p {
      DivModUnique(x, p, 0, x);
    } else {
      assert x == (x / p) * p + x % p;
    }
  }
}
