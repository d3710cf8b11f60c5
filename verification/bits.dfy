/**
 * Bitwise operations on naturals, the way the C++ code applies them to
 * unsigned integers: AND, OR and complement within a fixed width, single-bit
 * tests, and the facts that turn masks of the form 2^k-1 into remainders.
 */
module Bits {

  /** 2^n. */
  function Pow2(n: nat): (r: nat)
    ensures r >= 1
  {
    if n == 0 then 1 else 2 * Pow2(n - 1)
  }

  const UINT32_LIMIT: nat := 0x1_0000_0000
  const UINT64_LIMIT: nat := 0x1_0000_0000_0000_0000

  /** Bitwise AND, least significant bit first. */
  function And(a: nat, b: nat): nat
  {
    if a == 0 || b == 0 then 0 else 2 * And(a / 2, b / 2) + (a % 2) * (b % 2)
  }

  /** Bitwise OR, least significant bit first. */
  function Or(a: nat, b: nat): nat
  {
    if a == 0 then b else if b == 0 then a
    else 2 * Or(a / 2, b / 2) + (if a % 2 == 1 || b % 2 == 1 then 1 else 0)
  }

  /** Bitwise complement within a width of n bits. */
  function Not(a: nat, n: nat): nat
    requires a < Pow2(n)
  {
    Pow2(n) - 1 - a
  }

  /** Bit i of a. */
  function Bit(a: nat, i: nat): (b: nat)
    ensures b < 2
  {
    (a / Pow2(i)) % 2
  }

  lemma Pow2Add(m: nat, n: nat)
    ensures Pow2(m + n) == Pow2(m) * Pow2(n)
  {
    if m > 0 {
      Pow2Add(m - 1, n);
    }
  }

  lemma Pow2Monotone(m: nat, n: nat)
    requires m <= n
    ensures Pow2(m) <= Pow2(n)
  {
    if m < n {
      Pow2Monotone(m, n - 1);
    }
  }

  /** Splitting off the lowest bit of a remainder by a power of two. */
  lemma ModPow2Step(a: nat, k: nat)
    requires k >= 1
    ensures a % Pow2(k) == 2 * ((a / 2) % Pow2(k - 1)) + a % 2
  {
    var m := Pow2(k - 1);
    var q := (a / 2) / m;
    var r := (a / 2) % m;
    assert a / 2 == q * m + r;
    assert a == 2 * (a / 2) + a % 2;
    assert a == q * (2 * m) + (2 * r + a % 2);
    assert 0 <= 2 * r + a % 2 < 2 * m;
    DivModUnique(a, 2 * m, q, 2 * r + a % 2);
  }

  /** a / (2m) == (a / 2) / m. */
  lemma DivPow2Step(a: nat, k: nat)
    requires k >= 1
    ensures a / Pow2(k) == (a / 2) / Pow2(k - 1)
  {
    var m := Pow2(k - 1);
    var q := (a / 2) / m;
    var r := (a / 2) % m;
    assert a / 2 == q * m + r;
    assert a == 2 * (a / 2) + a % 2;
    assert a == q * (2 * m) + (2 * r + a % 2);
    DivModUnique(a, 2 * m, q, 2 * r + a % 2);
  }

  lemma MulMonotone(x: nat, y: nat, d: nat)
    requires x <= y
    ensures x * d <= y * d
  {
  }

  /** Euclidean division is determined by quotient and in-range remainder. */
  lemma DivModUnique(a: nat, d: nat, q: nat, r: nat)
    requires d > 0 && a == q * d + r && r < d
    ensures a / d == q && a % d == r
  {
    var q' := a / d;
    var r' := a % d;
    assert a == q' * d + r';
    if q' < q {
      MulMonotone(q' + 1, q, d);
    } else if q' > q {
      MulMonotone(q + 1, q', d);
    }
  }

  /** AND with a low mask 2^k-1 keeps the remainder modulo 2^k. */
  lemma {:induction false} AndLowMask(a: nat, k: nat)
    ensures And(a, Pow2(k) - 1) == a % Pow2(k)
  {
    if k == 0 {
    } else if a == 0 {
    } else {
      var m := Pow2(k - 1);
      assert Pow2(k) == 2 * m;
      AndOddMask(a, m);
      AndLowMask(a / 2, k - 1);
      ModPow2Step(a, k);
    }
  }

  /** AND with an odd mask 2m-1 keeps the low bit and ANDs the rest with m-1. */
  lemma AndOddMask(a: nat, m: nat)
    requires a >= 1 && m >= 1
    ensures And(a, 2 * m - 1) == 2 * And(a / 2, m - 1) + a % 2
  {
    DivModUnique(2 * m - 1, 2, m - 1, 1);
  }

  /** The n-bit mask with ones at bits k..n-1 (the complement of 2^k-1 within n bits). */
  function HighMask(n: nat, k: nat): (m: nat)
    requires k <= n
    ensures m + Pow2(k) == Pow2(n)
  {
    Pow2Monotone(k, n);
    Pow2(n) - Pow2(k)
  }

  /** AND with a high mask clears the k low bits. */
  lemma {:induction false} AndHighMask(a: nat, n: nat, k: nat)
    requires k <= n && a < Pow2(n)
    ensures And(a, HighMask(n, k)) == a - a % Pow2(k)
  {
    if k == n {
      DivModUnique(a, Pow2(n), 0, a);
    } else if a == 0 {
    } else if k == 0 {
      AndLowMask(a, n);
      DivModUnique(a, Pow2(n), 0, a);
    } else {
      var m := HighMask(n, k);
      var m' := HighMask(n - 1, k - 1);
      assert m == 2 * m';
      assert m != 0 by {
        Pow2Monotone(k + 1, n);
      }
      assert m / 2 == m' && m % 2 == 0;
      assert And(a, m) == 2 * And(a / 2, m');
      AndHighMask(a / 2, n - 1, k - 1);
      ModPow2Step(a, k);
      assert a == 2 * (a / 2) + a % 2;
    }
  }

  /** OR of two values with no common bit is their sum. */
  lemma {:induction false} OrDisjoint(a: nat, b: nat)
    requires And(a, b) == 0
    ensures Or(a, b) == a + b
  {
    if a != 0 && b != 0 {
      assert And(a / 2, b / 2) == 0;
      OrDisjoint(a / 2, b / 2);
    }
  }

  /** AND with a single bit 2^i tests bit i. */
  lemma {:induction false} AndSingleBit(a: nat, i: nat)
    ensures And(a, Pow2(i)) == Bit(a, i) * Pow2(i)
  {
    if i == 0 {
      if a != 0 {
        assert And(a, 1) == 2 * And(a / 2, 0) + a % 2;
      }
    } else if a == 0 {
    } else {
      AndSingleBit(a / 2, i - 1);
      DivPow2Step(a, i);
    }
  }

  /** A multiple of 2^k has no bit in common with a value below 2^k. */
  lemma {:induction false} AndAlignedLow(base: nat, low: nat, k: nat)
    requires base % Pow2(k) == 0 && low < Pow2(k)
    ensures And(low, base) == 0
  {
    if k == 0 || low == 0 || base == 0 {
    } else {
      assert low % 2 == 0 || base % 2 == 0 by {
        ModPow2Step(base, k);
      }
      assert (base / 2) % Pow2(k - 1) == 0 by {
        ModPow2Step(base, k);
      }
      AndAlignedLow(base / 2, low / 2, k - 1);
    }
  }
}
