/** The shift and mask operators that the bit cursor is built from, on
    non-negative integers small enough that JavaScript's 32-bit operators
    neither wrap nor lose bits. Each is defined by repeated doubling or
    halving, so that reasoning about them stays within linear arithmetic. */
module Arith {

  /** 2^n */
  function Pow2(n: nat): (r: nat)
    ensures r >= 1
  {
    if n == 0 then 1 else 2 * Pow2(n - 1)
  }

  /** x << n */
  function Shl(x: nat, n: nat): nat
  {
    if n == 0 then x else 2 * Shl(x, n - 1)
  }

  /** x >> n */
  function Shr(x: nat, n: nat): nat
  {
    if n == 0 then x else Shr(x / 2, n - 1)
  }

  /** x & (2^n - 1): the low n bits of x */
  function Low(x: nat, n: nat): nat
  {
    if n == 0 then 0 else 2 * Low(x / 2, n - 1) + x % 2
  }

  lemma {:induction false} LowBound(x: nat, n: nat)
    ensures Low(x, n) < Pow2(n)
  {
    if n > 0 {
      LowBound(x / 2, n - 1);
    }
  }

  /** Masking a value that already fits changes nothing. */
  lemma {:induction false} LowOfSmall(x: nat, n: nat)
    requires x < Pow2(n)
    ensures Low(x, n) == x
  {
    if n > 0 {
      LowOfSmall(x / 2, n - 1);
    }
  }

  /** Shifting right by k a value of k + c bits leaves c bits. */
  lemma {:induction false} ShrBound(x: nat, k: nat, c: nat)
    requires x < Pow2(k + c)
    ensures Shr(x, k) < Pow2(c)
  {
    if k > 0 {
      ShrBound(x / 2, k - 1, c);
    }
  }

  /** One more right shift halves the result. */
  lemma {:induction false} ShrSucc(x: nat, k: nat)
    ensures Shr(x, k + 1) == Shr(x, k) / 2
  {
    if k > 0 {
      ShrSucc(x / 2, k - 1);
    }
  }

  /** (x << b) & (2^(b+m) - 1) == (x & (2^m - 1)) << b */
  lemma {:induction false} LowOfShl(x: nat, b: nat, m: nat)
    ensures Low(Shl(x, b), b + m) == Shl(Low(x, m), b)
  {
    if b > 0 {
      LowOfShl(x, b - 1, m);
      var z := Shl(x, b - 1);
      assert Shl(x, b) == 2 * z;
      assert (2 * z) / 2 == z && (2 * z) % 2 == 0;
      assert Low(2 * z, b + m) == 2 * Low(z, b - 1 + m);
    }
  }

  /** (y << b) >> (b + k) == y >> k */
  lemma {:induction false} ShrOfShl(y: nat, b: nat, k: nat)
    ensures Shr(Shl(y, b), b + k) == Shr(y, k)
  {
    if b > 0 {
      ShrOfShl(y, b - 1, k);
      assert Shr(Shl(y, b), b + k) == Shr(Shl(y, b - 1), b - 1 + k);
    }
  }

  /** (x & (2^(k+c) - 1)) >> k == (x >> k) & (2^c - 1) */
  lemma {:induction false} ShrOfLow(x: nat, k: nat, c: nat)
    ensures Shr(Low(x, k + c), k) == Low(Shr(x, k), c)
  {
    if k > 0 {
      ShrOfLow(x / 2, k - 1, c);
      assert Low(x, k + c) / 2 == Low(x / 2, k - 1 + c);
    }
  }

  /** Peeling the lowest bit off the c-bit field k bits up. */
  lemma FieldStep(x: nat, k: nat, c: nat)
    requires c >= 1
    ensures Low(Shr(x, k), c) == 2 * Low(Shr(x, k + 1), c - 1) + Shr(x, k) % 2
  {
    ShrSucc(x, k);
  }

  /** Quotient and remainder are determined by the division equation. */
  lemma DivModUnique(x: int, d: int, q: int, r: int)
    requires d > 0 && 0 <= r < d && x == q * d + r
    ensures x / d == q && x % d == r
  {
    var q', r' := x / d, x % d;
    assert x == q' * d + r';
    assert (q - q') * d == r' - r;
    if q > q' {
      assert (q - q') * d >= d by { MulAtLeast(q - q', d); }
    } else if q < q' {
      assert (q' - q) * d >= d by { MulAtLeast(q' - q, d); }
    }
  }

  lemma MulAtLeast(k: int, d: int)
    requires k >= 1 && d > 0
    ensures k * d >= d
  {
    assert k * d == (k - 1) * d + d;
  }

  /** Removing one period does not change the phase. */
  lemma ModShift(i: int, d: int, i': int)
    requires d > 0 && i >= d && i' == i - d
    ensures i' % d == i % d
  {
    assert i == (i / d) * d + i % d;
    DivModUnique(i', d, i / d - 1, i % d);
  }
}
