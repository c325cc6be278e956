/** Arithmetic on the bit patterns of non-negative C integers. */
module Bits {

  /** 2 to the power n. */
  function Pow2(n: nat): (r: nat)
    ensures r >= 1
  {
    if n == 0 then 1 else 2 * Pow2(n - 1)
  }

  lemma {:induction false} Pow2Monotone(j: nat, n: nat)
    requires j <= n
    ensures Pow2(j) <= Pow2(n)
    decreases n
  {
    if j < n { Pow2Monotone(j, n - 1); }
  }

  lemma {:induction false} Pow2Add(a: nat, b: nat)
    ensures Pow2(a + b) == Pow2(a) * Pow2(b)
    decreases b
  {
    if b > 0 { Pow2Add(a, b - 1); }
  }

  lemma MulAtLeast(k: int, m: int)
    requires k >= 1 && m > 0
    ensures k * m >= m
  {
    assert k * m == (k - 1) * m + m;
    assert (k - 1) * m >= 0;
  }

  lemma DivModUnique(x: int, m: int, a: int, r: int)
    requires m > 0 && x == a * m + r && 0 <= r < m
    ensures x / m == a && x % m == r
  {
    var q, s := x / m, x % m;
    assert x == q * m + s;
    assert 0 <= s < m;
    assert (q - a) * m == r - s by {
      assert q * m - a * m == (q - a) * m;
    }
    if q > a {
      MulAtLeast(q - a, m);
      assert false;
    } else if q < a {
      MulAtLeast(a - q, m);
      assert false;
    }
  }

  /** Bitwise AND of two non-negative numbers, one binary digit at a time. */
  function BitAnd(x: nat, y: nat): nat
    decreases x
  {
    if x == 0 || y == 0 then 0
    else 2 * BitAnd(x / 2, y / 2) + (if x % 2 == 1 && y % 2 == 1 then 1 else 0)
  }

  /** AND with a mask of n one-bits keeps a number below 2^n. */
  lemma {:induction false} AndAllOnes(x: nat, n: nat)
    requires x < Pow2(n)
    ensures BitAnd(x, Pow2(n) - 1) == x
    decreases n
  {
    if x != 0 {
      assert n > 0;
      AndAllOnes(x / 2, n - 1);
      assert (Pow2(n) - 1) / 2 == Pow2(n - 1) - 1;
      assert (Pow2(n) - 1) % 2 == 1;
    }
  }

  lemma ModHalf(x: nat, j: nat)
    requires j > 0
    ensures x % Pow2(j) == 2 * ((x / 2) % Pow2(j - 1)) + x % 2
  {
    var p := Pow2(j - 1);
    var q := x / 2;
    var a := q / p;
    var b := q % p;
    assert q == a * p + b;
    assert x == 2 * q + x % 2;
    assert x == a * (2 * p) + (2 * b + x % 2);
    DivModUnique(x, 2 * p, a, 2 * b + x % 2);
  }

  /** AND with ones in bits j..n-1 clears the j low-order bits. */
  lemma {:induction false} AndHighOnes(x: nat, n: nat, j: nat)
    requires j <= n && x < Pow2(n)
    ensures Pow2(j) <= Pow2(n)
    ensures BitAnd(x, Pow2(n) - Pow2(j)) == x - x % Pow2(j)
    decreases j, 1
  {
    Pow2Monotone(j, n);
    if j == 0 {
      AndAllOnes(x, n);
    } else if j == n {
      AndNothing(x, n);
    } else if x == 0 {
      DivModUnique(0, Pow2(j), 0, 0);
    } else {
      AndHighOnesInner(x, n, j);
    }
  }

  lemma {:induction false} AndHighOnesInner(x: nat, n: nat, j: nat)
    requires 0 < j < n && 0 < x < Pow2(n)
    ensures Pow2(j) <= Pow2(n)
    ensures BitAnd(x, Pow2(n) - Pow2(j)) == x - x % Pow2(j)
    decreases j, 0
  {
    assert Pow2(n) == 2 * Pow2(n - 1);
    AndHighOnes(x / 2, n - 1, j - 1);
    Pow2Monotone(j, n);
    AndHighOnesStep(x, n, j);
  }

  lemma AndNothing(x: nat, n: nat)
    requires x < Pow2(n)
    ensures BitAnd(x, 0) == 0 == x - x % Pow2(n)
  {
    DivModUnique(x, Pow2(n), 0, x);
  }

  /** One bit of the induction: the mask's low bit is 0, so AND drops x's low bit. */
  lemma AndHighOnesStep(x: nat, n: nat, j: nat)
    requires 0 < j < n && x > 0
    requires Pow2(j - 1) <= Pow2(n - 1) && Pow2(j) <= Pow2(n)
    requires BitAnd(x / 2, Pow2(n - 1) - Pow2(j - 1)) == x / 2 - (x / 2) % Pow2(j - 1)
    ensures BitAnd(x, Pow2(n) - Pow2(j)) == x - x % Pow2(j)
  {
    var m := Pow2(n) - Pow2(j);
    var h := x / 2;
    assert m == 2 * (Pow2(n - 1) - Pow2(j - 1));
    assert m / 2 == Pow2(n - 1) - Pow2(j - 1) && m % 2 == 0;
    assert m != 0 by { Pow2Monotone(j + 1, n); }
    ModHalf(x, j);
    calc {
      BitAnd(x, m);
      2 * BitAnd(h, m / 2);
      2 * (h - h % Pow2(j - 1));
      x - x % Pow2(j);
    }
  }

  /** The 32-bit pattern of the C expression `~7`. */
  const NOT_SEVEN := 0xFFFF_FFF8

  /** `x & ~7` on a 32-bit pattern is `x` with its three low-order bits cleared. */
  lemma AndNotSeven(x: nat)
    requires x < 0x1_0000_0000
    ensures BitAnd(x, NOT_SEVEN) == x - x % 8
  {
    assert Pow2(3) == 8;
    assert Pow2(4) == 16;
    Pow2Add(4, 4);
    assert Pow2(8) == 256;
    Pow2Add(8, 8);
    assert Pow2(16) == 65536;
    Pow2Add(16, 16);
    assert Pow2(32) == 0x1_0000_0000;
    AndHighOnes(x, 32, 3);
  }
}
