/**
 * Bit-level arithmetic on non-negative integers, as C performs it on
 * unsigned words: powers of two, shifts, and the bitwise `&` and `|`
 * defined one bit at a time. Every operator is defined by halving, so the
 * lemmas below are inductions over the bit position and stay within linear
 * arithmetic; `ShrLowDivMod` ties the shifts back to division and remainder.
 */
module Bits {

  /** 2 to the power n. */
  function Pow2(n: nat): (r: nat)
    ensures r >= 1
  {
    if n == 0 then 1 else 2 * Pow2(n - 1)
  }

  /** C's `x >> n` on a non-negative operand. */
  function Shr(x: nat, n: nat): nat
  {
    if n == 0 then x else Shr(x / 2, n - 1)
  }

  /** C's `x << n` when the result does not overflow. */
  function Shl(x: nat, n: nat): nat
  {
    if n == 0 then x else 2 * Shl(x, n - 1)
  }

  /** The k low bits of x, that is x modulo 2^k. */
  function Low(x: nat, k: nat): nat
  {
    if k == 0 then 0 else 2 * Low(x / 2, k - 1) + x % 2
  }

  /** Bit number k of x. */
  function Bit(x: nat, k: nat): nat
  {
    Shr(x, k) % 2
  }

  /** Bitwise AND, bit by bit from the least significant end. */
  function And(x: nat, y: nat): nat
  {
    if x == 0 || y == 0 then 0
    else 2 * And(x / 2, y / 2) + (x % 2) * (y % 2)
  }

  /** Bitwise OR, bit by bit from the least significant end. */
  function Or(x: nat, y: nat): nat
    decreases x + y
  {
    if x == 0 then y
    else if y == 0 then x
    else 2 * Or(x / 2, y / 2) + (if x % 2 == 1 || y % 2 == 1 then 1 else 0)
  }

  lemma MulTwo(q: int, p: int)
    ensures q * (2 * p) == 2 * (q * p)
  {
  }

  lemma MulAtLeast(a: int, d: int)
    requires a >= 1 && d > 0
    ensures a * d >= d
  {
    if a > 1 {
      MulAtLeast(a - 1, d);
      assert a * d == (a - 1) * d + d;
    }
  }

  /** Division with remainder is unique. */
  lemma DivModUnique(x: int, d: int, q: int, r: int)
    requires d > 0 && 0 <= r < d && x == q * d + r
    ensures x / d == q && x % d == r
  {
    var q', r' := x / d, x % d;
    assert x == q' * d + r';
    if q' > q {
      assert (q' - q) * d == q' * d - q * d;
      MulAtLeast(q' - q, d);
    } else if q' < q {
      assert (q - q') * d == q * d - q' * d;
      MulAtLeast(q - q', d);
    }
  }

  /** The low k bits are below 2^k. */
  lemma {:induction false} LowBound(x: nat, k: nat)
    ensures Low(x, k) < Pow2(k)
  {
    if k > 0 {
      LowBound(x / 2, k - 1);
    }
  }

  /** x splits into its bits above k and its k low bits. */
  lemma {:induction false} ShrLow(x: nat, k: nat)
    ensures x == Shr(x, k) * Pow2(k) + Low(x, k)
  {
    if k > 0 {
      ShrLow(x / 2, k - 1);
      var q, p, l := Shr(x / 2, k - 1), Pow2(k - 1), Low(x / 2, k - 1);
      assert Shr(x, k) == q && Pow2(k) == 2 * p && Low(x, k) == 2 * l + x % 2;
      MulTwo(q, p);
    }
  }

  /** Shifts and low bits are division and remainder by a power of two. */
  lemma ShrLowDivMod(x: nat, k: nat)
    ensures Shr(x, k) == x / Pow2(k) && Low(x, k) == x % Pow2(k)
  {
    ShrLow(x, k);
    LowBound(x, k);
    DivModUnique(x, Pow2(k), Shr(x, k), Low(x, k));
  }

  /** A value below 2^k is its own k low bits, and has no bits above. */
  lemma {:induction false} LowSmall(x: nat, k: nat)
    requires x < Pow2(k)
    ensures Low(x, k) == x && Shr(x, k) == 0
  {
    if k > 0 {
      LowSmall(x / 2, k - 1);
    }
  }

  /** Adding a multiple of 2^k does not change the k low bits. */
  lemma {:induction false} LowPlusShl(x: nat, y: nat, k: nat)
    ensures Low(x + Shl(y, k), k) == Low(x, k)
    ensures Shr(x + Shl(y, k), k) == Shr(x, k) + y
  {
    if k > 0 {
      assert (x + Shl(y, k)) / 2 == x / 2 + Shl(y, k - 1);
      assert (x + Shl(y, k)) % 2 == x % 2;
      LowPlusShl(x / 2, y, k - 1);
    }
  }

  /** AND with a run of k low ones keeps the low k bits. */
  lemma {:induction false} AndLowMask(x: nat, k: nat)
    ensures And(x, Pow2(k) - 1) == Low(x, k)
  {
    if x == 0 {
      LowSmall(0, k);
    } else if k > 0 {
      AndLowMask(x / 2, k - 1);
      assert (Pow2(k) - 1) / 2 == Pow2(k - 1) - 1 && (Pow2(k) - 1) % 2 == 1;
    }
  }

  lemma {:induction false} ShlZero(k: nat)
    ensures Shl(0, k) == 0
  {
    if k > 0 {
      ShlZero(k - 1);
    }
  }

  /** A left shift multiplies by a power of two. */
  lemma {:induction false} ShlMul(x: nat, k: nat)
    ensures Shl(x, k) == x * Pow2(k)
  {
    if k > 0 {
      ShlMul(x, k - 1);
      MulTwo(x, Pow2(k - 1));
    }
  }

  /** OR of a number below 2^k with a multiple of 2^k is their sum. */
  lemma {:induction false} OrDisjoint(x: nat, y: nat, k: nat)
    requires x < Pow2(k)
    ensures Or(x, Shl(y, k)) == x + Shl(y, k)
  {
    if y == 0 {
      ShlZero(k);
    } else if k > 0 && x > 0 {
      assert Shl(y, k) / 2 == Shl(y, k - 1) && Shl(y, k) % 2 == 0;
      OrDisjoint(x / 2, y, k - 1);
    }
  }

  /** AND with the single bit 2^k isolates bit k. */
  lemma {:induction false} AndSingleBit(x: nat, k: nat)
    ensures And(x, Pow2(k)) == if Bit(x, k) == 1 then Pow2(k) else 0
  {
    if x == 0 {
      LowSmall(0, k);
    } else if k == 0 {
      assert And(x / 2, 0) == 0;
    } else {
      AndSingleBit(x / 2, k - 1);
      assert Pow2(k) / 2 == Pow2(k - 1) && Pow2(k) % 2 == 0;
    }
  }

  /** AND with every bit below n except bit k clears bit k of a value below 2^n. */
  lemma {:induction false} AndClearBit(x: nat, k: nat, n: nat)
    requires k < n && x < Pow2(n) && Pow2(k) < Pow2(n)
    ensures And(x, Pow2(n) - 1 - Pow2(k)) == if Bit(x, k) == 1 then x - Pow2(k) else x
  {
    var m := Pow2(n) - 1 - Pow2(k);
    if x == 0 {
      LowSmall(0, k);
    } else if k == 0 {
      assert m / 2 == Pow2(n - 1) - 1 && m % 2 == 0;
      AndLowMask(x / 2, n - 1);
      LowSmall(x / 2, n - 1);
    } else {
      assert m / 2 == Pow2(n - 1) - 1 - Pow2(k - 1) && m % 2 == 1;
      AndClearBit(x / 2, k - 1, n - 1);
    }
  }

  /** OR with the single bit 2^k sets bit k. */
  lemma {:induction false} OrSetBit(x: nat, k: nat)
    ensures Or(x, Pow2(k)) == if Bit(x, k) == 1 then x else x + Pow2(k)
  {
    if x == 0 {
      LowSmall(0, k);
    } else if k == 0 {
      assert Or(x, 1) == 2 * Or(x / 2, 0) + 1;
    } else {
      OrSetBit(x / 2, k - 1);
      assert Pow2(k) / 2 == Pow2(k - 1) && Pow2(k) % 2 == 0;
    }
  }

  /** Shifting the mask of k + j low ones right by j leaves k low ones. */
  lemma {:induction false} LowMaskShift(k: nat, j: nat)
    ensures Shr(Pow2(k + j) - 1, j) == Pow2(k) - 1
  {
    if j > 0 {
      assert (Pow2(k + j) - 1) / 2 == Pow2(k + j - 1) - 1;
      LowMaskShift(k, j - 1);
    }
  }

  /** Shifting right by a then by b is shifting by a + b. */
  lemma {:induction false} ShrShr(x: nat, a: nat, b: nat)
    ensures Shr(Shr(x, a), b) == Shr(x, a + b)
  {
    if a > 0 {
      ShrShr(x / 2, a - 1, b);
    }
  }

  /** Shifting a value below 2^n right by k leaves a value below 2^(n - k). */
  lemma {:induction false} ShrBound(x: nat, n: nat, k: nat)
    requires x < Pow2(n) && k <= n
    ensures Shr(x, k) < Pow2(n - k)
  {
    if k > 0 {
      ShrBound(x / 2, n - 1, k - 1);
    }
  }

  /** The powers of two that the word formats use. */
  lemma Pow2Constants()
    ensures Pow2(30) == 0x4000_0000 && Pow2(31) == 0x8000_0000 && Pow2(32) == 0x1_0000_0000
  {
    assert Pow2(1) == 2;
    assert Pow2(2) == 4;
    assert Pow2(3) == 8;
    assert Pow2(4) == 16;
    assert Pow2(5) == 32;
    assert Pow2(6) == 64;
    assert Pow2(7) == 128;
    assert Pow2(8) == 256;
    assert Pow2(9) == 512;
    assert Pow2(10) == 1024;
    assert Pow2(11) == 2048;
    assert Pow2(12) == 4096;
    assert Pow2(13) == 8192;
    assert Pow2(14) == 16384;
    assert Pow2(15) == 32768;
    assert Pow2(16) == 65536;
    assert Pow2(17) == 131072;
    assert Pow2(18) == 262144;
    assert Pow2(19) == 524288;
    assert Pow2(20) == 1048576;
    assert Pow2(21) == 2097152;
    assert Pow2(22) == 4194304;
    assert Pow2(23) == 8388608;
    assert Pow2(24) == 16777216;
    assert Pow2(25) == 33554432;
    assert Pow2(26) == 67108864;
    assert Pow2(27) == 134217728;
    assert Pow2(28) == 268435456;
    assert Pow2(29) == 536870912;
    assert Pow2(30) == 1073741824;
    assert Pow2(31) == 2147483648;
    assert Pow2(32) == 4294967296;
  }
}
