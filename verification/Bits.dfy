/** Single bits of machine integers.  A number stands for its two's complement bit pattern, so that
    `TestBit(x, k)` is `x & (1 << k) != 0`, `SetBit` is `x | (1 << k)` and `ClearBit` is `x & !(1 << k)`. */
module Bits {

  function Pow2(k: nat): (p: int)
    ensures p >= 1
  {
    if k == 0 then 1 else 2 * Pow2(k - 1)
  }

  predicate TestBit(x: int, k: nat)
    decreases k
  {
    if k == 0 then x % 2 == 1 else TestBit(x / 2, k - 1)
  }

  function SetBit(x: int, k: nat): int
    decreases k
  {
    if k == 0 then x - x % 2 + 1 else 2 * SetBit(x / 2, k - 1) + x % 2
  }

  function ClearBit(x: int, k: nat): int
    decreases k
  {
    if k == 0 then x - x % 2 else 2 * ClearBit(x / 2, k - 1) + x % 2
  }

  lemma {:induction false} HalfOfQuotient(x: int, p: int)
    requires p >= 1
    ensures x / (2 * p) == x / 2 / p
  {
    var q, r := x / 2 / p, x / 2 % p;
    assert x == q * (2 * p) + (2 * r + x % 2);
    QuotientIs(x, 2 * p, q, 2 * r + x % 2);
  }

  lemma {:induction false} QuotientIs(x: int, d: int, q: int, r: int)
    requires d >= 1 && x == q * d + r && 0 <= r < d
    ensures x / d == q
  {
    var e := x / d - q;
    ProductBound(e, d);
    assert e * d == r - x % d;
  }

  lemma ProductBound(e: int, d: int)
    requires d >= 0
    ensures e >= 1 ==> e * d >= d
    ensures e <= -1 ==> e * d <= -d
  {}

  /** Bit k is what is left of the quotient by the k-th power of two. */
  lemma {:induction false} TestBitIs(x: int, k: nat)
    ensures TestBit(x, k) <==> x / Pow2(k) % 2 == 1
    decreases k
  {
    if k > 0 {
      TestBitIs(x / 2, k - 1);
      HalfOfQuotient(x, Pow2(k - 1));
    }
  }

  lemma {:induction false} TestAfterSet(x: int, k: nat, j: nat)
    ensures TestBit(SetBit(x, k), j) <==> j == k || TestBit(x, j)
    decreases k
  {
    if k > 0 {
      assert SetBit(x, k) / 2 == SetBit(x / 2, k - 1) && SetBit(x, k) % 2 == x % 2;
      if j > 0 {
        TestAfterSet(x / 2, k - 1, j - 1);
      }
    } else if j > 0 {
      assert SetBit(x, 0) / 2 == x / 2;
    }
  }

  lemma {:induction false} TestAfterClear(x: int, k: nat, j: nat)
    ensures TestBit(ClearBit(x, k), j) <==> j != k && TestBit(x, j)
    decreases k
  {
    if k > 0 {
      assert ClearBit(x, k) / 2 == ClearBit(x / 2, k - 1) && ClearBit(x, k) % 2 == x % 2;
      if j > 0 {
        TestAfterClear(x / 2, k - 1, j - 1);
      }
    } else if j > 0 {
      assert ClearBit(x, 0) / 2 == x / 2;
    }
  }

  /** Setting or clearing a bit below the sign bit stays within the machine type. */
  lemma {:induction false} BitRange(x: int, k: nat, n: nat)
    requires k < n && -Pow2(n) <= x < Pow2(n)
    ensures -Pow2(n) <= SetBit(x, k) < Pow2(n) && -Pow2(n) <= ClearBit(x, k) < Pow2(n)
    ensures x >= 0 ==> SetBit(x, k) >= 0 && ClearBit(x, k) >= 0
    decreases k
  {
    if k > 0 {
      BitRange(x / 2, k - 1, n - 1);
    }
  }

  /** Adding a power of two whose bit is clear sets that bit. */
  lemma {:induction false} AddPow2(x: int, k: nat)
    ensures SetBit(x, k) == if TestBit(x, k) then x else x + Pow2(k)
    decreases k
  {
    if k > 0 {
      AddPow2(x / 2, k - 1);
    }
  }

  /** Clearing a set bit takes away its power of two. */
  lemma {:induction false} SubtractPow2(x: int, k: nat)
    ensures ClearBit(x, k) == if TestBit(x, k) then x - Pow2(k) else x
    decreases k
  {
    if k > 0 {
      SubtractPow2(x / 2, k - 1);
    }
  }

  lemma {:induction false} HighBitClear(x: int, n: nat, k: nat)
    requires 0 <= x < Pow2(n) && k >= n
    ensures !TestBit(x, k)
    decreases k
  {
    if k > 0 {
      HighBitClear(x / 2, if n == 0 then 0 else n - 1, k - 1);
    }
  }

  /** Numbers of `n` bits are determined by their bits. */
  lemma {:induction false} SameBits(x: int, y: int, n: nat)
    requires 0 <= x < Pow2(n) && 0 <= y < Pow2(n)
    requires forall k :: 0 <= k < n ==> TestBit(x, k) == TestBit(y, k)
    ensures x == y
    decreases n
  {
    if n > 0 {
      assert TestBit(x, 0) == TestBit(y, 0);
      forall k | 0 <= k < n - 1
        ensures TestBit(x / 2, k) == TestBit(y / 2, k)
      {
        assert TestBit(x, k + 1) == TestBit(y, k + 1);
      }
      SameBits(x / 2, y / 2, n - 1);
    }
  }
}
