/** Powers of two, bitwise `and` on natural numbers and the 32-bit `leading_zeros`: the
    context allocator picks the largest power of two below a bound with `leading_zeros`, and
    the MPU driver checks `size & (size - 1) == 0` and `start & (size - 1) == 0` and derives
    the `SIZE` field of a region from `leading_zeros`. Sizes and addresses are `usize` values
    in the source; here they are natural numbers below 2^32 and `&` is `And`. */
module Pow2 {

  /** `2^k`. */
  function Pow2(k: nat): (r: nat)
    ensures r >= 1
  {
    if k == 0 then 1 else 2 * Pow2(k - 1)
  }

  /** A power of two, counted down by halving. */
  predicate IsPow2(x: nat)
    decreases x
  {
    x == 1 || (x >= 2 && x % 2 == 0 && IsPow2(x / 2))
  }

  /** The low `k` bits of `x` are all zero. */
  predicate LowBitsZero(x: nat, k: nat)
    decreases k
  {
    k == 0 || (x % 2 == 0 && LowBitsZero(x / 2, k - 1))
  }

  /** Bitwise `and`, bit by bit from the lowest one. */
  function And(a: nat, b: nat): (r: nat)
    ensures r <= a && r <= b
    decreases a
  {
    if a == 0 || b == 0 then 0
    else 2 * And(a / 2, b / 2) + (if a % 2 == 1 && b % 2 == 1 then 1 else 0)
  }

  /** The position of the highest set bit of a positive number. */
  function Log2(x: nat): (r: nat)
    requires x >= 1
    ensures Pow2(r) <= x < 2 * Pow2(r)
    decreases x
  {
    if x == 1 then 0 else 1 + Log2(x / 2)
  }

  /** The exclusive bound of a 32-bit `usize`. */
  const WORD: nat := 0x1_0000_0000

  /** `u32::leading_zeros`: 32 for zero, and otherwise the number of zero bits above the
      highest set one. */
  function LeadingZeros(x: nat): (r: nat)
    requires x < WORD
    ensures x == 0 ==> r == 32
    ensures x > 0 ==> r <= 31 && Pow2(31 - r) <= x < 2 * Pow2(31 - r)
  {
    if x == 0 then 32 else Pow2Word(); Log2Below(x, 32); 31 - Log2(x)
  }

  /** A value below `2^n` has its highest bit below bit `n`. */
  lemma Log2Below(x: nat, n: nat)
    requires 1 <= x < Pow2(n)
    ensures Log2(x) < n
  {
    if Log2(x) >= n {
      Pow2Monotone(n, Log2(x));
    }
  }

  /** A power of two is `2^k` for the `k` its highest bit gives. */
  lemma {:induction false} Pow2OfLog2(x: nat)
    requires IsPow2(x)
    ensures Pow2(Log2(x)) == x
    decreases x
  {
    if x != 1 {
      Pow2OfLog2(x / 2);
    }
  }

  /** Every `2^k` is a power of two, and its highest bit is bit `k`. */
  lemma {:induction false} Log2OfPow2(k: nat)
    ensures IsPow2(Pow2(k)) && Log2(Pow2(k)) == k
  {
    if k > 0 {
      Log2OfPow2(k - 1);
      assert Pow2(k) / 2 == Pow2(k - 1);
    }
  }

  /** Powers of two grow with their exponent. */
  lemma {:induction false} Pow2Monotone(j: nat, k: nat)
    requires j <= k
    ensures Pow2(j) <= Pow2(k)
    decreases k
  {
    if j < k {
      Pow2Monotone(j, k - 1);
    }
  }

  /** `x & x == x`. */
  lemma {:induction false} AndSelf(x: nat)
    ensures And(x, x) == x
    decreases x
  {
    if x != 0 {
      AndSelf(x / 2);
    }
  }

  /** The bit test the kernel uses: on a positive value, `x & (x - 1) == 0` holds exactly
      for the powers of two. */
  lemma {:induction false} BitTestPow2(x: nat)
    requires x >= 1
    ensures And(x, x - 1) == 0 <==> IsPow2(x)
    decreases x
  {
    if x > 1 {
      if x % 2 == 1 {
        assert (x - 1) / 2 == x / 2;
        AndSelf(x / 2);
        assert And(x, x - 1) == 2 * And(x / 2, x / 2);
      } else {
        assert (x - 1) / 2 == x / 2 - 1 && (x - 1) % 2 == 1;
        assert And(x, x - 1) == 2 * And(x / 2, x / 2 - 1);
        BitTestPow2(x / 2);
      }
    }
  }

  /** The alignment test the kernel uses: for a size `2^k`, `start & (size - 1) == 0` holds
      exactly when the low `k` bits of `start` are zero. */
  lemma {:induction false} AlignTest(start: nat, k: nat)
    ensures And(start, Pow2(k) - 1) == 0 <==> LowBitsZero(start, k)
    decreases k
  {
    if k > 0 {
      assert (Pow2(k) - 1) % 2 == 1 && (Pow2(k) - 1) / 2 == Pow2(k - 1) - 1;
      AlignTest(start / 2, k - 1);
      if start != 0 {
        assert And(start, Pow2(k) - 1)
          == 2 * And(start / 2, Pow2(k - 1) - 1) + (if start % 2 == 1 then 1 else 0);
      }
    }
  }

  /** 2^32 is the bound of a `usize`. */
  lemma Pow2Word()
    ensures Pow2(32) == WORD
  {
    assert Pow2(8) == 0x100;
    assert Pow2(16) == 0x1_0000 by { Pow2Add(8, 8); }
    assert Pow2(32) == 0x1_0000_0000 by { Pow2Add(16, 16); }
  }

  /** `2^(j + k) == 2^j * 2^k`. */
  lemma {:induction false} Pow2Add(j: nat, k: nat)
    ensures Pow2(j + k) == Pow2(j) * Pow2(k)
    decreases k
  {
    if k > 0 {
      Pow2Add(j, k - 1);
      assert Pow2(j + k) == 2 * Pow2(j + k - 1);
      assert Pow2(j) * Pow2(k) == Pow2(j) * (2 * Pow2(k - 1)) == 2 * (Pow2(j) * Pow2(k - 1));
    }
  }
}
