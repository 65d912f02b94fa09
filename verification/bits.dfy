/**
 Powers of two and the low bits of a number. Clearing the low `k` bits of an
 address is what AND-ing it with a netmask does; it is written here by
 halving and doubling, one bit at a time, so that every fact about it stays
 within linear arithmetic.
 */
module Bits {

  /** 2^n */
  function Pow2(n: nat): (r: nat)
    ensures r >= 1
  {
    if n == 0 then 1 else 2 * Pow2(n - 1)
  }

  /** Number of IPv4 addresses, 2^32. */
  const AddressSpace: nat := 0x1_0000_0000

  lemma Pow2Of32()
    ensures Pow2(32) == AddressSpace
  {
    assert Pow2(8) == 256;
    assert Pow2(16) == 65536;
    assert Pow2(24) == 16777216;
  }

  lemma {:induction false} Pow2Monotone(a: nat, b: nat)
    requires a <= b
    ensures Pow2(a) <= Pow2(b)
    decreases b
  {
    if a < b {
      Pow2Monotone(a, b - 1);
    }
  }

  lemma Pow2StrictlyMonotone(a: nat, b: nat)
    requires a < b
    ensures 2 * Pow2(a) <= Pow2(b)
  {
    Pow2Monotone(a + 1, b);
  }

  /** `a` with its low `k` bits set to zero: `a & ~(2^k - 1)`. */
  function ClearLowBits(a: nat, k: nat): (r: nat)
    ensures r <= a < r + Pow2(k)
  {
    if k == 0 then a else 2 * ClearLowBits(a / 2, k - 1)
  }

  /** The low `k` bits of `a` are all zero: `a` is a multiple of 2^k. */
  predicate LowBitsClear(a: nat, k: nat)
  {
    k == 0 || (a % 2 == 0 && LowBitsClear(a / 2, k - 1))
  }

  lemma {:induction false} ClearLowBitsClears(a: nat, k: nat)
    ensures LowBitsClear(ClearLowBits(a, k), k)
  {
    if k > 0 {
      ClearLowBitsClears(a / 2, k - 1);
      var m := ClearLowBits(a / 2, k - 1);
      assert (2 * m) / 2 == m;
    }
  }

  /**
   Only one number with its low `k` bits clear lies within 2^k of `a` from
   below: clearing the bits finds it.
   */
  lemma {:induction false} ClearLowBitsUnique(n: nat, a: nat, k: nat)
    requires LowBitsClear(n, k) && n <= a < n + Pow2(k)
    ensures ClearLowBits(a, k) == n
  {
    if k > 0 {
      ClearLowBitsUnique(n / 2, a / 2, k - 1);
    }
  }

  lemma {:induction false} ZeroLowBitsClear(k: nat)
    ensures LowBitsClear(0, k)
  {
    if k > 0 {
      ZeroLowBitsClear(k - 1);
    }
  }

  /** Stepping a number with `k` clear low bits by 2^k keeps them clear. */
  lemma {:induction false} LowBitsClearStep(a: nat, k: nat)
    requires LowBitsClear(a, k)
    ensures LowBitsClear(a + Pow2(k), k)
  {
    if k > 0 {
      LowBitsClearStep(a / 2, k - 1);
      assert (a + Pow2(k)) / 2 == a / 2 + Pow2(k - 1);
    }
  }

  /** Clear low bits stay clear when fewer of them are asked for. */
  lemma {:induction false} LowBitsClearFewer(a: nat, k: nat, j: nat)
    requires LowBitsClear(a, k) && j <= k
    ensures LowBitsClear(a, j)
  {
    if j > 0 {
      LowBitsClearFewer(a / 2, k - 1, j - 1);
    }
  }

  /**
   Below 2^m, a number with `k` clear low bits (k <= m) is followed by a
   whole run of 2^k numbers that still lies below 2^m.
   */
  lemma {:induction false} LowBitsClearBelow(a: nat, k: nat, m: nat)
    requires LowBitsClear(a, k) && k <= m && a < Pow2(m)
    ensures a + Pow2(k) <= Pow2(m)
  {
    if k > 0 {
      LowBitsClearBelow(a / 2, k - 1, m - 1);
    }
  }
}
