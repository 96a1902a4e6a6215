/** The leaf test on node positions (`is_leaf`), with `&` on unsigned
    integers defined bit by bit. */
module Position {
  import opened Types

  /** Bitwise AND of two unsigned integers, least significant bit first. */
  function BitAnd(a: nat, b: nat): nat
    decreases a
  {
    if a == 0 || b == 0 then 0
    else 2 * BitAnd(a / 2, b / 2) + (if a % 2 == 1 && b % 2 == 1 then 1 else 0)
  }

  /** `pos + 1` on a `u64`, wrapping around at 2^64. */
  function WrappingIncrement(pos: u64): (r: u64)
    ensures pos as int + 1 < U64_LIMIT ==> r as int == pos as int + 1
    ensures pos as int + 1 == U64_LIMIT ==> r == 0
  {
    ((pos as int + 1) % U64_LIMIT) as u64
  }

  /** `is_leaf(pos)`: `pos & (pos + 1) == 0`. */
  predicate IsLeaf(pos: u64)
  {
    BitAnd(pos as nat, WrappingIncrement(pos) as nat) == 0
  }

  function Pow2(k: nat): (r: nat)
    ensures r >= 1
  {
    if k == 0 then 1 else 2 * Pow2(k - 1)
  }

  /** A power of two, by repeated halving. */
  predicate IsPowerOfTwo(n: nat)
    decreases n
  {
    n == 1 || (n >= 2 && n % 2 == 0 && IsPowerOfTwo(n / 2))
  }

  lemma {:induction false} Pow2IsPowerOfTwo(k: nat)
    ensures IsPowerOfTwo(Pow2(k))
  {
    if k > 0 {
      Pow2IsPowerOfTwo(k - 1);
      var m := Pow2(k - 1);
      assert Pow2(k) == 2 * m && Pow2(k) >= 2;
      assert (2 * m) / 2 == m && (2 * m) % 2 == 0;
    }
  }

  lemma {:induction false} PowerOfTwoIsPow2(n: nat)
    ensures IsPowerOfTwo(n) <==> exists k: nat :: n == Pow2(k)
    decreases n
  {
    if IsPowerOfTwo(n) {
      if n == 1 {
        assert n == Pow2(0);
      } else {
        PowerOfTwoIsPow2(n / 2);
        var k: nat :| n / 2 == Pow2(k);
        assert n == Pow2(k + 1);
      }
    }
    if exists k: nat :: n == Pow2(k) {
      var k: nat :| n == Pow2(k);
      Pow2IsPowerOfTwo(k);
      assert IsPowerOfTwo(n);
    }
  }

  lemma {:induction false} BitAndSelf(a: nat)
    ensures BitAnd(a, a) == a
    decreases a
  {
    if a != 0 {
      BitAndSelf(a / 2);
    }
  }

  lemma {:induction false} BitAndCommutes(a: nat, b: nat)
    ensures BitAnd(a, b) == BitAnd(b, a)
    decreases a
  {
    if a != 0 && b != 0 {
      BitAndCommutes(a / 2, b / 2);
    }
  }

  /** The bit trick: `n & (n + 1)` vanishes exactly when `n + 1` is a power
      of two, i.e. when `n` is a block of low one bits. */
  lemma {:induction false} AndSuccessorZeroIffPowerOfTwo(n: nat)
    ensures BitAnd(n, n + 1) == 0 <==> IsPowerOfTwo(n + 1)
    decreases n
  {
    if n % 2 == 0 {
      // n + 1 is odd, and (n + 1) / 2 == n / 2: the AND is n itself
      BitAndSelf(n / 2);
      assert BitAnd(n, n + 1) == n;
    } else {
      assert (n + 1) / 2 == n / 2 + 1;
      AndSuccessorZeroIffPowerOfTwo(n / 2);
    }
  }

  /** `is_leaf(pos)` holds exactly for positions 2^k - 1 (0, 1, 3, 7, 15, …);
      away from the wrap-around at 2^64 - 1. */
  lemma IsLeafIffPowerOfTwo(pos: u64)
    ensures IsLeaf(pos) <==> IsPowerOfTwo(pos as nat + 1)
    ensures IsLeaf(pos) <==> exists k: nat :: pos as nat + 1 == Pow2(k)
  {
    PowerOfTwoIsPow2(pos as nat + 1);
    if pos as int + 1 < U64_LIMIT {
      AndSuccessorZeroIffPowerOfTwo(pos as nat);
    } else {
      // the wrapped test accepts u64::MAX, and u64::MAX + 1 is 2^64
      IsLeafAtMax(pos);
      Pow2At64();
      Pow2IsPowerOfTwo(64);
    }
  }

  lemma {:induction false} Pow2Add(a: nat, b: nat)
    ensures Pow2(a + b) == Pow2(a) * Pow2(b)
    decreases a
  {
    if a > 0 {
      Pow2Add(a - 1, b);
    }
  }

  lemma Pow2At64()
    ensures Pow2(64) == U64_LIMIT
  {
    assert Pow2(8) == 256 by {
      assert Pow2(2) == 4 && Pow2(4) == 16 && Pow2(6) == 64;
    }
    Pow2Add(8, 8);
    Pow2Add(16, 16);
    Pow2Add(32, 32);
  }

  /** At `u64::MAX` the increment wraps to 0, so the test accepts it. */
  lemma IsLeafAtMax(pos: u64)
    requires pos as int == U64_LIMIT - 1
    ensures IsLeaf(pos)
  {
  }

  /** Positions 0, 1, 3 and 63 pass; 2 and 4 do not (4 is a leaf of an
      MMR, yet `4 & 5 == 4`). */
  lemma IsLeafExamples()
    ensures IsLeaf(0) && IsLeaf(1) && IsLeaf(3) && IsLeaf(63)
    ensures !IsLeaf(2) && !IsLeaf(4)
  {
    // through the power-of-two characterisation, which is cheaper than
    // unfolding BitAnd on 63 and 64
    IsLeafIffPowerOfTwo(63);
    assert IsPowerOfTwo(64) by {
      assert IsPowerOfTwo(2) && IsPowerOfTwo(4) && IsPowerOfTwo(8);
      assert IsPowerOfTwo(16) && IsPowerOfTwo(32);
    }
    IsLeafIffPowerOfTwo(2);
    IsLeafIffPowerOfTwo(4);
    assert !IsPowerOfTwo(3) && !IsPowerOfTwo(5);
  }
}
