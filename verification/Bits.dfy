/** The machine-integer helpers of the tree: shifts, split points, trailing zeros and bit counts,
    stated over unbounded naturals (sizes stay below `TWO_TO_THE_64`, see `MerkleTree`). */
module Bits {

  function Pow2(k: nat): (p: nat)
    ensures p >= 1
  {
    if k == 0 then 1 else 2 * Pow2(k - 1)
  }

  /** The range of `u64`. */
  const TWO_TO_THE_64: nat := 0x1_0000_0000_0000_0000

  type U64 = n: nat | n < TWO_TO_THE_64

  /** `n >> k`. */
  function Shr(n: nat, k: nat): nat {
    if k == 0 then n else Shr(n / 2, k - 1)
  }

  /** `n mod 2^k`: the low `k` bits. */
  function Low(n: nat, k: nat): nat {
    if k == 0 then 0 else n % 2 + 2 * Low(n / 2, k - 1)
  }

  /** Integer division, named so that proofs can treat it as a black box. */
  function Quotient(n: nat, d: nat): nat
    requires d >= 1
  {
    n / d
  }

  /** The index of the highest set bit. */
  function ILog2(n: nat): nat
    requires n >= 1
  {
    if n == 1 then 0 else 1 + ILog2(n / 2)
  }

  function TrailingZeros(n: nat): nat
    requires n >= 1
  {
    if n % 2 == 1 then 0 else 1 + TrailingZeros(n / 2)
  }

  function Popcount(n: nat): nat {
    if n == 0 then 0 else n % 2 + Popcount(n / 2)
  }

  predicate IsPow2(n: nat) {
    n == 1 || (n > 1 && n % 2 == 0 && IsPow2(n / 2))
  }

  /** The split point of a range of `n >= 2` leaves. */
  function Split(n: nat): nat
    requires n >= 2
  {
    Pow2(ILog2(n - 1))
  }

  /** The least power of two that is at least `n`. */
  function CeilPow2(n: nat): (p: nat)
    requires n >= 1
    ensures p >= 1
  {
    if n == 1 then 1 else 2 * Split(n)
  }

  /** ceil(log2 n). */
  function CeilLog2(n: nat): nat
    requires n >= 1
  {
    if n == 1 then 0 else 1 + ILog2(n - 1)
  }

  // ------------------------------------------------------------------ logarithms and splits

  lemma {:induction false} ILog2Bounds(n: nat)
    requires n >= 1
    ensures Pow2(ILog2(n)) <= n < 2 * Pow2(ILog2(n))
  {
    if n > 1 {
      ILog2Bounds(n / 2);
    }
  }

  /** The exponent is determined by the bracket it satisfies. */
  lemma ILog2Unique(n: nat, k: nat)
    requires Pow2(k) <= n < 2 * Pow2(k)
    ensures ILog2(n) == k
  {
  }

  /** `Split(n)` is the largest power of two strictly smaller than `n`. */
  lemma SplitBounds(n: nat)
    requires n >= 2
    ensures 1 <= Split(n) < n <= 2 * Split(n)
  {
    ILog2Bounds(n - 1);
  }

  /** A power of two below `n` whose double reaches `n` is the split point. */
  lemma SplitUnique(n: nat, k: nat)
    requires n >= 2 && Pow2(k) < n <= 2 * Pow2(k)
    ensures Split(n) == Pow2(k)
  {
    ILog2Unique(n - 1, k);
  }

  /** The split point of a pair level: halving rounds up, and the split point halves exactly. */
  lemma SplitHalves(n: nat)
    requires n > 2
    ensures Split(n) == 2 * Split((n + 1) / 2)
    ensures Split(n) % 2 == 0 && Split(n) / 2 == Split((n + 1) / 2)
    ensures (n - Split(n) + 1) / 2 == (n + 1) / 2 - Split(n) / 2
  {
  }

  lemma {:induction false} Pow2IsPow2(k: nat)
    ensures IsPow2(Pow2(k)) && TrailingZeros(Pow2(k)) == k && Popcount(Pow2(k)) == 1
  {
    if k > 0 {
      Pow2IsPow2(k - 1);
      assert Pow2(k) / 2 == Pow2(k - 1);
    }
  }

  lemma {:induction false} IsPow2IsPow2(n: nat)
    requires IsPow2(n)
    ensures n == Pow2(TrailingZeros(n)) && n == Pow2(ILog2(n))
  {
    if n > 1 {
      IsPow2IsPow2(n / 2);
    }
  }

  lemma {:induction false} CeilPow2Is(n: nat)
    requires n >= 1
    ensures CeilPow2(n) == Pow2(CeilLog2(n)) && n <= CeilPow2(n)
  {
    if n > 1 {
      SplitBounds(n);
    }
  }

  // ------------------------------------------------------------------ shifts

  /** A number is its high part times `2^k` plus its low part. */
  lemma {:induction false} ShrLow(n: nat, k: nat)
    ensures n == Shr(n, k) * Pow2(k) + Low(n, k)
    ensures Low(n, k) < Pow2(k)
  {
    if k > 0 {
      ShrLow(n / 2, k - 1);
      DoubleProduct(Shr(n, k), Pow2(k - 1), Low(n / 2, k - 1));
    }
  }

  lemma DoubleProduct(q: nat, p: nat, r: nat)
    ensures 2 * (q * p + r) == q * (2 * p) + 2 * r
  {
  }

  /** One more shift, one more low bit. */
  lemma {:induction false} ShrStep(n: nat, k: nat)
    ensures Shr(n, k + 1) == Shr(n, k) / 2
    ensures Low(n, k + 1) == Low(n, k) + (Shr(n, k) % 2) * Pow2(k)
  {
    if k > 0 {
      ShrStep(n / 2, k - 1);
      assert Shr(n, k + 1) == Shr(n / 2, k);
      assert Low(n, k + 1) == n % 2 + 2 * Low(n / 2, k);
      assert 2 * ((Shr(n, k) % 2) * Pow2(k - 1)) == (Shr(n, k) % 2) * Pow2(k);
    }
  }

  lemma {:induction false} ShrMonotone(a: nat, b: nat, k: nat)
    requires a <= b
    ensures Shr(a, k) <= Shr(b, k)
  {
    if k > 0 {
      ShrMonotone(a / 2, b / 2, k - 1);
    }
  }

  /** `n >> k` is positive exactly for the levels up to the highest set bit. */
  lemma {:induction false} ShrPositive(n: nat, k: nat)
    requires n >= 1
    ensures Shr(n, k) >= 1 <==> k <= ILog2(n)
  {
    if k > 0 {
      if n == 1 {
        ShrZero(k - 1);
      } else {
        ShrPositive(n / 2, k - 1);
      }
    }
  }

  lemma {:induction false} ShrZero(k: nat)
    ensures Shr(0, k) == 0
  {
    if k > 0 {
      ShrZero(k - 1);
    }
  }

  /** Counting up by one moves `n >> k` exactly at the levels with only zero bits below. */
  lemma {:induction false} ShrSuccessor(n: nat, k: nat)
    ensures Shr(n + 1, k) == Shr(n, k) + (if k <= TrailingZeros(n + 1) then 1 else 0)
    ensures k < TrailingZeros(n + 1) ==> Shr(n + 1, k) % 2 == 0
  {
    if k > 0 {
      if (n + 1) % 2 == 0 {
        assert (n + 1) / 2 == n / 2 + 1;
        ShrSuccessor(n / 2, k - 1);
      } else {
        assert (n + 1) / 2 == n / 2;
      }
    }
  }

  lemma {:induction false} TrailingZerosBelow(n: nat)
    requires n >= 1
    ensures TrailingZeros(n) <= ILog2(n)
  {
    if n > 1 && n % 2 == 0 {
      TrailingZerosBelow(n / 2);
    }
  }

  /** The number of levels after one more leaf: a new top level exactly when a power of two completes. */
  lemma {:induction false} ILog2Successor(n: nat)
    requires n >= 1
    ensures ILog2(n + 1) == if TrailingZeros(n + 1) > ILog2(n) then ILog2(n) + 1 else ILog2(n)
    ensures TrailingZeros(n + 1) <= ILog2(n) + 1
  {
    if n == 1 {
      assert TrailingZeros(2) == 1 + TrailingZeros(1);
      assert ILog2(2) == 1 + ILog2(1);
    } else {
      ILog2Successor(n / 2);
      if n % 2 == 1 {
        assert (n + 1) / 2 == n / 2 + 1;
      }
    }
  }

  /** A number below `2^k` has no bits from position `k` on. */
  lemma {:induction false} LowAll(n: nat, k: nat)
    requires n < Pow2(k)
    ensures Low(n, k) == n
  {
    if k > 0 {
      LowAll(n / 2, k - 1);
    }
  }

  lemma {:induction false} Pow2Sum(i: nat, j: nat)
    ensures Pow2(i + j) == Pow2(i) * Pow2(j)
  {
    if i > 0 {
      Pow2Sum(i - 1, j);
      assert Pow2(i + j) == 2 * Pow2(i - 1 + j);
    }
  }

  lemma Pow2Square(k: nat, p: nat)
    requires Pow2(k) == p
    ensures Pow2(k + k) == p * p
  {
    Pow2Sum(k, k);
  }

  lemma Pow2At64(k: nat)
    requires k == 64
    ensures Pow2(k) == TWO_TO_THE_64
  {
    var e := k / 32;
    assert Pow2(e) == 4;
    Pow2Square(e, 4);
    Pow2Square(e + e, 0x10);
    Pow2Square(4 * e, 0x100);
    Pow2Square(8 * e, 0x1_0000);
    Pow2Square(16 * e, 0x1_0000_0000);
  }

  // ------------------------------------------------------------------ bit counts

  lemma {:induction false} PopcountPositive(n: nat)
    ensures n > 0 <==> Popcount(n) > 0
  {
    if n > 0 && n % 2 == 0 {
      PopcountPositive(n / 2);
    }
  }

  /** Without its highest bit a number has one bit less. */
  lemma {:induction false} TopBit(n: nat)
    requires n >= 1
    ensures Pow2(ILog2(n)) <= n && Popcount(n) == 1 + Popcount(n - Pow2(ILog2(n)))
  {
    if n > 1 {
      TopBit(n / 2);
      var rest := n - Pow2(ILog2(n));
      assert rest / 2 == n / 2 - Pow2(ILog2(n / 2)) && rest % 2 == n % 2;
    } else {
      assert Popcount(1) == 1 + Popcount(0);
    }
  }

  /** Splitting a number that is no power of two takes off its highest bit. */
  lemma SplitTakesTopBit(n: nat)
    requires n >= 2 && !IsPow2(n)
    ensures 1 <= Split(n) < n && Popcount(n) == 1 + Popcount(n - Split(n))
  {
    hide Popcount;
    ILog2Bounds(n);
    Pow2IsPow2(ILog2(n));
    SplitUnique(n, ILog2(n));
    TopBit(n);
  }

  lemma {:induction false} LowPopcount(n: nat, k: nat)
    ensures Popcount(Low(n, k + 1)) == Popcount(Low(n, k)) + Shr(n, k) % 2
  {
    if k > 0 {
      LowPopcount(n / 2, k - 1);
      LowHalf(n, k);
      LowHalf(n, k + 1);
    } else {
      assert Low(n, 1) == n % 2 + 2 * Low(n / 2, 0);
      assert Popcount(1) == 1 + Popcount(0);
    }
  }

  lemma LowHalf(n: nat, k: nat)
    requires k > 0
    ensures Popcount(Low(n, k)) == n % 2 + Popcount(Low(n / 2, k - 1))
  {
    var low := Low(n, k);
    assert low / 2 == Low(n / 2, k - 1) && low % 2 == n % 2;
  }

  lemma {:induction false} PopcountLog(n: nat)
    requires n >= 1
    ensures 1 <= Popcount(n) <= ILog2(n) + 1
  {
    if n > 1 {
      PopcountLog(n / 2);
    } else {
      assert Popcount(1) == 1 + Popcount(0);
    }
  }

  // ------------------------------------------------------------------ divisibility

  lemma MulStep(q: int, p: int)
    ensures (q + 1) * p == q * p + p
  {
  }

  lemma MulMonotone(a: int, b: int, p: nat)
    requires a <= b
    ensures a * p <= b * p
  {
  }

  lemma MulDouble(q: int, p: int)
    ensures q * (2 * p) == (2 * q) * p
  {
  }

  lemma MulDivMod(q: nat, p: nat)
    requires p >= 1
    ensures (q * p) % p == 0 && (q * p) / p == q
  {
    var d, r := (q * p) / p, (q * p) % p;
    assert q * p == p * d + r;
    assert (q - d) * p == r;
    SmallMultiple(q - d, p);
  }

  lemma SmallMultiple(q: int, p: int)
    requires -p < q * p < p
    ensures q == 0
  {
  }

  lemma ExactDivision(n: nat, p: nat)
    requires p >= 1 && n % p == 0
    ensures n == (n / p) * p
  {
  }

  /** A multiple of `2^j` is a multiple of every smaller power of two. */
  lemma Pow2Divides(n: nat, i: nat, j: nat)
    requires i <= j && n % Pow2(j) == 0
    ensures n % Pow2(i) == 0
  {
    Pow2Sum(j - i, i);
    MultipleOfProduct(n, Pow2(j - i), Pow2(i));
  }

  lemma MultipleOfProduct(n: nat, a: nat, b: nat)
    requires a >= 1 && b >= 1 && a * b >= 1 && n % (a * b) == 0
    ensures n % b == 0
  {
    ExactDivision(n, a * b);
    var q := n / (a * b);
    assert n == (q * a) * b;
    MulDivMod(q * a, b);
  }

  lemma {:induction false} CeilLog2Monotone(a: nat, b: nat)
    requires 1 <= a <= b
    ensures CeilLog2(a) <= CeilLog2(b)
  {
    if a > 1 {
      ILog2Monotone(a - 1, b - 1);
    }
  }

  lemma {:induction false} ILog2Monotone(a: nat, b: nat)
    requires 1 <= a <= b
    ensures ILog2(a) <= ILog2(b)
  {
    if a > 1 {
      ILog2Monotone(a / 2, b / 2);
    }
  }
}
