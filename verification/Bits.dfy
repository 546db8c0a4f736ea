/** Bitwise arithmetic on naturals, as used by the Merkle tree code on its leaf counts. */
module Bits {

  /** `a & b`. */
  function And(a: nat, b: nat): nat {
    if a == 0 || b == 0 then 0 else (a % 2) * (b % 2) + 2 * And(a / 2, b / 2)
  }

  /** `a & ^b`. */
  function AndNot(a: nat, b: nat): nat {
    if a == 0 then 0 else (a % 2) * (1 - b % 2) + 2 * AndNot(a / 2, b / 2)
  }

  /** The number of one bits of `n`. */
  function PopCount(n: nat): nat {
    if n == 0 then 0 else n % 2 + PopCount(n / 2)
  }

  /** The largest power of two dividing `n`. */
  function LowBit(n: nat): (r: nat)
    requires n > 0
    ensures 0 < r <= n
  {
    if n % 2 == 1 then 1 else 2 * LowBit(n / 2)
  }

  /** The largest power of two strictly below `n`. */
  function PowBelow(n: nat): (r: nat)
    requires n > 1
    ensures 0 < r < n <= 2 * r
    ensures LowBit(r) == r
  {
    if n == 2 then 1 else 2 * PowBelow((n + 1) / 2)
  }

  /** `n & ^(n-1)` isolates the lowest set bit. */
  lemma {:induction false} AndNotIsolatesLowBit(n: nat)
    requires n > 0
    ensures AndNot(n, n - 1) == LowBit(n)
  {
    if n % 2 == 1 {
      AndNotSelf(n / 2);
      assert (n - 1) / 2 == n / 2;
    } else {
      AndNotIsolatesLowBit(n / 2);
      assert (n - 1) / 2 == n / 2 - 1;
    }
  }

  lemma {:induction false} AndNotSelf(n: nat)
    ensures AndNot(n, n) == 0
  {
    if n == 0 {
    } else {
      AndNotSelf(n / 2);
    }
  }

  /** `n & (n-1)` clears the lowest set bit, and so removes exactly one one bit. */
  lemma {:induction false} AndClearsLowBit(n: nat)
    requires n > 0
    ensures And(n, n - 1) == n - LowBit(n)
    ensures PopCount(n) == PopCount(n - LowBit(n)) + 1
  {
    if n % 2 == 1 {
      AndSelf(n / 2);
      assert (n - 1) / 2 == n / 2;
    } else {
      AndClearsLowBit(n / 2);
      assert (n - 1) / 2 == n / 2 - 1;
      assert (n - LowBit(n)) / 2 == n / 2 - LowBit(n / 2);
    }
  }

  lemma {:induction false} AndSelf(n: nat)
    ensures And(n, n) == n
  {
    if n == 0 {
    } else {
      AndSelf(n / 2);
    }
  }

  /** Kernighan's loop counts the one bits. */
  method CountOne(value: nat) returns (numberOfOne: nat)
    ensures numberOfOne == PopCount(value)
  {
    numberOfOne := 0;
    var v := value;
    while v != 0
      invariant numberOfOne + PopCount(v) == PopCount(value)
      decreases v
    {
      numberOfOne := numberOfOne + 1;
      AndClearsLowBit(v);
      v := And(v, v - 1);
    }
  }

  /** Below the lowest bit of `m`, addition to and subtraction from `m` only touch the low part. */
  lemma {:induction false} LowBitOffset(m: nat, d: nat)
    requires m > 0 && 0 < d < LowBit(m)
    ensures LowBit(m + d) == LowBit(d) == LowBit(m - d)
    decreases m
  {
    if d % 2 == 1 {
    } else {
      LowBitOffset(m / 2, d / 2);
      assert (m + d) / 2 == m / 2 + d / 2;
      assert (m - d) / 2 == m / 2 - d / 2;
    }
  }

  /** Stepping by its own lowest bit moves `m` to coarser neighbours, exactly one of which is one level up. */
  lemma {:induction false} LowBitNeighbours(m: nat)
    requires m > 0
    ensures LowBit(m + LowBit(m)) >= 2 * LowBit(m)
    ensures m == LowBit(m) ==> LowBit(m + LowBit(m)) == 2 * LowBit(m)
    ensures m > LowBit(m) ==> LowBit(m - LowBit(m)) >= 2 * LowBit(m)
    ensures m > LowBit(m) ==>
      (LowBit(m - LowBit(m)) == 2 * LowBit(m)) != (LowBit(m + LowBit(m)) == 2 * LowBit(m))
  {
    if m % 2 == 1 {
      assert (m + 1) / 2 == m / 2 + 1;
      assert (m - 1) / 2 == m / 2;
    } else {
      LowBitNeighbours(m / 2);
      assert (m + LowBit(m)) / 2 == m / 2 + LowBit(m / 2);
      assert (m - LowBit(m)) / 2 == m / 2 - LowBit(m / 2);
    }
  }

  /** A number between a power of two and its double has a smaller lowest bit. */
  lemma {:induction false} LowBitOfPower(p: nat, q: nat)
    requires 0 < p && LowBit(p) == p && 0 < q && LowBit(q) == q
    ensures p < q ==> 2 * p <= q
    decreases p
  {
    if p % 2 == 1 || q % 2 == 1 {
    } else {
      LowBitOfPower(p / 2, q / 2);
    }
  }

  /** `PowBelow` is the only power of two in its window. */
  lemma {:induction false} PowBelowUnique(n: nat, p: nat)
    requires n > 1 && 0 < p < n <= 2 * p && LowBit(p) == p
    ensures PowBelow(n) == p
  {
    LowBitOfPower(p, PowBelow(n));
    LowBitOfPower(PowBelow(n), p);
  }

  /** The lowest bit is itself a power of two. */
  lemma {:induction false} LowBitIdempotent(n: nat)
    requires n > 0
    ensures LowBit(LowBit(n)) == LowBit(n)
    ensures LowBit(2 * n) == 2 * LowBit(n)
  {
    if n % 2 == 1 {
    } else {
      LowBitIdempotent(n / 2);
    }
  }

  /** Removing the highest one bit. */
  lemma {:induction false} PopCountTop(x: nat, q: nat)
    requires 0 < q <= x < 2 * q && LowBit(q) == q
    ensures PopCount(x) == 1 + PopCount(x - q)
    decreases q
  {
    if q == 1 {
    } else {
      assert (x - q) / 2 == x / 2 - q / 2;
      PopCountTop(x / 2, q / 2);
    }
  }
}
