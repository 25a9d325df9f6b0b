/**
 The bitwise operators of C on small naturals, and what they do with the masks
 that base/hosts.c builds.
 */
module Bits {
  import opened Bytes

  function BitAnd(x: nat, y: nat): nat {
    if x == 0 then 0
    else 2 * BitAnd(x / 2, y / 2) + (if x % 2 == 1 && y % 2 == 1 then 1 else 0)
  }

  function BitOr(x: nat, y: nat): nat {
    if x == 0 then y
    else 2 * BitOr(x / 2, y / 2) + (if x % 2 == 1 || y % 2 == 1 then 1 else 0)
  }

  function BitXor(x: nat, y: nat): nat {
    if x == 0 then y
    else 2 * BitXor(x / 2, y / 2) + (if x % 2 != y % 2 then 1 else 0)
  }

  lemma {:induction false} Distribute(a: int, b: int, d: int)
    ensures (a - b) * d == a * d - b * d
  {
  }

  lemma {:induction false} AtLeastOnce(k: int, d: nat)
    requires k >= 1
    ensures k * d >= d
  {
    Distribute(k, 1, d);
  }

  lemma {:induction false} Euclid(x: nat, d: nat)
    requires d > 0
    ensures x == (x / d) * d + x % d && 0 <= x % d < d
  {
  }

  /** The quotient and remainder are what they should be. */
  lemma {:induction false} DivModUnique(x: nat, d: nat, q: nat, r: nat)
    requires d > 0 && x == q * d + r && r < d
    ensures x / d == q && x % d == r
  {
    Euclid(x, d);
    var k := x / d;
    Distribute(q, k, d);
    if q > k {
      AtLeastOnce(q - k, d);
    } else if q < k {
      Distribute(k, q, d);
      AtLeastOnce(k - q, d);
    }
  }

  lemma {:induction false} ModHalf(x: nat, p: nat)
    requires p > 0
    ensures x % (2 * p) == 2 * (x / 2 % p) + x % 2
  {
    var q, m := x / 2 / p, x / 2 % p;
    assert x / 2 == q * p + m;
    assert q * (2 * p) == 2 * (q * p);
    DivModUnique(x, 2 * p, q, 2 * m + x % 2);
  }

  lemma {:induction false} Pow2Monotone(r: nat, n: nat)
    requires r <= n
    ensures Pow2(r) <= Pow2(n)
  {
    if r < n {
      Pow2Monotone(r, n - 1);
    }
  }

  /** One more bit in front of an even number, and in front of an odd one. */
  lemma {:induction false} DoubledHalf(p: nat, q: nat)
    requires p >= q
    ensures (2 * p - 2 * q) / 2 == p - q && (2 * p - 2 * q) % 2 == 0
    ensures p > 0 ==> (2 * p - 1) / 2 == p - 1 && (2 * p - 1) % 2 == 1
  {
  }

  lemma {:induction false} OneXor(x: nat, y: nat)
    ensures x == 0 ==> BitXor(x, y) == y
    ensures x > 0 ==> BitXor(x, y) == 2 * BitXor(x / 2, y / 2) + (if x % 2 != y % 2 then 1 else 0)
  {
  }

  /** All bits set: 2^r - 1. */
  lemma {:induction false} XorOnes(n: nat, r: nat)
    requires r <= n
    ensures BitXor(Pow2(n) - 1, Pow2(r) - 1) == Pow2(n) - Pow2(r)
  {
    hide BitXor;
    OneXor(Pow2(n) - 1, Pow2(r) - 1);
    if n > 0 {
      DoubledHalf(Pow2(n - 1), 0);
      if r > 0 {
        DoubledHalf(Pow2(r - 1), 0);
        XorOnes(n - 1, r - 1);
      } else {
        XorOnes(n - 1, 0);
      }
    }
  }

  /** The number the low r bits of x denote. */
  function Low(x: nat, r: nat): (l: nat)
    ensures l <= x
  {
    if r == 0 then 0 else 2 * Low(x / 2, r - 1) + x % 2
  }

  lemma {:induction false} LowIsRemainder(x: nat, r: nat)
    ensures Low(x, r) == x % Pow2(r)
  {
    if r > 0 {
      LowIsRemainder(x / 2, r - 1);
      ModHalf(x, Pow2(r - 1));
    }
  }

  /** One bit of an and, and one of the low bits. */
  lemma {:induction false} OneBit(x: nat, y: nat, r: nat)
    requires x > 0
    ensures BitAnd(x, y) == 2 * BitAnd(x / 2, y / 2) + (if x % 2 == 1 && y % 2 == 1 then 1 else 0)
    ensures r > 0 ==> Low(x, r) == 2 * Low(x / 2, r - 1) + x % 2
  {
  }

  /** And with the complement of 2^r - 1 clears the low r bits. */
  lemma {:induction false} AndMask(x: nat, n: nat, r: nat)
    requires r <= n && x < Pow2(n)
    ensures Pow2(r) <= Pow2(n) && BitAnd(x, Pow2(n) - Pow2(r)) == x - Low(x, r)
  {
    hide BitAnd, Low;
    Pow2Monotone(r, n);
    if x == 0 {
      NoBits(Pow2(n) - Pow2(r), r);
    } else {
      Halved(x, n);
      OneBit(x, Pow2(n) - Pow2(r), r);
      if r > 0 {
        AndMask(x / 2, n - 1, r - 1);
        DoubledHalf(Pow2(n - 1), Pow2(r - 1));
      } else {
        AndMask(x / 2, n - 1, 0);
        NoLow(x);
        NoLow(x / 2);
        DoubledHalf(Pow2(n - 1), 0);
      }
    }
  }

  lemma {:induction false} NoBits(y: nat, r: nat)
    ensures BitAnd(0, y) == 0 && Low(0, r) == 0
  {
  }

  lemma {:induction false} NoLow(x: nat)
    ensures Low(x, 0) == 0
  {
  }

  lemma {:induction false} Halved(x: nat, n: nat)
    requires 0 < x < Pow2(n)
    ensures n > 0 && x / 2 < Pow2(n - 1)
  {
  }

  /** Or with 2^r - 1 sets the low r bits. */
  lemma {:induction false} OrOnes(x: nat, r: nat)
    ensures BitOr(x, Pow2(r) - 1) == x - Low(x, r) + Pow2(r) - 1
  {
    if x > 0 {
      if r > 0 {
        OrOnes(x / 2, r - 1);
        DoubledHalf(Pow2(r - 1), 0);
      } else {
        OrOnes(x / 2, 0);
      }
    }
  }
}
