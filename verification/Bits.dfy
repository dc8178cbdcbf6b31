/**
 Machine words as natural numbers, and C's bitwise operators on them.

 A word of width `w` is a `nat` below `Pow2(w)`.  The operators are defined by
 recursion on halves and characterised one bit at a time, so every result built
 on them holds at any width; 32 and 64 are instances.
 */
module Bits {

  /** Number of 32-bit words. */
  const LIMIT: nat := 0x1_0000_0000

  function Pow2(n: nat): (r: nat)
    ensures r > 0
  {
    if n == 0 then 1 else 2 * Pow2(n - 1)
  }

  /** Bit `i` of `x`, the least significant bit being bit 0. */
  predicate Bit(x: nat, i: nat) {
    if i == 0 then x % 2 == 1 else Bit(x / 2, i - 1)
  }

  /** C's `x & y`. */
  function And(x: nat, y: nat): nat {
    if x == 0 || y == 0 then 0
    else (if x % 2 == 1 && y % 2 == 1 then 1 else 0) + 2 * And(x / 2, y / 2)
  }

  /** C's `x | y`. */
  function Or(x: nat, y: nat): nat {
    if x == 0 then y else if y == 0 then x
    else (if x % 2 == 1 || y % 2 == 1 then 1 else 0) + 2 * Or(x / 2, y / 2)
  }

  /** C's `x ^ y`. */
  function Xor(x: nat, y: nat): nat {
    if x == 0 then y else if y == 0 then x
    else (if x % 2 != y % 2 then 1 else 0) + 2 * Xor(x / 2, y / 2)
  }

  /** C's `~x` on an unsigned word of width `w`. */
  function Not(w: nat, x: nat): nat
    requires x < Pow2(w)
  {
    Pow2(w) - 1 - x
  }

  /** Unsigned `x + y`, wrapping at width `w`. */
  function Add(w: nat, x: nat, y: nat): (r: nat)
    ensures r < Pow2(w)
    ensures x + y < Pow2(w) ==> r == x + y
    ensures Pow2(w) <= x + y < 2 * Pow2(w) ==> r == x + y - Pow2(w)
  {
    Reduced(x + y, Pow2(w));
    WrapOnce(if x + y < Pow2(w) || x + y >= 2 * Pow2(w) then 0 else x + y - Pow2(w), Pow2(w));
    (x + y) % Pow2(w)
  }

  /** Unsigned `x - y`, wrapping at width `w`. */
  function Sub(w: nat, x: nat, y: nat): (r: nat)
    requires x < Pow2(w) && y < Pow2(w)
    ensures r == if y <= x then x - y else x + Pow2(w) - y
  {
    WrapOnce(if y <= x then x - y else x + Pow2(w) - y, Pow2(w));
    (x + Pow2(w) - y) % Pow2(w)
  }

  /** C's `x << c` on an unsigned word of width `w`. */
  function Shl(w: nat, x: nat, c: nat): (r: nat)
    ensures r < Pow2(w)
  {
    Reduced(x * Pow2(c), Pow2(w));
    x * Pow2(c) % Pow2(w)
  }

  /** C's `x >> c` on an unsigned word. */
  function Shr(x: nat, c: nat): (r: nat)
    ensures r <= x
  {
    QuotientBound(x, Pow2(c));
    x / Pow2(c)
  }

  /** The set of positions at which `x` has a one. */
  ghost function Ones(x: nat): set<nat> {
    set i: nat | i < x && Bit(x, i)
  }

  ghost predicate IsPow2(x: nat) {
    exists k: nat :: x == Pow2(k)
  }

  // ------------------------------------------------------------ arithmetic

  lemma WrapOnce(x: nat, m: nat)
    requires x < m
    ensures x % m == x && (x + m) % m == x
  {
  }

  lemma QuotientBound(x: nat, m: nat)
    requires 0 < m
    ensures 0 <= x / m <= x
  {
    assert x == m * (x / m) + x % m;
    ProductBound(m, x / m);
  }

  lemma {:induction false} ProductBound(m: nat, q: nat)
    requires 0 < m
    ensures q <= m * q
  {
    if m > 1 {
      ProductBound(m - 1, q);
      assert m * q == (m - 1) * q + q;
    }
  }

  lemma Reduced(x: nat, m: nat)
    requires 0 < m
    ensures x % m < m && (x < m ==> x % m == x)
  {
  }

  /** `x % m` and `x / m` are the only remainder and quotient. */
  lemma DivModUnique(x: int, m: nat, q: int, r: nat)
    requires 0 < m && r < m && x == m * q + r
    ensures x / m == q && x % m == r
  {
    var d := x / m - q;
    assert m * d == r - x % m by { assert x == m * (x / m) + x % m; }
    assert d > 0 ==> m * d >= m;
    assert d < 0 ==> m * d <= 0 - m;
  }

  lemma {:induction false} PowAdd(a: nat, b: nat)
    ensures Pow2(a + b) == Pow2(a) * Pow2(b)
  {
    if a > 0 {
      PowAdd(a - 1, b);
      Double(Pow2(a - 1), Pow2(b));
    }
  }

  lemma Double(x: int, y: int)
    ensures (2 * x) * y == 2 * (x * y)
  {
  }

  lemma {:induction false} PowMono(a: nat, b: nat)
    requires a <= b
    ensures Pow2(a) <= Pow2(b)
    ensures a < b ==> 2 * Pow2(a) <= Pow2(b)
  {
    if a < b { PowMono(a, b - 1); }
  }

  lemma {:induction false} PowExceeds(n: nat)
    ensures n < Pow2(n)
  {
    if n > 0 { PowExceeds(n - 1); }
  }

  /** Powers of two are totally ordered by divisibility. */
  lemma PowDivides(a: nat, b: nat)
    requires a <= b
    ensures Pow2(b) % Pow2(a) == 0
  {
    PowAdd(a, b - a);
    DivModUnique(Pow2(b), Pow2(a), Pow2(b - a), 0);
  }

  lemma Pow32()
    ensures Pow2(31) == 0x8000_0000 && Pow2(32) == LIMIT
  {
    PowAdd(8, 8);
    PowAdd(16, 16);
    assert Pow2(8) == 256;
  }

  /** Dividing by a product is dividing by its factors in turn. */
  lemma DivideTwice(x: nat, a: nat, p: nat)
    requires a > 0 && p > 0
    ensures a * p > 0
    ensures x / (a * p) == (x / a) / p
    ensures x % (a * p) == x % a + a * ((x / a) % p)
  {
    var q, r := (x / a) / p, (x / a) % p;
    ProductBound(a, p);
    assert (a * p) * q + (x % a + a * r) == x by {
      assert x / a == p * q + r;
      assert (a * p) * q + a * r == a * (p * q + r);
    }
    assert x % a + a * r < a * p by {
      assert r <= p - 1;
      assert a * r <= a * (p - 1);
    }
    DivModUnique(x, a * p, q, x % a + a * r);
  }

  // ------------------------------------------------------- one bit at a time

  lemma {:induction false} ShrBit(x: nat, c: nat, i: nat)
    ensures Bit(Shr(x, c), i) == Bit(x, i + c)
  {
    if c > 0 {
      DivideTwice(x, 2, Pow2(c - 1));
      ShrBit(x / 2, c - 1, i);
    }
  }

  lemma {:induction false} BitShiftLeft(x: nat, c: nat, i: nat)
    ensures Bit(x * Pow2(c), i) == (i >= c && Bit(x, i - c))
  {
    if c > 0 {
      var y := x * Pow2(c - 1);
      assert x * Pow2(c) == 2 * y;
      if i > 0 { BitShiftLeft(x, c - 1, i - 1); }
    }
  }

  lemma {:induction false} BitTruncate(x: nat, w: nat, i: nat)
    ensures Bit(x % Pow2(w), i) == (i < w && Bit(x, i))
  {
    if w == 0 {
      ZeroBit(i);
    } else {
      var low := (x / 2) % Pow2(w - 1);
      assert x % Pow2(w) == x % 2 + 2 * low by { DivideTwice(x, 2, Pow2(w - 1)); }
      if i > 0 { BitTruncate(x / 2, w - 1, i - 1); }
    }
  }

  lemma ShlBit(w: nat, x: nat, c: nat, i: nat)
    ensures Bit(Shl(w, x, c), i) == (c <= i < w && Bit(x, i - c))
  {
    var y := x * Pow2(c);
    BitShiftLeft(x, c, i);
    BitTruncate(y, w, i);
  }

  lemma {:induction false} ZeroBit(i: nat)
    ensures !Bit(0, i)
  {
    if i > 0 { ZeroBit(i - 1); }
  }

  lemma {:induction false} BitBeyond(w: nat, x: nat, i: nat)
    requires x < Pow2(w) && i >= w
    ensures !Bit(x, i)
  {
    if w == 0 { ZeroBit(i); } else { BitBeyond(w - 1, x / 2, i - 1); }
  }

  lemma {:induction false} BitFits(x: nat, i: nat)
    requires Bit(x, i)
    ensures Pow2(i) <= x && i < x
  {
    if i > 0 { BitFits(x / 2, i - 1); }
  }

  /** Words of one width with the same bits are the same word. */
  lemma {:induction false} SameBits(w: nat, x: nat, y: nat)
    requires x < Pow2(w) && y < Pow2(w)
    requires forall i: nat :: i < w ==> Bit(x, i) == Bit(y, i)
    ensures x == y
  {
    if w > 0 {
      assert Bit(x, 0) == Bit(y, 0);
      forall i: nat | i < w - 1
        ensures Bit(x / 2, i) == Bit(y / 2, i)
      {
        assert Bit(x, i + 1) == Bit(y, i + 1);
      }
      SameBits(w - 1, x / 2, y / 2);
    }
  }

  lemma {:induction false} AndBit(x: nat, y: nat, i: nat)
    ensures Bit(And(x, y), i) == (Bit(x, i) && Bit(y, i))
  {
    ZeroBit(i);
    if x != 0 && y != 0 && i > 0 { AndBit(x / 2, y / 2, i - 1); }
  }

  lemma {:induction false} OrBit(x: nat, y: nat, i: nat)
    ensures Bit(Or(x, y), i) == (Bit(x, i) || Bit(y, i))
  {
    ZeroBit(i);
    if x != 0 && y != 0 && i > 0 { OrBit(x / 2, y / 2, i - 1); }
  }

  lemma {:induction false} NotBit(w: nat, x: nat, i: nat)
    requires x < Pow2(w) && i < w
    ensures Bit(Not(w, x), i) == !Bit(x, i)
  {
    assert Not(w, x) / 2 == Not(w - 1, x / 2);
    if i > 0 { NotBit(w - 1, x / 2, i - 1); }
  }

  lemma {:induction false} AndBound(x: nat, y: nat)
    ensures And(x, y) <= x && And(x, y) <= y
  {
    if x != 0 && y != 0 { AndBound(x / 2, y / 2); }
  }

  lemma {:induction false} OrXorBound(w: nat, x: nat, y: nat)
    requires x < Pow2(w) && y < Pow2(w)
    ensures Or(x, y) < Pow2(w) && Xor(x, y) < Pow2(w)
  {
    if w > 0 { OrXorBound(w - 1, x / 2, y / 2); }
  }

  /** `a | b` and `a + b` agree when no position is set in both. */
  lemma {:induction false} DisjointSum(x: nat, y: nat)
    requires And(x, y) == 0
    ensures Or(x, y) == x + y
  {
    if x != 0 && y != 0 { DisjointSum(x / 2, y / 2); }
  }

  lemma MaskBit(w: nat, x: nat, k: nat, mask: nat, q: nat, i: nat)
    requires x < Pow2(w) && k < w && i < w
    requires Pow2(k) - 1 < Pow2(w) && mask == Not(w, Pow2(k) - 1) && q == x / Pow2(k)
    ensures Bit(And(x, mask), i) == Bit(q * Pow2(k), i)
  {
    assert Bit(mask, i) == (i >= k) by {
      NotBit(w, Pow2(k) - 1, i);
      AllOnes(k, i);
    }
    assert i >= k ==> Bit(q, i - k) == Bit(x, i) by {
      if i >= k { ShrBit(x, k, i - k); }
    }
    BitShiftLeft(q, k, i);
    AndBit(x, mask, i);
  }

  /** `x & ~(2^k - 1)` clears the low `k` bits: it rounds down to a multiple of `2^k`. */
  lemma MaskRoundsDown(w: nat, x: nat, k: nat)
    requires x < Pow2(w) && k < w
    ensures Pow2(k) - 1 < Pow2(w)
    ensures And(x, Not(w, Pow2(k) - 1)) == x / Pow2(k) * Pow2(k)
  {
    PowMono(k, w);
    var mask, q := Not(w, Pow2(k) - 1), x / Pow2(k);
    RoundDownBound(x, Pow2(k));
    AndBound(x, mask);
    forall i: nat | i < w
      ensures Bit(And(x, mask), i) == Bit(q * Pow2(k), i)
    {
      MaskBit(w, x, k, mask, q, i);
    }
    SameBits(w, And(x, mask), q * Pow2(k));
  }

  lemma RoundDownBound(x: nat, m: nat)
    requires 0 < m
    ensures 0 <= x / m * m == x - x % m <= x
  {
  }

  lemma {:induction false} AllOnes(k: nat, i: nat)
    ensures Bit(Pow2(k) - 1, i) == (i < k)
  {
    if k == 0 {
      ZeroBit(i);
    } else {
      assert (Pow2(k) - 1) / 2 == Pow2(k - 1) - 1;
      if i > 0 { AllOnes(k - 1, i - 1); }
    }
  }
}
