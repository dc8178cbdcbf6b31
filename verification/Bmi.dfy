/**
 The lowest-set-bit functions of include/std/bmiintrin.h at any word width.

 Each function is the header's single expression; the lemmas say what it
 computes in terms of the set of one bits.
 */
module Bmi {
  import opened Bits

  predicate Word(w: nat, x: nat) {
    0 < w && x < Pow2(w)
  }

  /** `~x & y` */
  function Andn(w: nat, x: nat, y: nat): nat
    requires Word(w, x)
  {
    And(Not(w, x), y)
  }

  /** `x & -x` */
  function Blsi(w: nat, x: nat): nat
    requires Word(w, x)
  {
    And(x, Sub(w, 0, x))
  }

  /** `x ^ (x - 1)` */
  function Blsmsk(w: nat, x: nat): nat
    requires Word(w, x)
  {
    Xor(x, Sub(w, x, 1))
  }

  /** `x & (x - 1)` */
  function Blsr(w: nat, x: nat): nat
    requires Word(w, x)
  {
    And(x, Sub(w, x, 1))
  }

  /** The count of trailing zeros; like `__builtin_ctz`, it has no value at zero. */
  function Tzcnt(x: nat): nat
    requires x > 0
  {
    if x % 2 == 1 then 0 else 1 + Tzcnt(x / 2)
  }

  // -------------------------------------------- the expressions, by halving

  lemma {:induction false} AndSelf(x: nat)
    ensures And(x, x) == x && Xor(x, x) == 0
  {
    if x > 0 { AndSelf(x / 2); }
  }

  lemma {:induction false} AndComplement(w: nat, x: nat)
    requires x < Pow2(w)
    ensures And(x, Not(w, x)) == 0
  {
    if w > 0 {
      assert Not(w, x) / 2 == Not(w - 1, x / 2);
      AndComplement(w - 1, x / 2);
    }
  }

  lemma {:induction false} WithPredecessor(x: nat)
    requires x > 0
    ensures Pow2(Tzcnt(x)) <= x
    ensures And(x, x - 1) == x - Pow2(Tzcnt(x))
    ensures Xor(x, x - 1) == Pow2(Tzcnt(x) + 1) - 1
  {
    if x % 2 == 1 {
      AndSelf(x / 2);
    } else {
      assert (x - 1) / 2 == x / 2 - 1;
      WithPredecessor(x / 2);
    }
  }

  lemma {:induction false} WithNegation(w: nat, x: nat)
    requires 0 < x < Pow2(w)
    ensures And(x, Pow2(w) - x) == Pow2(Tzcnt(x))
  {
    if x % 2 == 1 {
      assert (Pow2(w) - x) / 2 == Not(w - 1, x / 2);
      AndComplement(w - 1, x / 2);
    } else {
      assert (Pow2(w) - x) / 2 == Pow2(w - 1) - x / 2;
      WithNegation(w - 1, x / 2);
    }
  }

  /** `x & y` and `~x & y` share the ones of `y` between them. */
  lemma {:induction false} AndAndnSum(w: nat, x: nat, y: nat)
    requires x < Pow2(w) && y < Pow2(w)
    ensures And(x, y) + And(Not(w, x), y) == y
  {
    if w > 0 {
      assert Not(w, x) / 2 == Not(w - 1, x / 2);
      AndAndnSum(w - 1, x / 2, y / 2);
    }
  }

  // ------------------------------------------------------------ main results

  /** `andn` keeps the ones of `y` that `x` does not have. */
  lemma AndnBit(w: nat, x: nat, y: nat, i: nat)
    requires Word(w, x) && Word(w, y)
    ensures Bit(Andn(w, x, y), i) == (!Bit(x, i) && Bit(y, i))
  {
    AndBit(Not(w, x), y, i);
    if i < w { NotBit(w, x, i); } else { BitBeyond(w, y, i); }
  }

  /** `Tzcnt` is the least position holding a one. */
  lemma {:induction false} TzcntIsLowest(x: nat)
    requires x > 0
    ensures Tzcnt(x) in Ones(x)
    ensures forall j :: j in Ones(x) ==> Tzcnt(x) <= j
  {
    if x % 2 == 0 {
      TzcntIsLowest(x / 2);
      forall j | j in Ones(x)
        ensures Tzcnt(x) <= j
      {
        assert j > 0 && Bit(x / 2, j - 1);
        OnesMember(x / 2, j - 1);
      }
    }
  }

  /** `blsi` isolates the lowest one; `blsmsk` covers it and everything below; `blsr` removes it. */
  lemma LowestBitLaws(w: nat, x: nat)
    requires Word(w, x)
    ensures x > 0 ==> Blsi(w, x) == Pow2(Tzcnt(x))
    ensures x > 0 ==> Blsmsk(w, x) == Pow2(Tzcnt(x) + 1) - 1
    ensures x > 0 ==> Pow2(Tzcnt(x)) <= x && Blsr(w, x) == x - Pow2(Tzcnt(x))
    ensures x == 0 ==> Blsi(w, x) == 0 && Blsmsk(w, x) == Pow2(w) - 1 && Blsr(w, x) == 0
  {
    if x > 0 {
      WithPredecessor(x);
      WithNegation(w, x);
    }
  }

  /** `blsi` and `blsr` split a word into two parts with no one bit in common. */
  lemma BlsiBlsrSplit(w: nat, x: nat)
    requires Word(w, x)
    ensures Word(w, Blsi(w, x)) && Blsr(w, x) == Andn(w, Blsi(w, x), x)
    ensures And(Blsi(w, x), Blsr(w, x)) == 0
    ensures Or(Blsi(w, x), Blsr(w, x)) == x == Blsi(w, x) + Blsr(w, x)
  {
    var low, rest := Blsi(w, x), Blsr(w, x);
    LowestBitLaws(w, x);
    AndBound(x, Sub(w, 0, x));
    AndBound(x, Sub(w, x, 1));
    AndAndnSum(w, low, x);
    LowInX(w, x);
    forall i: nat | i < w
      ensures Bit(And(low, rest), i) == Bit(0, i)
    {
      AndBit(low, rest, i);
      AndBit(Not(w, low), x, i);
      NotBit(w, low, i);
      ZeroBit(i);
    }
    AndBound(low, rest);
    SameBits(w, And(low, rest), 0);
    DisjointSum(low, rest);
  }

  lemma LowInX(w: nat, x: nat)
    requires Word(w, x)
    ensures And(Blsi(w, x), x) == Blsi(w, x)
  {
    var neg := Sub(w, 0, x);
    var low := And(x, neg);
    AndBound(x, neg);
    AndBound(low, x);
    forall i: nat | i < w
      ensures Bit(And(low, x), i) == Bit(low, i)
    {
      AndBit(low, x, i);
      AndBit(x, neg, i);
    }
    SameBits(w, And(low, x), low);
  }

  /** The three functions as operations on the set of one bits. */
  lemma OnesView(w: nat, x: nat)
    requires Word(w, x) && x > 0
    ensures Ones(Blsi(w, x)) == {Tzcnt(x)}
    ensures Ones(Blsr(w, x)) == Ones(x) - {Tzcnt(x)}
    ensures forall i: nat :: i in Ones(Blsmsk(w, x)) <==> i <= Tzcnt(x)
  {
    var t := Tzcnt(x);
    LowestBitLaws(w, x);
    BlsiBlsrSplit(w, x);
    AndBound(x, Sub(w, 0, x));
    forall i: nat
      ensures i in Ones(Blsi(w, x)) <==> i == t
      ensures i in Ones(Blsr(w, x)) <==> i in Ones(x) && i != t
      ensures i in Ones(Blsmsk(w, x)) <==> i <= t
    {
      PowerBit(t, i);
      AllOnes(t + 1, i);
      OnesMember(Blsi(w, x), i);
      OnesMember(Blsr(w, x), i);
      OnesMember(Blsmsk(w, x), i);
      OnesMember(x, i);
      AndBit(Not(w, Blsi(w, x)), x, i);
      if i < w { NotBit(w, Blsi(w, x), i); } else { BitBeyond(w, x, i); }
    }
  }

  lemma OnesMember(x: nat, i: nat)
    ensures i in Ones(x) <==> Bit(x, i)
  {
    if Bit(x, i) { BitFits(x, i); }
  }

  lemma {:induction false} PowerBit(t: nat, i: nat)
    ensures Bit(Pow2(t), i) == (i == t)
  {
    BitShiftLeft(1, t, i);
    if i > t { ZeroBit(i - t - 1); }
  }

  /** The allocator's test `align & (align - 1)`: zero exactly for 0 and the powers of two. */
  lemma PowerOfTwoTest(w: nat, x: nat)
    requires Word(w, x)
    ensures Blsr(w, x) == 0 <==> x == 0 || IsPow2(x)
  {
    LowestBitLaws(w, x);
    if k: nat :| x == Pow2(k) {
      TzcntOfPower(k);
    }
  }

  lemma {:induction false} TzcntOfPower(k: nat)
    ensures Tzcnt(Pow2(k)) == k
  {
    if k > 0 { TzcntOfPower(k - 1); }
  }

  // --------------------------------------- draining a word one bit at a time

  /** `x` after `n` rounds of `x = blsr(x)`. */
  function Rounds(w: nat, x: nat, n: nat): nat
    requires Word(w, x)
    decreases n
  {
    AndBound(x, Sub(w, x, 1));
    if n == 0 then x else Rounds(w, Blsr(w, x), n - 1)
  }

  /** The `blsi` values read on the way to zero. */
  function Drained(w: nat, x: nat): seq<nat>
    requires Word(w, x)
    decreases x
  {
    LowestBitLaws(w, x);
    if x == 0 then [] else [Blsi(w, x)] + Drained(w, Blsr(w, x))
  }

  function Sum(s: seq<nat>): nat {
    if s == [] then 0 else s[0] + Sum(s[1..])
  }

  /** Strictly increasing powers of two. */
  ghost predicate Expansion(s: seq<nat>) {
    && (forall i :: 0 <= i < |s| ==> IsPow2(s[i]))
    && (forall i, j :: 0 <= i < j < |s| ==> s[i] < s[j])
  }

  /** Repeating `blsr` reaches zero after as many rounds as `x` has ones, and no sooner. */
  lemma {:induction false} RoundsToZero(w: nat, x: nat, n: nat)
    requires Word(w, x)
    ensures Rounds(w, x, n) == 0 <==> n >= |Ones(x)|
    decreases n
  {
    if x == 0 {
      assert Ones(x) == {};
      LowestBitLaws(w, x);
      if n > 0 { RoundsToZero(w, 0, n - 1); }
    } else {
      TzcntIsLowest(x);
      OnesView(w, x);
      AndBound(x, Sub(w, x, 1));
      assert |Ones(Blsr(w, x))| == |Ones(x)| - 1;
      if n > 0 { RoundsToZero(w, Blsr(w, x), n - 1); }
    }
  }

  /** The values read are strictly increasing powers of two, one per one bit, and sum to `x`. */
  lemma {:induction false} DrainedIsExpansion(w: nat, x: nat)
    requires Word(w, x)
    ensures Expansion(Drained(w, x)) && Sum(Drained(w, x)) == x
    ensures |Drained(w, x)| == |Ones(x)|
    decreases x
  {
    if x == 0 {
      assert Ones(x) == {};
    } else {
      LowestBitLaws(w, x);
      var rest, tail := Blsr(w, x), Drained(w, Blsr(w, x));
      OnesView(w, x);
      TzcntIsLowest(x);
      DrainedIsExpansion(w, rest);
      if rest > 0 {
        LowestBitLaws(w, rest);
        TzcntIsLowest(rest);
        PowMono(Tzcnt(x), Tzcnt(rest));
      }
      assert Drained(w, x)[1..] == tail;
    }
  }

  /** No other increasing list of powers of two has the same sum. */
  lemma {:induction false} ExpansionUnique(w: nat, x: nat, s: seq<nat>)
    requires Word(w, x) && Expansion(s) && Sum(s) == x
    ensures s == Drained(w, x)
    decreases |s|
  {
    if s == [] {
    } else {
      ExpansionLowest(s);
      LowestBitLaws(w, x);
      ExpansionUnique(w, Blsr(w, x), s[1..]);
      assert s == [s[0]] + s[1..];
    }
  }

  lemma ExpansionLowest(s: seq<nat>)
    requires Expansion(s) && s != []
    ensures Sum(s) > 0 && s[0] == Pow2(Tzcnt(Sum(s)))
    ensures Expansion(s[1..])
  {
    var k: nat :| s[0] == Pow2(k);
    var tail := s[1..];
    forall i | 0 <= i < |tail|
      ensures tail[i] % (2 * Pow2(k)) == 0
    {
      var j: nat :| s[i + 1] == Pow2(j);
      if j <= k { PowMono(j, k); }
      PowDivides(k + 1, j);
    }
    MultipleSum(tail, 2 * Pow2(k));
    OddMultiple(k, Sum(tail));
  }

  lemma {:induction false} MultipleSum(s: seq<nat>, m: nat)
    requires m > 0 && forall i :: 0 <= i < |s| ==> s[i] % m == 0
    ensures Sum(s) % m == 0
  {
    if s != [] {
      MultipleSum(s[1..], m);
      AddMultiples(s[0], Sum(s[1..]), m);
    }
  }

  lemma AddMultiples(a: nat, b: nat, m: nat)
    requires m > 0 && a % m == 0 && b % m == 0
    ensures (a + b) % m == 0
  {
    var p, q := a / m, b / m;
    assert a + b == m * (p + q) by { assert a == m * p && b == m * q; }
    DivModUnique(a + b, m, p + q, 0);
  }

  /** Adding a multiple of `2^(k+1)` to `2^k` leaves `k` trailing zeros. */
  lemma {:induction false} OddMultiple(k: nat, y: nat)
    requires y % (2 * Pow2(k)) == 0
    ensures Tzcnt(Pow2(k) + y) == k
  {
    if k > 0 {
      DivideTwice(y, 2, Pow2(k));
      OddMultiple(k - 1, y / 2);
      assert (Pow2(k) + y) / 2 == Pow2(k - 1) + y / 2;
    }
  }
}
