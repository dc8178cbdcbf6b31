/**
 The pointer arithmetic of `_mm_malloc` in include/std/mm_malloc.h.
 */
module Alignment {
  import opened Bits
  import Bmi

  /**
   What the header is compiled for.  `log` is the base-2 logarithm of the pointer
   size in bytes: 2 on the kernel's i686, 3 on a 64-bit machine.  `slack` is how many
   bytes just below each block `malloc` leaves alone: 0 for the `malloc` that the
   header assumes, 3 for the one in libc/stdlib_memory.c (see LibcMalloc.dfy).
   */
  datatype Target = Target(log: nat, slack: nat) {
    /** `sizeof (void *)`, in bytes. */
    function Ptr(): (r: nat)
      ensures r > 0
    {
      Pow2(log)
    }

    /** Bits in a `size_t` and in a pointer. */
    function Width(): (r: nat)
      ensures r >= 8
    {
      8 * Ptr()
    }

    /** Number of addresses. */
    function Limit(): (r: nat)
      ensures r > 0
    {
      Pow2(Width())
    }

    /** A pointer `malloc` may answer: aligned to `sizeof (void *)`, or else with slack to make up for it. */
    ghost predicate Suits(ptr: nat) {
      ptr % Ptr() == 0 || slack + 1 >= Ptr()
    }
  }

  // -------------------------------------------------- the C expressions

  /** `align & (align - 1)` */
  function PowerTest(t: Target, align: nat): nat
    requires align < t.Limit()
  {
    Bmi.Blsr(t.Width(), align)
  }

  /** `((size_t) malloc_ptr + align) & ~((size_t) (align) - 1)` */
  function MaskedUp(t: Target, ptr: nat, align: nat): (r: nat)
    requires align < t.Limit()
    ensures r < t.Limit()
  {
    PowMono(1, t.Width());
    AndBound(Add(t.Width(), ptr, align), Not(t.Width(), Sub(t.Width(), align, 1)));
    And(Add(t.Width(), ptr, align), Not(t.Width(), Sub(t.Width(), align, 1)))
  }

  // ------------------------------------------------------- what they mean

  /** The requests that are not refused with `EINVAL`. */
  ghost predicate AlignOk(align: nat) {
    align == 0 || IsPow2(align)
  }

  /** The alignment actually used: at least two pointers. */
  function Raised(t: Target, align: nat): nat {
    if align < 2 * t.Ptr() then 2 * t.Ptr() else align
  }

  /** The bytes asked of `malloc`: `size + align`, wrapping at the width of a `size_t`. */
  function Asked(t: Target, size: nat, align: nat): nat {
    Add(t.Width(), size, Raised(t, align))
  }

  /** The least multiple of `a` strictly above `x`. */
  function Above(x: nat, a: nat): nat
    requires a > 0
  {
    x - x % a + a
  }

  lemma AboveIsLeast(x: nat, a: nat)
    requires a > 0
    ensures Above(x, a) % a == 0 && x < Above(x, a) <= x + a
    ensures forall y: nat :: x < y && y % a == 0 ==> Above(x, a) <= y
  {
    var q := x / a;
    assert Above(x, a) == a * (q + 1) by { assert x == a * q + x % a; }
    DivModUnique(Above(x, a), a, q + 1, 0);
    forall y: nat | x < y && y % a == 0
      ensures Above(x, a) <= y
    {
      MultipleBeyond(a, q, y / a);
      assert y == a * (y / a);
    }
  }

  lemma AboveIsLarge(x: nat, a: nat)
    requires a > 0
    ensures Above(x, a) >= a
  {
    var q: nat := x / a;
    var m: nat := a * q;
    assert x == m + x % a;
  }

  lemma MultipleBeyond(a: nat, q: nat, r: nat)
    ensures if r <= q then a * r <= a * q else a * (q + 1) <= a * r
  {
    if r <= q {
      ProductBound(q - r + 1, a);
      assert a * q == a * r + (q - r + 1) * a - a;
    } else {
      ProductBound(r - q, a);
      assert a * r == a * q + (r - q) * a;
    }
  }

  /** The refusal test is exact, at every pointer size. */
  lemma PowerTestIff(t: Target, align: nat)
    requires align < t.Limit()
    ensures PowerTest(t, align) == 0 <==> AlignOk(align)
  {
    Bmi.PowerOfTwoTest(t.Width(), align);
  }

  /** Every accepted alignment is raised to a power of two that is a multiple of the pointer size. */
  lemma RaisedPower(t: Target, align: nat) returns (k: nat)
    requires align < t.Limit() && AlignOk(align)
    ensures Raised(t, align) == Pow2(k) && t.log < k < t.Width() && 2 * t.Ptr() <= Pow2(k) < t.Limit()
    ensures align != 0 ==> Raised(t, align) % align == 0
  {
    PowExceeds(t.log);
    if align < 2 * t.Ptr() {
      k := t.log + 1;
      if align != 0 {
        var j: nat :| align == Pow2(j);
        PowOrder(j, k);
        PowDivides(j, k);
      }
    } else {
      k :| align == Pow2(k);
      PowOrder(t.log, k);
      PowOrder(k, t.Width());
      PowDivides(k, k);
    }
    PowMono(k, t.Width());
  }

  /** The raise is no more than needed: no lower power of two holds two pointers and is a multiple of what was asked for. */
  lemma RaisedIsLeast(t: Target, align: nat, j: nat)
    requires align < t.Limit() && AlignOk(align)
    requires Pow2(j) >= 2 * t.Ptr() && (align != 0 ==> Pow2(j) % align == 0)
    ensures Raised(t, align) <= Pow2(j)
  {
    if align >= 2 * t.Ptr() && Pow2(j) < align { Reduced(Pow2(j), align); }
  }

  lemma RaisedBound(t: Target, align: nat)
    requires align < t.Limit()
    ensures Raised(t, align) < t.Limit()
  {
    PowExceeds(t.log);
    PowMono(t.log + 1, t.Width() - 1);
  }

  /** Smaller powers have smaller exponents. */
  lemma PowOrder(i: nat, j: nat)
    requires Pow2(i) < Pow2(j)
    ensures i < j
  {
    if j <= i { PowMono(j, i); }
  }

  lemma NextMultiple(x: nat, a: nat)
    requires a > 0
    ensures (x + a) / a * a == Above(x, a)
  {
    var q := x / a;
    assert x + a == a * (q + 1) + x % a by { assert x == a * q + x % a; }
    DivModUnique(x + a, a, q + 1, x % a);
  }

  /** What the mask expression computes, its addition wrapping at the width of a pointer. */
  lemma MaskedUpIs(t: Target, ptr: nat, k: nat)
    requires k < t.Width() && Pow2(k) < t.Limit()
    ensures MaskedUp(t, ptr, Pow2(k)) == Add(t.Width(), ptr, Pow2(k)) / Pow2(k) * Pow2(k)
  {
    PowMono(1, t.Width());
    MaskRoundsDown(t.Width(), Add(t.Width(), ptr, Pow2(k)), k);
  }

  /** When that addition does not wrap, the result is the least multiple of the alignment above `ptr`. */
  lemma MaskedUpIsAbove(t: Target, ptr: nat, k: nat)
    requires k < t.Width() && ptr + Pow2(k) < t.Limit()
    ensures MaskedUp(t, ptr, Pow2(k)) == Above(ptr, Pow2(k))
  {
    MaskedUpIs(t, ptr, k);
    NextMultiple(ptr, Pow2(k));
  }

  // ------------------------------------------------- room for word and payload

  /** The hidden word stays off whatever lies below the slack exactly when `ptr` is not too close below a boundary. */
  lemma WordFitsIff(t: Target, ptr: nat, a: nat)
    requires a > 0
    ensures ptr + t.Ptr() <= Above(ptr, a) + t.slack <==> ptr % a + t.Ptr() <= a + t.slack
  {
  }

  /** So a suitable `ptr` always leaves the word. */
  lemma SuitableWordFits(t: Target, ptr: nat, k: nat)
    requires t.Suits(ptr) && t.log <= k
    ensures ptr + t.Ptr() <= Above(ptr, Pow2(k)) + t.slack
  {
    PowAdd(t.log, k - t.log);
    if ptr % t.Ptr() == 0 {
      MultipleAbove(ptr, t.Ptr(), Pow2(k - t.log));
    } else {
      AboveIsLeast(ptr, Pow2(k));
    }
  }

  /** Without slack, a pointer that is not aligned can put the word on top of what lies below the block. */
  lemma UnsuitableWordOverlaps(t: Target, ptr: nat)
    requires t.log > 0 && t.slack == 0 && ptr % (2 * t.Ptr()) == 2 * t.Ptr() - 1
    ensures Above(ptr, 2 * t.Ptr()) - t.Ptr() < ptr
  {
  }

  lemma MultipleAbove(x: nat, p: nat, c: nat)
    requires p > 0 && c > 0 && x % p == 0
    ensures p * c > 0 && x + p <= Above(x, p * c) && Above(x, p * c) % p == 0
  {
    var u := x / p;
    var m := u % c;
    DivideTwice(x, p, c);
    assert x == p * u && x % (p * c) == p * m;
    var d := c - m;
    ProductBound(d, p);
    assert Above(x, p * c) == p * u + p * d;
    assert p * u + p * d == p * (u + d);
    DivModUnique(Above(x, p * c), p, u + d, 0);
  }

  /**
   What `_mm_malloc` promises of the pointer `p` it builds from `malloc`'s answer:
   the least multiple of the raised alignment above `ptr`, a multiple of the
   alignment asked for, with room for a whole word above the block's slack.
   */
  ghost predicate GoodPointer(t: Target, align: nat, ptr: nat, p: nat) {
    var a := Raised(t, align);
    && p % a == 0 && ptr < p <= ptr + a
    && (forall y: nat :: ptr < y && y % a == 0 ==> p <= y)
    && (align != 0 ==> p % align == 0)
    && ptr + t.Ptr() <= p + t.slack
  }

  lemma PointerFacts(t: Target, align: nat, ptr: nat)
    requires align < t.Limit() && AlignOk(align) && t.Suits(ptr)
    ensures GoodPointer(t, align, ptr, Above(ptr, Raised(t, align)))
  {
    var k := RaisedPower(t, align);
    AboveIsLeast(ptr, Pow2(k));
    SuitableWordFits(t, ptr, k);
    if align != 0 { MultipleOfMultiple(Above(ptr, Pow2(k)), Pow2(k), align); }
  }

  /** The word and the payload lie between `ptr` and the end of `size` plus the raised alignment. */
  lemma RoomForWord(t: Target, align: nat, ptr: nat)
    requires align < t.Limit() && AlignOk(align) && t.Suits(ptr)
    ensures ptr + t.Ptr() - t.slack <= Above(ptr, Raised(t, align)) <= ptr + Raised(t, align)
    ensures ptr < Above(ptr, Raised(t, align))
  {
    PointerFacts(t, align, ptr);
  }

  lemma MultipleOfMultiple(x: nat, a: nat, d: nat)
    requires a > 0 && d > 0 && x % a == 0 && a % d == 0
    ensures x % d == 0
  {
    var u, v := x / a, a / d;
    assert x == d * (v * u) by { assert x == a * u && a == d * v; }
    DivModUnique(x, d, v * u, 0);
  }

  /** A block of the bytes asked of `malloc` holds the payload exactly when the request did not wrap. */
  lemma PayloadFitsIff(t: Target, ptr: nat, size: nat, k: nat)
    requires size < t.Limit() && k < t.Width() && Pow2(k) < t.Limit()
    ensures Above(ptr, Pow2(k)) + size <= ptr + Add(t.Width(), size, Pow2(k))
       <==> size + Pow2(k) < t.Limit()
  {
    AboveIsLeast(ptr, Pow2(k));
    var sum := size + Pow2(k);
    if sum >= t.Limit() { WrapOnce(sum - t.Limit(), t.Limit()); }
  }
}
