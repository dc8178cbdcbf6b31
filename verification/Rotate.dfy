/**
 The shift-and-or rotates of include/std/ia32intrin.h at any word width.

 The C expressions are undefined for a count of 0 or of at least the width (one
 of the two shifts then moves by a whole word), hence `ValidCount`.
 */
module Rotate {
  import opened Bits

  predicate ValidCount(w: nat, x: nat, c: nat) {
    x < Pow2(w) && 0 < c < w
  }

  /** `(x << c) | (x >> (w - c))` */
  function Rol(w: nat, x: nat, c: nat): (r: nat)
    requires ValidCount(w, x, c)
    ensures r < Pow2(w)
  {
    OrXorBound(w, Shl(w, x, c), Shr(x, w - c));
    Or(Shl(w, x, c), Shr(x, w - c))
  }

  /** `(x >> c) | (x << (w - c))` */
  function Ror(w: nat, x: nat, c: nat): (r: nat)
    requires ValidCount(w, x, c)
    ensures r < Pow2(w)
  {
    OrXorBound(w, Shr(x, c), Shl(w, x, w - c));
    Or(Shr(x, c), Shl(w, x, w - c))
  }

  /** Where each bit of a left rotate comes from. */
  lemma RolSource(w: nat, x: nat, c: nat, j: nat)
    requires ValidCount(w, x, c) && j < w
    ensures Bit(Rol(w, x, c), j) == Bit(x, if j < c then j + w - c else j - c)
  {
    OrBit(Shl(w, x, c), Shr(x, w - c), j);
    ShlBit(w, x, c, j);
    ShrBit(x, w - c, j);
    if j >= c { BitBeyond(w, x, j + w - c); }
  }

  /** Where each bit of a right rotate comes from. */
  lemma RorSource(w: nat, x: nat, c: nat, j: nat)
    requires ValidCount(w, x, c) && j < w
    ensures Bit(Ror(w, x, c), j) == Bit(x, if j + c < w then j + c else j + c - w)
  {
    OrBit(Shr(x, c), Shl(w, x, w - c), j);
    ShlBit(w, x, w - c, j);
    ShrBit(x, c, j);
    if j + c >= w { BitBeyond(w, x, j + c); }
  }

  lemma WrapIndex(w: nat, i: nat, c: nat)
    requires i < w && c < w
    ensures (i + c) % w == if i + c < w then i + c else i + c - w
  {
    if i + c >= w { WrapOnce(i + c - w, w); } else { WrapOnce(i + c, w); }
  }

  // ------------------------------------------------------------ main results

  /** A left rotate moves bit `i` to bit `(i + c) mod w`. */
  lemma RolMovesBits(w: nat, x: nat, c: nat, i: nat)
    requires ValidCount(w, x, c) && i < w
    ensures Bit(Rol(w, x, c), (i + c) % w) == Bit(x, i)
  {
    WrapIndex(w, i, c);
    RolSource(w, x, c, if i + c < w then i + c else i + c - w);
  }

  /** Rotating left by `c` is rotating right by `w - c`. */
  lemma RolIsRor(w: nat, x: nat, c: nat)
    requires ValidCount(w, x, c)
    ensures Rol(w, x, c) == Ror(w, x, w - c)
  {
    forall j: nat | j < w
      ensures Bit(Rol(w, x, c), j) == Bit(Ror(w, x, w - c), j)
    {
      RolSource(w, x, c, j);
      RorSource(w, x, w - c, j);
    }
    SameBits(w, Rol(w, x, c), Ror(w, x, w - c));
  }

  /** Each rotate undoes the other. */
  lemma RorUndoesRol(w: nat, x: nat, c: nat)
    requires ValidCount(w, x, c)
    ensures Ror(w, Rol(w, x, c), c) == x
    ensures Rol(w, Ror(w, x, c), c) == x
  {
    var l, r := Rol(w, x, c), Ror(w, x, c);
    forall j: nat | j < w
      ensures Bit(Ror(w, l, c), j) == Bit(x, j)
      ensures Bit(Rol(w, r, c), j) == Bit(x, j)
    {
      RorSource(w, l, c, j);
      RolSource(w, x, c, if j + c < w then j + c else j + c - w);
      RolSource(w, r, c, j);
      RorSource(w, x, c, if j < c then j + w - c else j - c);
    }
    SameBits(w, Ror(w, l, c), x);
    SameBits(w, Rol(w, r, c), x);
  }

  /** A rotation by any total count: the identity when the count is a multiple of the width. */
  function RolTotal(w: nat, x: nat, total: nat): (r: nat)
    requires x < Pow2(w) && 0 < w
    ensures r < Pow2(w)
  {
    if total % w == 0 then x else Rol(w, x, total % w)
  }

  /** Two rotates are one rotate by the sum of the counts modulo the width. */
  lemma RolCompose(w: nat, x: nat, c: nat, d: nat)
    requires ValidCount(w, x, c) && ValidCount(w, x, d)
    ensures Rol(w, Rol(w, x, c), d) == RolTotal(w, x, c + d)
  {
    var e := if c + d < w then c + d else c + d - w;
    WrapIndex(w, c, d);
    var y := Rol(w, x, c);
    forall j: nat | j < w
      ensures Bit(Rol(w, y, d), j) == Bit(RolTotal(w, x, c + d), j)
    {
      RolSource(w, y, d, j);
      RolSource(w, x, c, if j < d then j + w - d else j - d);
      if e > 0 { RolSource(w, x, e, j); }
    }
    SameBits(w, Rol(w, y, d), RolTotal(w, x, c + d));
  }

  /** Left rotates by each of `counts` in turn. */
  function RolEach(w: nat, x: nat, counts: seq<nat>): nat
    requires x < Pow2(w) && forall i :: 0 <= i < |counts| ==> 0 < counts[i] < w
    decreases |counts|
  {
    if counts == [] then x else RolEach(w, Rol(w, x, counts[0]), counts[1..])
  }

  function Total(counts: seq<nat>): nat {
    if counts == [] then 0 else counts[0] + Total(counts[1..])
  }

  /** Any run of rotates is one rotate by the total count. */
  lemma {:induction false} RolEachIsTotal(w: nat, x: nat, counts: seq<nat>)
    requires 0 < w && x < Pow2(w) && forall i :: 0 <= i < |counts| ==> 0 < counts[i] < w
    ensures RolEach(w, x, counts) == RolTotal(w, x, Total(counts))
    decreases |counts|
  {
    if counts == [] {
      WrapOnce(0, w);
    } else {
      var c, t := counts[0], Total(counts[1..]);
      RolEachIsTotal(w, Rol(w, x, c), counts[1..]);
      AddResidues(c, t, w);
      if t % w != 0 { RolCompose(w, x, c, t % w); }
    }
  }

  lemma AddResidues(c: nat, t: nat, w: nat)
    requires c < w
    ensures (c + t) % w == (c + t % w) % w
    ensures t % w == 0 ==> (c + t) % w == c
  {
    var q, r := t / w, t % w;
    assert t == w * q + r;
    WrapIndex(w, c, r);
    if c + r < w {
      DivModUnique(c + t, w, q, c + r);
    } else {
      assert w * (q + 1) == w * q + w;
      DivModUnique(c + t, w, q + 1, c + r - w);
    }
  }
}
