/**
 Little-endian words and byte-addressed memory.

 Memory is total over addresses.  A word of `n` bytes is read and written with
 its least significant byte first, as the i686 target does.
 */
module ByteMemory {
  import opened Bits

  type u8 = x: nat | x < 256

  type Memory = int -> u8

  /** The low `n` bytes of `v`, least significant first. */
  function Bytes(v: nat, n: nat): (s: seq<u8>)
    ensures |s| == n
  {
    if n == 0 then [] else [v % 256] + Bytes(v / 256, n - 1)
  }

  /** The number that a little-endian byte string stands for. */
  function Value(s: seq<u8>): nat {
    if s == [] then 0 else s[0] + 256 * Value(s[1..])
  }

  /** The `n` bytes at address `a`. */
  function Fetch(m: Memory, a: int, n: nat): (s: seq<u8>)
    ensures |s| == n
  {
    seq(n, i => m(a + i))
  }

  /** The `n`-byte word at address `a`. */
  function Load(m: Memory, a: int, n: nat): nat {
    Value(Fetch(m, a, n))
  }

  /** Memory after writing `v` as an `n`-byte word at address `a`. */
  function Store(m: Memory, a: int, n: nat, v: nat): Memory {
    var s := Bytes(v, n);
    x => if a <= x < a + n then s[x - a] else m(x)
  }

  /** Memory after writing one byte. */
  function Poke(m: Memory, a: int, b: u8): Memory {
    x => if x == a then b else m(x)
  }

  /** The two memories hold the same bytes at `lo` up to but not including `hi`. */
  ghost predicate Same(m: Memory, m': Memory, lo: int, hi: int) {
    forall a :: lo <= a < hi ==> m'(a) == m(a)
  }

  // ------------------------------------------------------- words and bytes

  lemma Pow256(n: nat)
    ensures Pow2(8 * (n + 1)) == 256 * Pow2(8 * n)
  {
    PowAdd(8, 8 * n);
    assert Pow2(8) == 256 by { PowAdd(4, 4); assert Pow2(4) == 16; }
  }

  lemma {:induction false} ValueBound(s: seq<u8>)
    ensures Value(s) < Pow2(8 * |s|)
  {
    if s != [] {
      Pow256(|s| - 1);
      ValueBound(s[1..]);
    }
  }

  /** Writing a number out in `n` bytes and reading it back keeps it modulo `256^n`. */
  lemma {:induction false} ValueOfBytes(v: nat, n: nat)
    ensures Value(Bytes(v, n)) == v % Pow2(8 * n)
  {
    if n > 0 {
      ValueOfBytes(v / 256, n - 1);
      assert Bytes(v, n)[1..] == Bytes(v / 256, n - 1);
      Pow256(n - 1);
      DivideTwice(v, 256, Pow2(8 * (n - 1)));
    }
  }

  lemma {:induction false} BytesOfValue(s: seq<u8>)
    ensures Bytes(Value(s), |s|) == s
  {
    if s != [] {
      DivModUnique(Value(s), 256, Value(s[1..]), s[0]);
      BytesOfValue(s[1..]);
    }
  }

  /** A wide word is its low part followed by its high part. */
  lemma {:induction false} BytesSplit(v: nat, n: nat, k: nat)
    requires k <= n
    ensures Bytes(v, n)[..k] == Bytes(v, k)
    ensures Bytes(v, n)[k..] == Bytes(Shr(v, 8 * k), n - k)
  {
    if k > 0 {
      BytesSplit(v / 256, n - 1, k - 1);
      assert Bytes(v, n)[..k] == [v % 256] + Bytes(v / 256, n - 1)[..k - 1];
      Pow256(k - 1);
      DivideTwice(v, 256, Pow2(8 * (k - 1)));
    }
  }

  // ------------------------------------------------------- words in memory

  lemma FetchSplit(m: Memory, a: int, n: nat, k: nat)
    requires k <= n
    ensures Fetch(m, a, n) == Fetch(m, a, k) + Fetch(m, a + k, n - k)
  {
  }

  /** Reading back what was written. */
  lemma LoadStored(m: Memory, a: int, n: nat, v: nat)
    requires v < Pow2(8 * n)
    ensures Load(Store(m, a, n, v), a, n) == v
  {
    assert Fetch(Store(m, a, n, v), a, n) == Bytes(v, n);
    ValueOfBytes(v, n);
    Reduced(v, Pow2(8 * n));
  }

  /** The least significant byte comes first. */
  lemma LoadFour(m: Memory, a: int)
    ensures Load(m, a, 4) == Quad(m(a), m(a + 1), m(a + 2), m(a + 3))
  {
    ValueFour(Fetch(m, a, 4));
  }

  function Quad(b0: nat, b1: nat, b2: nat, b3: nat): nat {
    b0 + 0x100 * b1 + 0x1_0000 * b2 + 0x100_0000 * b3
  }

  lemma ValueFour(s: seq<u8>)
    requires |s| == 4
    ensures Value(s) == Quad(s[0], s[1], s[2], s[3])
  {
    ValueTwo(s[2..]);
    assert s[1..][1..] == s[2..];
    assert Value(s[1..]) == s[1] + 0x100 * Value(s[2..]);
  }

  lemma ValueTwo(s: seq<u8>)
    requires |s| == 2
    ensures Value(s) == Quad(s[0], s[1], 0, 0)
  {
    ValueOne(s[1..]);
  }

  lemma ValueOne(s: seq<u8>)
    requires |s| == 1
    ensures Value(s) == s[0]
  {
    assert s[1..] == [];
  }

  /** A byte written is the byte read back, and no other byte changes. */
  lemma LoadPoked(m: Memory, a: int, b: u8)
    ensures Load(Poke(m, a, b), a, 1) == b
    ensures forall x :: x != a ==> Load(Poke(m, a, b), x, 1) == Load(m, x, 1)
  {
    forall x
      ensures Load(Poke(m, a, b), x, 1) == if x == a then b else Load(m, x, 1)
    {
      OneByte(m, x);
      OneByte(Poke(m, a, b), x);
    }
  }

  lemma OneByte(m: Memory, a: int)
    ensures Load(m, a, 1) == m(a)
  {
    ValueOne(Fetch(m, a, 1));
  }

  lemma LoadSame(m: Memory, m': Memory, a: int, n: nat)
    requires Same(m, m', a, a + n)
    ensures Load(m', a, n) == Load(m, a, n)
  {
    assert Fetch(m', a, n) == Fetch(m, a, n);
  }

  lemma LoadBound(m: Memory, a: int, n: nat)
    ensures Load(m, a, n) < Pow2(8 * n)
  {
    ValueBound(Fetch(m, a, n));
  }
}
