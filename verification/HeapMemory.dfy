/**
 The control blocks of one heap as bytes in memory, and the writes that
 libc/stdlib_memory.c makes to them.
 */
module HeapMemory {
  import opened Bits
  import opened ByteMemory
  import opened HeapChain

  /** The bytes of a control block that hold a field; the last three are padding. */
  const FIELDS: nat := 17

  const MAGIC: nat := 0x4E58_4D4D

  /** Bytes in a field of type `size_t`. */
  const WORD: nat := 4

  /** The four bytes at `a` hold the word `v`. */
  ghost predicate Word(m: Memory, a: int, v: nat) {
    Fetch(m, a, WORD) == Bytes(v, WORD)
  }

  /** The control block at `h` says that it belongs to heap `id` and describes `b`. */
  ghost predicate Header(m: Memory, h: nat, id: nat, b: Block) {
    && Word(m, h, id) && Word(m, h + 4, MAGIC) && Word(m, h + 8, b.size) && Word(m, h + 12, 0)
    && (m(h + 16) != 0 <==> b.free)
  }

  lemma WordLoads(m: Memory, a: int, v: nat)
    requires Word(m, a, v) && v < LIMIT
    ensures Load(m, a, 4) == v
  {
    ValueOfBytes(v, WORD);
    Pow32();
    Reduced(v, LIMIT);
  }

  lemma WordStored(m: Memory, a: int, v: nat)
    ensures Word(Store(m, a, 4, v), a, v)
  {
    assert Fetch(Store(m, a, WORD, v), a, WORD) == Bytes(v, WORD);
  }

  lemma WordSame(m: Memory, m': Memory, a: int, v: nat)
    requires Word(m, a, v) && Same(m, m', a, a + 4)
    ensures Word(m', a, v)
  {
    assert Fetch(m', a, WORD) == Fetch(m, a, WORD);
  }

  /** What a program reads from a control block. */
  lemma HeaderReads(m: Memory, h: nat, id: nat, b: Block)
    requires Header(m, h, id, b) && id < LIMIT && b.size < LIMIT
    ensures Load(m, h, 4) == id && Load(m, h + 4, 4) == MAGIC
    ensures Load(m, h + 8, 4) == b.size && Load(m, h + 12, 4) == 0
    ensures m(h + 16) != 0 <==> b.free
  {
    WordLoads(m, h, id);
    WordLoads(m, h + 4, MAGIC);
    WordLoads(m, h + 8, b.size);
    WordLoads(m, h + 12, 0);
  }

  /** The bytes of a control block: heap, magic number, size, padding and flag, in that order. */
  lemma HeaderLayout(m: Memory, h: nat, id: nat, b: Block)
    requires Header(m, h, id, b) && id < LIMIT && b.size < LIMIT
    ensures Quad(m(h), m(h + 1), m(h + 2), m(h + 3)) == id
    ensures m(h + 4) == 0x4D && m(h + 5) == 0x4D && m(h + 6) == 0x58 && m(h + 7) == 0x4E
    ensures Quad(m(h + 8), m(h + 9), m(h + 10), m(h + 11)) == b.size
    ensures Quad(m(h + 12), m(h + 13), m(h + 14), m(h + 15)) == 0
    ensures m(h + 16) != 0 <==> b.free
  {
    WordBytes(m, h, id);
    WordBytes(m, h + 4, MAGIC);
    MagicBytes(m(h + 4), m(h + 5), m(h + 6), m(h + 7));
    WordBytes(m, h + 8, b.size);
    WordBytes(m, h + 12, 0);
  }

  lemma WordBytes(m: Memory, a: int, v: nat)
    requires Word(m, a, v) && v < LIMIT
    ensures Quad(m(a), m(a + 1), m(a + 2), m(a + 3)) == v
  {
    WordLoads(m, a, v);
    LoadFour(m, a);
  }

  lemma MagicBytes(b0: u8, b1: u8, b2: u8, b3: u8)
    requires Quad(b0, b1, b2, b3) == MAGIC
    ensures b0 == 0x4D && b1 == 0x4D && b2 == 0x58 && b3 == 0x4E
  {
  }

  /** The control blocks that memory holds for heap `id`. */
  ghost function Marks(m: Memory, id: nat): Mark {
    (h: nat, b: Block) => Header(m, h, id, b)
  }

  /** Memory from `a` on holds the control blocks of `bs`. */
  ghost predicate Laid(m: Memory, a: nat, id: nat, bs: seq<Block>) {
    LaidBy(Marks(m, id), a, bs)
  }

  lemma HeaderSame(m: Memory, m': Memory, h: nat, id: nat, b: Block)
    requires Header(m, h, id, b) && Same(m, m', h, h + FIELDS)
    ensures Header(m', h, id, b)
  {
    WordSame(m, m', h, id);
    WordSame(m, m', h + 4, MAGIC);
    WordSame(m, m', h + 8, b.size);
    WordSame(m, m', h + 12, 0);
  }

  // ------------------------------------------------------------- the writes

  /** The five assignments that set up a new free control block, in the order of the source. */
  function NewHeader(m: Memory, h: nat, id: nat, size: nat): Memory {
    var m1 := Store(m, h + 4, 4, MAGIC);
    var m2 := Store(m1, h, 4, id);
    var m3 := Poke(m2, h + 16, 1);
    var m4 := Store(m3, h + 8, 4, size);
    Store(m4, h + 12, 4, 0)
  }

  /** The assignments that put an existing control block in use with `size` bytes. */
  function Used(m: Memory, h: nat, size: nat): Memory {
    Store(Poke(m, h + 16, 0), h + 8, 4, size)
  }

  /** The assignments that free an existing control block and give it `size` bytes. */
  function Freed(m: Memory, h: nat, size: nat): Memory {
    Poke(Store(m, h + 8, 4, size), h + 16, 1)
  }

  lemma WordPastStore(m: Memory, a: int, v: nat, b: int, u: nat)
    requires Word(m, b, u) && (b + 4 <= a || a + 4 <= b)
    ensures Word(Store(m, a, 4, v), b, u)
  {
    WordSame(m, Store(m, a, 4, v), b, u);
  }

  lemma WordPastPoke(m: Memory, a: int, x: u8, b: int, u: nat)
    requires Word(m, b, u) && (b + 4 <= a || a < b)
    ensures Word(Poke(m, a, x), b, u)
  {
    WordSame(m, Poke(m, a, x), b, u);
  }

  lemma NewHeaderIs(m: Memory, h: nat, id: nat, size: nat)
    ensures Header(NewHeader(m, h, id, size), h, id, Block(size, true))
  {
    var m1 := Store(m, h + 4, 4, MAGIC);
    var m2 := Store(m1, h, 4, id);
    var m3 := Poke(m2, h + 16, 1);
    var m4 := Store(m3, h + 8, 4, size);
    var m5 := Store(m4, h + 12, 4, 0);
    WordStored(m, h + 4, MAGIC);
    WordPastStore(m1, h, id, h + 4, MAGIC);
    WordPastPoke(m2, h + 16, 1, h + 4, MAGIC);
    WordPastStore(m3, h + 8, size, h + 4, MAGIC);
    WordPastStore(m4, h + 12, 0, h + 4, MAGIC);
    WordStored(m1, h, id);
    WordPastPoke(m2, h + 16, 1, h, id);
    WordPastStore(m3, h + 8, size, h, id);
    WordPastStore(m4, h + 12, 0, h, id);
    WordStored(m3, h + 8, size);
    WordPastStore(m4, h + 12, 0, h + 8, size);
    WordStored(m4, h + 12, 0);
    assert m5(h + 16) == 1;
  }

  lemma UsedIs(m: Memory, h: nat, id: nat, b: Block, size: nat)
    requires Header(m, h, id, b)
    ensures Header(Used(m, h, size), h, id, Block(size, false))
  {
    var m1 := Poke(m, h + 16, 0);
    WordPastPoke(m, h + 16, 0, h, id);
    WordPastPoke(m, h + 16, 0, h + 4, MAGIC);
    WordPastPoke(m, h + 16, 0, h + 12, 0);
    WordPastStore(m1, h + 8, size, h, id);
    WordPastStore(m1, h + 8, size, h + 4, MAGIC);
    WordPastStore(m1, h + 8, size, h + 12, 0);
    WordStored(m1, h + 8, size);
  }

  lemma FreedIs(m: Memory, h: nat, id: nat, b: Block, size: nat)
    requires Header(m, h, id, b)
    ensures Header(Freed(m, h, size), h, id, Block(size, true))
  {
    var m1 := Store(m, h + 8, 4, size);
    WordPastStore(m, h + 8, size, h, id);
    WordPastStore(m, h + 8, size, h + 4, MAGIC);
    WordPastStore(m, h + 8, size, h + 12, 0);
    WordStored(m, h + 8, size);
    WordPastPoke(m1, h + 16, 1, h, id);
    WordPastPoke(m1, h + 16, 1, h + 4, MAGIC);
    WordPastPoke(m1, h + 16, 1, h + 8, size);
    WordPastPoke(m1, h + 16, 1, h + 12, 0);
  }

  /** Nothing changes except at `lo` up to but not including `hi`. */
  ghost predicate OnlyWithin(m: Memory, m': Memory, lo: int, hi: int) {
    forall x :: !(lo <= x < hi) ==> m'(x) == m(x)
  }

  /** Writing one control block leaves another alone. */
  lemma HeaderApart(m: Memory, m': Memory, h: nat, at: nat, id: nat, b: Block)
    requires Header(m, h, id, b) && OnlyWithin(m, m', at, at + FIELDS) && (h + FIELDS <= at || at + FIELDS <= h)
    ensures Header(m', h, id, b)
  {
    HeaderSame(m, m', h, id, b);
  }

  lemma WritesWithin(m: Memory, h: nat, id: nat, size: nat)
    ensures OnlyWithin(m, NewHeader(m, h, id, size), h, h + FIELDS)
    ensures OnlyWithin(m, Used(m, h, size), h, h + FIELDS)
    ensures OnlyWithin(m, Freed(m, h, size), h, h + FIELDS)
  {
  }

  /** A split, once the new control block is written (`m1`): putting `b` in use. */
  lemma SplitUsed(m: Memory, m1: Memory, addr: nat, n: nat, id: nat, b: Block)
    requires Header(m, addr, id, b) && Fits(b, n)
    requires var at := addr + MCB + n;
             Header(m1, at, id, Block(b.size - n - MCB, true)) && OnlyWithin(m, m1, at, at + FIELDS)
    ensures var m' := Used(m1, addr, n);
            && Header(m', addr, id, Block(n, false)) && Header(m', addr + MCB + n, id, Block(b.size - n - MCB, true))
            && OnlyWithin(m, m', addr, addr + MCB + b.size)
  {
    WritesWithin(m1, addr, id, n);
    HeaderApart(m, m1, addr, addr + MCB + n, id, b);
    UsedIs(m1, addr, id, b, n);
    SplitOther(m, m1, Used(m1, addr, n), addr, n, id, b);
  }

  /**
   The same for a size whose sum wraps: the size field says more than the block has.  The new
   control block falls into the old one; for `n == LIMIT - MCB` the two are the same.
   */
  lemma WrappedUsed(m: Memory, m1: Memory, addr: nat, n: nat, id: nat, size: nat, b: Block)
    requires n < LIMIT <= n + MCB && Passes(b, n)
    requires var at := addr + Need(n);
             Header(m1, at, id, Block(size, true)) && OnlyWithin(m, m1, at, at + FIELDS)
    ensures var m' := Used(m1, addr, n);
            && Load(m', addr + 8, 4) == n && OnlyWithin(m, m', addr, addr + MCB + b.size)
            && (n == LIMIT - MCB ==> Header(m', addr, id, Block(n, false)))
  {
    var m2 := Used(m1, addr, n);
    WritesWithin(m1, addr, id, n);
    WordStored(Poke(m1, addr + 16, 0), addr + 8, n);
    WordLoads(m2, addr + 8, n);
    if n == LIMIT - MCB { UsedIs(m1, addr, id, Block(size, true), n); }
    WrappedWithin(m, m1, m2, addr, n, b);
  }

  lemma WrappedWithin(m: Memory, m1: Memory, m2: Memory, addr: nat, n: nat, b: Block)
    requires n < LIMIT <= n + MCB && Passes(b, n)
    requires OnlyWithin(m, m1, addr + Need(n), addr + Need(n) + FIELDS) && OnlyWithin(m1, m2, addr, addr + FIELDS)
    ensures OnlyWithin(m, m2, addr, addr + MCB + b.size)
  {
  }

  /** An address or a size as 32-bit arithmetic leaves it. */
  function Wrap(x: int): nat {
    x % LIMIT
  }

  lemma WrapIs(x: int)
    requires 0 <= x + LIMIT && x < 2 * LIMIT
    ensures Wrap(x) == if x < 0 then x + LIMIT else if x < LIMIT then x else x - LIMIT
  {
    var q := if x < 0 then -1 else if x < LIMIT then 0 else 1;
    DivModUnique(x, LIMIT, q, x - q * LIMIT);
  }

  /** Where the control block behind a cut goes, and what size it gets. */
  lemma SplitSums(addr: nat, n: nat, b: Block)
    requires n < LIMIT && Passes(b, n) && addr + MCB + b.size < LIMIT
    ensures Wrap(addr + MCB + n) == addr + Need(n) && Wrap(b.size - n - MCB) == b.size - Need(n)
  {
    WrapIs(addr + MCB + n);
    WrapIs(b.size - n - MCB);
  }

  /** The address to which the search goes on from the control block at `addr`. */
  function Onward(m: Memory, addr: nat): nat {
    Wrap(addr + Load(m, addr + 8, 4) + MCB)
  }

  /** The address after `k` turns of a search, all of which the block met turns down. */
  function Turns(m: Memory, addr: nat, k: nat): nat {
    if k == 0 then addr else Onward(m, Turns(m, addr, k - 1))
  }

  /** A block in use of `LIMIT - MCB` bytes is turned down by every search, which then never leaves it. */
  lemma {:induction false} SearchStuck(m: Memory, addr: nat, id: nat, k: nat)
    requires addr < LIMIT && id < LIMIT && Header(m, addr, id, Block(LIMIT - MCB, false))
    ensures Load(m, addr + 4, 4) == MAGIC && m(addr + 16) == 0
    ensures Turns(m, addr, k) == addr
  {
    HeaderReads(m, addr, id, Block(LIMIT - MCB, false));
    if k > 0 {
      SearchStuck(m, addr, id, k - 1);
      WrapIs(addr + LIMIT);
    }
  }

  lemma SplitOther(m: Memory, m1: Memory, m2: Memory, addr: nat, n: nat, id: nat, b: Block)
    requires Fits(b, n)
    requires var at := addr + MCB + n;
             Header(m1, at, id, Block(b.size - n - MCB, true)) && OnlyWithin(m, m1, at, at + FIELDS)
    requires OnlyWithin(m1, m2, addr, addr + FIELDS)
    ensures Header(m2, addr + MCB + n, id, Block(b.size - n - MCB, true))
    ensures OnlyWithin(m, m2, addr, addr + MCB + b.size)
  {
    HeaderApart(m1, m2, addr + MCB + n, addr, id, Block(b.size - n - MCB, true));
    WithinBoth(m, m1, m2, addr, n, b);
  }

  lemma WithinBoth(m: Memory, m1: Memory, m2: Memory, addr: nat, n: nat, b: Block)
    requires Fits(b, n)
    requires OnlyWithin(m, m1, addr + MCB + n, addr + MCB + n + FIELDS) && OnlyWithin(m1, m2, addr, addr + FIELDS)
    ensures OnlyWithin(m, m2, addr, addr + MCB + b.size)
  {
  }

  // ------------------------------------------------- the operations in memory

  /** The memory keeps the control blocks that lie between `lo` and `hi`. */
  lemma MarksKept(m: Memory, m': Memory, id: nat, lo: nat, hi: nat)
    requires Same(m, m', lo, hi)
    ensures Preserves(Marks(m, id), Marks(m', id), lo, hi)
  {
    forall h: nat, b | Marks(m, id)(h, b) && lo <= h && h + MCB <= hi
      ensures Marks(m', id)(h, b)
    {
      HeaderSame(m, m', h, id, b);
    }
  }

  /** A heap whose bytes are kept stays laid out. */
  lemma KeptLaid(m: Memory, m': Memory, a: nat, id: nat, bs: seq<Block>)
    requires Laid(m, a, id, bs) && Same(m, m', a, a + Span(bs))
    ensures Laid(m', a, id, bs)
  {
    MarksKept(m, m', id, a, a + Span(bs));
    LaidKept(Marks(m, id), Marks(m', id), a, bs);
  }

  /** New blocks over the same bytes, all writes being confined to those bytes. */
  lemma ReplaceLaid(m: Memory, m': Memory, a: nat, id: nat, pre: seq<Block>, was: seq<Block>, mid: seq<Block>, post: seq<Block>)
    requires Laid(m, a, id, pre + was + post) && Span(mid) == Span(was)
    requires Laid(m', a + Span(pre), id, mid)
    requires Same(m, m', a, a + Span(pre))
    requires Same(m, m', a + Span(pre) + Span(was), a + Span(pre) + Span(was) + Span(post))
    ensures Laid(m', a, id, pre + mid + post)
  {
    var h := a + Span(pre);
    MarksKept(m, m', id, a, h);
    MarksKept(m, m', id, h + Span(was), h + Span(was) + Span(post));
    ReplaceLaidBy(Marks(m, id), Marks(m', id), a, pre, was, mid, post);
  }

  lemma LaidOne(m: Memory, a: nat, id: nat, b: Block)
    ensures Laid(m, a, id, [b]) <==> Header(m, a, id, b)
  {
    LaidByOne(Marks(m, id), a, b);
  }

  /** The control block of the block that follows `pre`. */
  lemma HeaderAt(m: Memory, a: nat, id: nat, pre: seq<Block>, b: Block, post: seq<Block>)
    requires Laid(m, a, id, pre + ([b] + post))
    ensures Header(m, a + Span(pre), id, b)
  {
    LaidApp(Marks(m, id), a, pre, [b] + post);
    LaidApp(Marks(m, id), a + Span(pre), [b], post);
    LaidOne(m, a + Span(pre), id, b);
  }

  /** After an allocation has cut `n` bytes from block `b`, the heap is laid out with its two halves. */
  lemma CarveLaid(m: Memory, m': Memory, a: nat, id: nat, pre: seq<Block>, b: Block, post: seq<Block>, n: nat)
    requires Laid(m, a, id, pre + ([b] + post)) && Fits(b, n)
    requires Header(m', a + Span(pre), id, Block(n, false))
    requires Header(m', a + Span(pre) + MCB + n, id, Block(b.size - n - MCB, true))
    requires OnlyWithin(m, m', a + Span(pre), a + Span(pre) + MCB + b.size)
    ensures Laid(m', a, id, pre + (Halves(b, n) + post))
  {
    var two := Halves(b, n);
    assert Laid(m', a + Span(pre), id, two) by {
      LaidByTwo(Marks(m', id), a + Span(pre), Block(n, false), Block(b.size - n - MCB, true));
    }
    assert Span(two) == Span([b]) == MCB + b.size by { HalvesSpan(b, n); SpanOne(b); }
    Regroup(pre, [b], [], post);
    Regroup(pre, two, [], post);
    ReplaceLaid(m, m', a, id, pre, [b], two, post);
  }

  /** After block `b` has taken in the blocks `run` that follow it, the heap is laid out with the one free block. */
  lemma ReleaseLaid(m: Memory, m': Memory, a: nat, id: nat, pre: seq<Block>, b: Block, run: seq<Block>, post: seq<Block>)
    requires Laid(m, a, id, pre + ([b] + (run + post)))
    requires Header(m', a + Span(pre), id, Block(b.size + Span(run), true))
    requires OnlyWithin(m, m', a + Span(pre), a + Span(pre) + FIELDS)
    ensures Laid(m', a, id, pre + ([Block(b.size + Span(run), true)] + post))
  {
    var one := [Block(b.size + Span(run), true)];
    LaidOne(m', a + Span(pre), id, one[0]);
    UnionSpan(b, run);
    Regroup(pre, [b], run, post);
    Regroup(pre, one, [], post);
    ReplaceLaid(m, m', a, id, pre, [b] + run, one, post);
  }

  /** Writes above the fields of one control block, in the bytes of its block, leave the heap laid out. */
  lemma PayloadWriteLaid(m: Memory, m': Memory, a: nat, id: nat, pre: seq<Block>, b: Block, post: seq<Block>)
    requires Laid(m, a, id, pre + ([b] + post))
    requires OnlyWithin(m, m', a + Span(pre) + FIELDS, a + Span(pre) + MCB + b.size)
    ensures Laid(m', a, id, pre + ([b] + post))
  {
    var h := a + Span(pre);
    HeaderAt(m, a, id, pre, b, post);
    HeaderSame(m, m', h, id, b);
    LaidOne(m', h, id, b);
    SpanOne(b);
    assert pre + ([b] + post) == pre + [b] + post;
    ReplaceLaid(m, m', a, id, pre, [b], [b], post);
  }

  lemma UnionSpan(b: Block, run: seq<Block>)
    ensures Span([b] + run) == Span([Block(b.size + Span(run), true)]) == MCB + b.size + Span(run)
  {
    SpanOne(b);
    SpanOne(Block(b.size + Span(run), true));
    SpanApp([b], run);
  }

  lemma Regroup(p: seq<Block>, q: seq<Block>, r: seq<Block>, s: seq<Block>)
    ensures p + (q + (r + s)) == p + (q + r) + s
    ensures [] + s == s && q + [] == q
  {
  }
}
