/**
 All the heaps of libc/stdlib_memory.c together, and what they promise to callers
 of `malloc`: the contract that AlignedAlloc asks of its environment.
 */
module HeapSystem {
  import opened Bits
  import opened ByteMemory
  import opened Alignment
  import opened AlignedAlloc
  import opened HeapChain
  import opened HeapMemory

  const MAX_HEAPS: nat := 16

  /** `DEFAULT_HEAP_SIZE` */
  const HEAP_SIZE: nat := 8 * 1024 * 1024

  /** The kernel's target, with its own `malloc`: the padding that ends a control block is slack. */
  const KERNEL := Target(2, 3)

  /** The same machine with the `malloc` that the header assumes: all pointers are word-aligned. */
  const HEADER := Target(2, 0)

  datatype Heap = Heap(memory: nat, size: nat)

  /** The blocks of heap `id` fill it from end to end, and those in use are not empty. */
  ghost predicate GoodHeap(m: Memory, d: Heap, id: nat, bs: seq<Block>) {
    && 0 < d.memory && d.memory + d.size < LIMIT && d.size == Span(bs)
    && NoneEmpty(bs) && Laid(m, d.memory, id, bs)
  }

  ghost predicate HeapsApart(heaps: seq<Heap>) {
    forall i, j :: 0 <= i < |heaps| && 0 <= j < |heaps| && i != j ==> Clear(heaps[i], heaps[j])
  }

  ghost predicate Clear(d: Heap, e: Heap) {
    d.memory + d.size <= e.memory || e.memory + e.size <= d.memory
  }

  /** Some heap has a block in use with its `n` bytes at `p`. */
  ghost predicate InUse(heaps: seq<Heap>, blocks: seq<seq<Block>>, p: nat, n: nat) {
    exists i :: InUseIn(heaps, blocks, i, p, n)
  }

  ghost predicate InUseIn(heaps: seq<Heap>, blocks: seq<seq<Block>>, i: int, p: nat, n: nat) {
    0 <= i < |heaps| && i < |blocks| && LiveIn(heaps[i].memory, blocks[i], p, n)
  }

  /** Every heap is in order, and `live` lists exactly the blocks in use. */
  ghost predicate Sound(m: Memory, heaps: seq<Heap>, blocks: seq<seq<Block>>, live: map<nat, nat>) {
    && |blocks| == |heaps| <= MAX_HEAPS && HeapsApart(heaps)
    && (forall i :: 0 <= i < |heaps| ==> GoodHeap(m, heaps[i], i, blocks[i]))
    && (forall p: nat, n: nat :: InUse(heaps, blocks, p, n) <==> p in live && live[p] == n)
  }

  lemma LiveHeap(m: Memory, heaps: seq<Heap>, blocks: seq<seq<Block>>, live: map<nat, nat>, p: nat) returns (i: nat)
    requires Sound(m, heaps, blocks, live) && p in live
    ensures InUseIn(heaps, blocks, i, p, live[p])
    ensures heaps[i].memory + MCB <= p && p + live[p] <= heaps[i].memory + heaps[i].size
  {
    assert InUse(heaps, blocks, p, live[p]);
    i :| InUseIn(heaps, blocks, i, p, live[p]);
    assert GoodHeap(m, heaps[i], i, blocks[i]);
    LiveBounds(heaps[i].memory, blocks[i], p, live[p]);
  }

  lemma KernelLimit()
    ensures KERNEL.Limit() == LIMIT && KERNEL.Ptr() == 4
  {
    assert Pow2(2) == 4;
    Pow32();
  }

  /** The live blocks, each with its slack, are inside the address space and pairwise disjoint. */
  lemma SoundBlocks(m: Memory, heaps: seq<Heap>, blocks: seq<seq<Block>>, live: map<nat, nat>)
    requires Sound(m, heaps, blocks, live)
    ensures GoodBlocks(KERNEL, live)
  {
    KernelLimit();
    forall p | p in live
      ensures KERNEL.slack < p && p + live[p] <= KERNEL.Limit()
    {
      var i := LiveHeap(m, heaps, blocks, live, p);
      assert GoodHeap(m, heaps[i], i, blocks[i]);
    }
    forall p, q | p in live && q in live && p != q
      ensures Apart(KERNEL, p, live[p], q, live[q])
    {
      LivePair(m, heaps, blocks, live, p, q);
    }
  }

  lemma LivePair(m: Memory, heaps: seq<Heap>, blocks: seq<seq<Block>>, live: map<nat, nat>, p: nat, q: nat)
    requires Sound(m, heaps, blocks, live) && p in live && q in live && p != q
    ensures Apart(KERNEL, p, live[p], q, live[q])
  {
    var i := LiveHeap(m, heaps, blocks, live, p);
    var j := LiveHeap(m, heaps, blocks, live, q);
    if i == j {
      LiveApart(heaps[i].memory, blocks[i], p, live[p], q, live[q]);
    } else {
      assert Clear(heaps[i], heaps[j]);
    }
  }

  // ------------------------------------------------------ one heap's change

  /** One heap gets new blocks, all writes being inside it. */
  lemma OthersKept(m: Memory, m': Memory, heaps: seq<Heap>, blocks: seq<seq<Block>>, i: nat, bs: seq<Block>, j: nat)
    requires |blocks| == |heaps| && HeapsApart(heaps) && i < |heaps| && j < |heaps|
    requires GoodHeap(m, heaps[j], j, blocks[j]) && GoodHeap(m', heaps[i], i, bs)
    requires OnlyWithin(m, m', heaps[i].memory, heaps[i].memory + heaps[i].size)
    ensures GoodHeap(m', heaps[j], j, blocks[i := bs][j])
  {
    if j != i {
      assert Clear(heaps[i], heaps[j]);
      KeptLaid(m, m', heaps[j].memory, j, blocks[j]);
    }
  }

  /** The blocks in use once heap `i` has blocks `bs`: those of the other heaps, and those of `bs`. */
  lemma InUseAfter(heaps: seq<Heap>, blocks: seq<seq<Block>>, i: nat, bs: seq<Block>, p: nat, n: nat)
    requires |blocks| == |heaps| && i < |heaps|
    ensures InUse(heaps, blocks[i := bs], p, n) <==>
            LiveIn(heaps[i].memory, bs, p, n) || (exists j :: j != i && InUseIn(heaps, blocks, j, p, n))
  {
    var after := blocks[i := bs];
    if LiveIn(heaps[i].memory, bs, p, n) { assert InUseIn(heaps, after, i, p, n); }
    if j :| j != i && InUseIn(heaps, blocks, j, p, n) { assert InUseIn(heaps, after, j, p, n); }
    if j :| InUseIn(heaps, after, j, p, n) {
      if j != i { assert InUseIn(heaps, blocks, j, p, n); }
    }
  }

  /** An address in one heap is not in use in another. */
  lemma NotElsewhere(m: Memory, heaps: seq<Heap>, blocks: seq<seq<Block>>, live: map<nat, nat>, i: nat, j: int, p: nat, n: nat)
    requires Sound(m, heaps, blocks, live) && i < |heaps| && j != i && InUseIn(heaps, blocks, j, p, n)
    ensures !(heaps[i].memory + MCB <= p <= heaps[i].memory + heaps[i].size)
  {
    assert GoodHeap(m, heaps[j], j, blocks[j]);
    LiveBounds(heaps[j].memory, blocks[j], p, n);
    assert Clear(heaps[i], heaps[j]);
  }

  /** A block comes into use in heap `i`. */
  lemma AddSound(m: Memory, m': Memory, heaps: seq<Heap>, blocks: seq<seq<Block>>, live: map<nat, nat>,
                 i: nat, bs: seq<Block>, p0: nat, n0: nat)
    requires Sound(m, heaps, blocks, live) && i < |heaps| && GoodHeap(m', heaps[i], i, bs)
    requires OnlyWithin(m, m', heaps[i].memory, heaps[i].memory + heaps[i].size)
    requires Adds(heaps[i].memory, blocks[i], bs, p0, n0)
    ensures Sound(m', heaps, blocks[i := bs], live[p0 := n0]) && p0 !in live
  {
    forall j | 0 <= j < |heaps|
      ensures GoodHeap(m', heaps[j], j, blocks[i := bs][j])
    {
      OthersKept(m, m', heaps, blocks, i, bs, j);
    }
    assert LiveIn(heaps[i].memory, bs, p0, n0);
    LiveBounds(heaps[i].memory, bs, p0, n0);
    if p0 in live {
      var j := LiveHeap(m, heaps, blocks, live, p0);
      assert j != i;
      NotElsewhere(m, heaps, blocks, live, i, j, p0, live[p0]);
    }
    var blocks', live' := blocks[i := bs], live[p0 := n0];
    forall p: nat, n: nat
      ensures InUse(heaps, blocks', p, n) <==> p in live' && live'[p] == n
    {
      InUseAfter(heaps, blocks, i, bs, p, n);
      InUseAfter(heaps, blocks, i, blocks[i], p, n);
      assert blocks[i := blocks[i]] == blocks;
      assert InUse(heaps, blocks, p, n) <==> p in live && live[p] == n;
    }
  }

  /** A block of heap `i` goes out of use. */
  lemma RemoveSound(m: Memory, m': Memory, heaps: seq<Heap>, blocks: seq<seq<Block>>, live: map<nat, nat>,
                    i: nat, bs: seq<Block>, p0: nat)
    requires Sound(m, heaps, blocks, live) && i < |heaps| && GoodHeap(m', heaps[i], i, bs)
    requires OnlyWithin(m, m', heaps[i].memory, heaps[i].memory + heaps[i].size)
    requires p0 in live && LiveIn(heaps[i].memory, blocks[i], p0, live[p0])
    requires Removes(heaps[i].memory, blocks[i], bs, p0)
    ensures Sound(m', heaps, blocks[i := bs], live - {p0})
  {
    forall j | 0 <= j < |heaps|
      ensures GoodHeap(m', heaps[j], j, blocks[i := bs][j])
    {
      OthersKept(m, m', heaps, blocks, i, bs, j);
    }
    assert GoodHeap(m, heaps[i], i, blocks[i]);
    LiveBounds(heaps[i].memory, blocks[i], p0, live[p0]);
    var blocks', live' := blocks[i := bs], live - {p0};
    forall p: nat, n: nat
      ensures InUse(heaps, blocks', p, n) <==> p in live' && live'[p] == n
    {
      InUseAfter(heaps, blocks, i, bs, p, n);
      InUseAfter(heaps, blocks, i, blocks[i], p, n);
      assert blocks[i := blocks[i]] == blocks;
      assert InUse(heaps, blocks, p, n) <==> p in live && live[p] == n;
      forall j | j != i && InUseIn(heaps, blocks, j, p0, n)
        ensures false
      {
        NotElsewhere(m, heaps, blocks, live, i, j, p0, n);
      }
    }
  }

  // ------------------------------------------------------ what callers see

  /**
   Writes inside one block of heap `i`, its control block included, disturb no other
   live block, nor the slack below it.
   */
  lemma TouchKeeps(m: Memory, m': Memory, heaps: seq<Heap>, blocks: seq<seq<Block>>, live: map<nat, nat>, i: nat,
                   pre: seq<Block>, b: Block, post: seq<Block>, kept: map<nat, nat>)
    requires Sound(m, heaps, blocks, live) && i < |heaps| && blocks[i] == pre + ([b] + post)
    requires var h := heaps[i].memory + Span(pre); OnlyWithin(m, m', h, h + MCB + b.size)
    requires forall q :: q in kept ==> q in live && kept[q] == live[q] && (b.free || q != heaps[i].memory + Span(pre) + MCB)
    ensures Keeps(KERNEL, m, m', kept)
  {
    forall q | q in kept
      ensures Same(m, m', q - KERNEL.slack, q + kept[q])
    {
      TouchKeepsOne(m, m', heaps, blocks, live, i, pre, b, post, q);
    }
  }

  lemma TouchKeepsOne(m: Memory, m': Memory, heaps: seq<Heap>, blocks: seq<seq<Block>>, live: map<nat, nat>, i: nat,
                      pre: seq<Block>, b: Block, post: seq<Block>, q: nat)
    requires Sound(m, heaps, blocks, live) && i < |heaps| && blocks[i] == pre + ([b] + post)
    requires var h := heaps[i].memory + Span(pre); OnlyWithin(m, m', h, h + MCB + b.size)
    requires q in live && (b.free || q != heaps[i].memory + Span(pre) + MCB)
    ensures Same(m, m', q - 3, q + live[q])
  {
    var a, n := heaps[i].memory, live[q];
    var h := a + Span(pre);
    var j := LiveHeap(m, heaps, blocks, live, q);
    PartsSpan(pre, b, post);
    assert GoodHeap(m, heaps[i], i, blocks[i]);
    if j == i {
      LivePlace(a, pre, b, post, q, n);
    } else {
      assert Clear(heaps[i], heaps[j]);
    }
  }

  lemma PartsSpan(pre: seq<Block>, b: Block, post: seq<Block>)
    ensures Span(pre + ([b] + post)) == Span(pre) + MCB + b.size + Span(post)
  {
    SpanApp(pre, [b] + post);
    SpanApp([b], post);
    SpanOne(b);
  }

  /** A block in use is before `b`, is `b`, or is after it. */
  lemma LivePlace(a: nat, pre: seq<Block>, b: Block, post: seq<Block>, q: nat, n: nat)
    requires LiveIn(a, pre + ([b] + post), q, n)
    ensures var h := a + Span(pre);
            || (a + MCB <= q && q + n <= h)
            || (!b.free && q == h + MCB && n == b.size)
            || h + MCB + b.size + MCB <= q
  {
    var h := a + Span(pre);
    LiveApp(a, pre, [b] + post, q, n);
    if LiveIn(a, pre, q, n) {
      LiveBounds(a, pre, q, n);
    } else {
      var rest := [b] + post;
      assert rest[1..] == post;
      if LiveIn(h + MCB + b.size, post, q, n) { LiveBounds(h + MCB + b.size, post, q, n); }
    }
  }

  /** Writes into a live block, or into the slack below it, leave every control block in place. */
  lemma ClientWriteSound(m: Memory, m': Memory, heaps: seq<Heap>, blocks: seq<seq<Block>>, live: map<nat, nat>, p: nat)
    requires Sound(m, heaps, blocks, live) && p in live && OnlyWithin(m, m', p - KERNEL.slack, p + live[p])
    ensures Sound(m', heaps, blocks, live)
  {
    var i := LiveHeap(m, heaps, blocks, live, p);
    var d := heaps[i];
    assert GoodHeap(m, d, i, blocks[i]);
    var pre, b, post := FindLive(d.memory, blocks[i], p, live[p]);
    PartsSpan(pre, b, post);
    assert OnlyWithin(m, m', d.memory + Span(pre) + FIELDS, d.memory + Span(pre) + MCB + b.size);
    PayloadWriteLaid(m, m', d.memory, i, pre, b, post);
    assert GoodHeap(m', d, i, blocks[i]);
    assert blocks[i := blocks[i]] == blocks;
    forall j | 0 <= j < |heaps|
      ensures GoodHeap(m', heaps[j], j, blocks[j])
    {
      OthersKept(m, m', heaps, blocks, i, blocks[i], j);
    }
  }

  /** Heaps that already exist are untouched by the mapping of a new one. */
  ghost predicate NewRegion(m: Memory, after: Memory, heaps: seq<Heap>, base: nat) {
    && 0 < base && base + HEAP_SIZE < LIMIT
    && (forall i :: 0 <= i < |heaps| ==>
          Clear(heaps[i], Heap(base, HEAP_SIZE)) && Same(m, after, heaps[i].memory, heaps[i].memory + heaps[i].size))
  }

  /** A new heap: one free block that fills it. */
  lemma CreateSound(m: Memory, after: Memory, m': Memory, heaps: seq<Heap>, blocks: seq<seq<Block>>, live: map<nat, nat>, base: nat)
    requires Sound(m, heaps, blocks, live) && |heaps| < MAX_HEAPS && NewRegion(m, after, heaps, base)
    requires Header(m', base, |heaps|, Block(HEAP_SIZE - MCB, true)) && OnlyWithin(after, m', base, base + FIELDS)
    ensures Sound(m', heaps + [Heap(base, HEAP_SIZE)], blocks + [[Block(HEAP_SIZE - MCB, true)]], live)
    ensures Keeps(KERNEL, m, m', live)
  {
    var d, bs := Heap(base, HEAP_SIZE), [Block(HEAP_SIZE - MCB, true)];
    var heaps', blocks' := heaps + [d], blocks + [bs];
    LaidOne(m', base, |heaps|, bs[0]);
    SpanOne(bs[0]);
    assert GoodHeap(m', d, |heaps|, bs);
    forall j | 0 <= j < |heaps|
      ensures Same(m, m', heaps[j].memory, heaps[j].memory + heaps[j].size) && GoodHeap(m', heaps[j], j, blocks[j])
    {
      assert Clear(heaps[j], d) && GoodHeap(m, heaps[j], j, blocks[j]);
      KeptLaid(m, m', heaps[j].memory, j, blocks[j]);
    }
    forall p: nat, n: nat
      ensures InUse(heaps', blocks', p, n) <==> p in live && live[p] == n
    {
      CreateInUse(heaps, blocks, d, bs, p, n);
    }
    forall p | p in live
      ensures Same(m, m', p - KERNEL.slack, p + live[p])
    {
      var j := LiveHeap(m, heaps, blocks, live, p);
    }
  }

  lemma CreateInUse(heaps: seq<Heap>, blocks: seq<seq<Block>>, d: Heap, bs: seq<Block>, p: nat, n: nat)
    requires |blocks| == |heaps| && |bs| == 1 && bs[0].free
    ensures InUse(heaps + [d], blocks + [bs], p, n) <==> InUse(heaps, blocks, p, n)
  {
    var heaps', blocks' := heaps + [d], blocks + [bs];
    if i :| InUseIn(heaps, blocks, i, p, n) { assert InUseIn(heaps', blocks', i, p, n); }
    if i :| InUseIn(heaps', blocks', i, p, n) {
      assert !LiveIn(d.memory + MCB + bs[0].size, bs[1..], p, n);
      assert i < |heaps|;
      assert InUseIn(heaps, blocks, i, p, n);
    }
  }

  /** The same, for the first block that passes the test of the search. */
  lemma CutFirst(m: Memory, m': Memory, heaps: seq<Heap>, blocks: seq<seq<Block>>, live: map<nat, nat>, i: nat,
                 pre: seq<Block>, b: Block, post: seq<Block>, n: nat, h: nat, p: nat) returns (bs': seq<Block>)
    requires Sound(m, heaps, blocks, live) && i < |heaps| && blocks[i] == pre + ([b] + post)
    requires 0 < n && n + MCB < LIMIT && NonePasses(pre, n) && Passes(b, n)
    requires h == heaps[i].memory + Span(pre) && p == h + MCB
    requires Header(m', h, i, Block(n, false)) && Header(m', h + MCB + n, i, Block(b.size - n - MCB, true))
    requires OnlyWithin(m, m', h, h + MCB + b.size)
    ensures Alloc(blocks[i], n) == Carved(bs', p - heaps[i].memory)
    ensures Sound(m', heaps, blocks[i := bs'], live[p := n]) && p !in live && Keeps(KERNEL, m, m', live)
  {
    FirstIsCut(pre, b, post, n);
    bs' := pre + (Halves(b, n) + post);
    SplitDone(m, m', heaps, blocks, live, i, pre, b, post, n, h, p, bs');
  }

  /** What is left behind when the sum of the search's test wraps: a size field that claims bytes beyond the last address. */
  ghost predicate Oversized(m: Memory, n: nat, ptr: nat, i: nat) {
    && MCB < ptr && LIMIT < ptr + n && Load(m, ptr - 12, 4) == n
    && (n == LIMIT - MCB ==> Header(m, ptr - MCB, i, Block(n, false)))
  }

  /** For the least such size, every later search that comes to the block stays there for ever. */
  lemma OversizedStuck(m: Memory, ptr: nat, i: nat, k: nat)
    requires Oversized(m, LIMIT - MCB, ptr, i) && ptr < LIMIT && i < LIMIT
    ensures Load(m, ptr - MCB + 4, 4) == MAGIC && m(ptr - MCB + 16) == 0
    ensures Turns(m, ptr - MCB, k) == ptr - MCB
  {
    SearchStuck(m, ptr - MCB, i, k);
  }

  /** No such answer keeps the contract of `malloc`. */
  lemma OversizedIsNoReply(m: Memory, live: map<nat, nat>, n: nat, ptr: nat, i: nat)
    requires Oversized(m, n, ptr, i)
    ensures !MayReply(KERNEL, live, n, ptr)
  {
    KernelLimit();
    assert ptr in live[ptr := n];
  }

  // ----------------------------------------------------- which heap is used

  /** The search of every heap fails. */
  ghost predicate AllRefuse(blocks: seq<seq<Block>>, n: nat)
    requires n < LIMIT
  {
    forall j :: 0 <= j < |blocks| ==> NonePasses(blocks[j], n)
  }

  /** `malloc` adds a heap. */
  ghost predicate Grows(blocks: seq<seq<Block>>, n: nat, base: nat)
    requires n < LIMIT
  {
    n > 0 && AllRefuse(blocks, n) && |blocks| < MAX_HEAPS - 1 && base != 0
  }

  /** The heaps, with the one that is added. */
  ghost function Available(blocks: seq<seq<Block>>, n: nat, base: nat): seq<seq<Block>>
    requires n < LIMIT
  {
    if Grows(blocks, n, base) then blocks + [[Block(HEAP_SIZE - MCB, true)]] else blocks
  }

  /** `ptr` is the first block that fits, in the first heap whose search succeeds. */
  ghost predicate Served(blocks: seq<seq<Block>>, blocks': seq<seq<Block>>, heaps: seq<Heap>, n: nat, ptr: nat, i: nat)
    requires n < LIMIT
  {
    && i < |blocks| == |heaps| && AllRefuse(blocks[..i], n) && Alloc(blocks[i], n).Carved?
    && ptr == heaps[i].memory + Alloc(blocks[i], n).off && blocks' == blocks[i := Alloc(blocks[i], n).blocks]
  }

  /** `ptr` is above the first block that passes the test, in the first heap that has one. */
  ghost predicate Chosen(blocks: seq<seq<Block>>, heaps: seq<Heap>, n: nat, ptr: nat, i: nat)
    requires n < LIMIT
  {
    && i < |blocks| == |heaps| && AllRefuse(blocks[..i], n) && !NonePasses(blocks[i], n)
    && ptr == heaps[i].memory + PassAt(blocks[i], n)
  }

  /** `malloc` answers null: for size 0, or when every search fails, in a heap just added too. */
  ghost predicate Exhausted(blocks: seq<seq<Block>>, n: nat, base: nat)
    requires n < LIMIT
  {
    n == 0 || AllRefuse(Available(blocks, n, base), n)
  }

  /** What `malloc (n)` makes of the heaps, and what it answers, from heap `i`. */
  ghost predicate MallocDone(blocks: seq<seq<Block>>, heaps: seq<Heap>, blocks': seq<seq<Block>>, heaps': seq<Heap>,
                             n: nat, base: nat, ptr: nat, i: nat)
    requires n < LIMIT
  {
    var available := Available(blocks, n, base);
    && heaps' == (if Grows(blocks, n, base) then heaps + [Heap(base, HEAP_SIZE)] else heaps)
    && (ptr == 0 <==> Exhausted(blocks, n, base))
    && (ptr == 0 ==> blocks' == available)
    && (ptr != 0 ==> Chosen(available, heaps', n, ptr, i))
    && (ptr != 0 && n + MCB < LIMIT ==> Served(available, blocks', heaps', n, ptr, i))
    && (ptr != 0 && n + MCB >= LIMIT ==> blocks' == available)
  }

  /** The first heap whose search succeeds. */
  ghost function FirstHeap(blocks: seq<seq<Block>>, n: nat): (i: nat)
    requires n < LIMIT && !AllRefuse(blocks, n)
    ensures i < |blocks| && !NonePasses(blocks[i], n) && AllRefuse(blocks[..i], n)
    ensures forall k :: 0 <= k < i ==> NonePasses(blocks[k], n)
  {
    RestRefuses(blocks, n);
    if !NonePasses(blocks[0], n) then 0 else 1 + FirstHeap(blocks[1..], n)
  }

  lemma RestRefuses(blocks: seq<seq<Block>>, n: nat)
    requires n < LIMIT && blocks != []
    ensures AllRefuse(blocks, n) <==> NonePasses(blocks[0], n) && AllRefuse(blocks[1..], n)
  {
    if NonePasses(blocks[0], n) && AllRefuse(blocks[1..], n) {
      forall j | 0 <= j < |blocks|
        ensures NonePasses(blocks[j], n)
      {
        assert j > 0 ==> blocks[j] == blocks[1..][j - 1];
      }
    }
  }

  datatype Reply = Reply(ptr: nat, heaps: seq<Heap>, blocks: seq<seq<Block>>)

  /** The answer of libc's `malloc`, and the heaps afterwards: the same as a function. */
  ghost function MallocReply(heaps: seq<Heap>, blocks: seq<seq<Block>>, n: nat, base: nat): Reply
    requires n < LIMIT && |heaps| == |blocks|
  {
    var heaps' := if Grows(blocks, n, base) then heaps + [Heap(base, HEAP_SIZE)] else heaps;
    var available := Available(blocks, n, base);
    if Exhausted(blocks, n, base) then Reply(0, heaps', available)
    else
      var i := FirstHeap(available, n);
      var taken := Alloc(available[i], n);
      Reply(heaps'[i].memory + PassAt(available[i], n), heaps',
            if n + MCB < LIMIT && taken.Carved? then available[i := taken.blocks] else available)
  }

  /** The reply to every call, as a value that proofs about other things need not look into. */
  type Replies = (seq<Heap>, seq<seq<Block>>, nat, nat) -> Reply

  ghost predicate AreReplies(f: Replies) {
    forall heaps: seq<Heap>, blocks: seq<seq<Block>>, n: nat, base: nat {:trigger MallocReply(heaps, blocks, n, base)} ::
      n < LIMIT && |heaps| == |blocks| ==> f(heaps, blocks, n, base) == MallocReply(heaps, blocks, n, base)
  }

  lemma TheReplies() returns (f: Replies)
    ensures AreReplies(f)
  {
    f := (heaps: seq<Heap>, blocks: seq<seq<Block>>, n: nat, base: nat) =>
      if n < LIMIT && |heaps| == |blocks| then MallocReply(heaps, blocks, n, base) else Reply(0, heaps, blocks);
  }

  /** What a call does determines its reply, and the reply is what a call does. */
  lemma MallocDoneIsReply(blocks: seq<seq<Block>>, heaps: seq<Heap>, blocks': seq<seq<Block>>, heaps': seq<Heap>,
                          n: nat, base: nat, ptr: nat, i: nat)
    requires n < LIMIT && |heaps| == |blocks| && MallocDone(blocks, heaps, blocks', heaps', n, base, ptr, i)
    ensures Reply(ptr, heaps', blocks') == MallocReply(heaps, blocks, n, base)
  {
    if ptr != 0 { FirstHeapIs(Available(blocks, n, base), n, i); }
  }

  lemma FirstHeapIs(blocks: seq<seq<Block>>, n: nat, i: nat)
    requires n < LIMIT && i < |blocks| && AllRefuse(blocks[..i], n) && !NonePasses(blocks[i], n)
    ensures !AllRefuse(blocks, n) && FirstHeap(blocks, n) == i
  {
    forall k | 0 <= k < i
      ensures NonePasses(blocks[k], n)
    {
      assert blocks[..i][k] == blocks[k];
    }
  }

  /** Unless the sum wraps, the block replied with is served: split, and its bytes handed out. */
  lemma ReplyServed(heaps: seq<Heap>, blocks: seq<seq<Block>>, n: nat, base: nat)
    requires n + MCB < LIMIT && |heaps| == |blocks| && !Exhausted(blocks, n, base)
    ensures var r, available := MallocReply(heaps, blocks, n, base), Available(blocks, n, base);
            Served(available, r.blocks, r.heaps, n, r.ptr, FirstHeap(available, n))
  {
    var available := Available(blocks, n, base);
    AllocAtPass(available[FirstHeap(available, n)], n);
  }

  /** What `free (ptr)` makes of the heaps: in heap `i`, the block is released and takes in the free ones behind it. */
  ghost predicate FreeDoneIn(blocks: seq<seq<Block>>, blocks': seq<seq<Block>>, heaps: seq<Heap>, ptr: nat, i: nat) {
    && i < |heaps| == |blocks| && heaps[i].memory <= ptr < heaps[i].memory + heaps[i].size
    && blocks' == blocks[i := Release(blocks[i], ptr - heaps[i].memory)]
  }

  /** The first request is answered if it is not empty, a heap is mapped, and it fits in 8 MB or its sum wraps. */
  lemma FirstRequest(n: nat, base: nat)
    requires n < LIMIT
    ensures Exhausted([], n, base) <==> n == 0 || base == 0 || 8388568 < n < 0xFFFF_FFEC
  {
    if n > 0 && base != 0 {
      var whole := [Block(HEAP_SIZE - MCB, true)];
      assert Grows([], n, base) && Available([], n, base) == [whole];
      assert NonePasses(whole, n) <==> !Passes(whole[0], n) by { assert whole[1..] == []; }
      assert AllRefuse([whole], n) ==> NonePasses([whole][0], n);
    }
  }

  /** `malloc` may add up to 15 heaps, and no more. */
  lemma FifteenHeaps(blocks: seq<seq<Block>>, n: nat, base: nat)
    requires n < LIMIT
    ensures Grows(blocks, n, base) ==> |blocks| < 15 && |Available(blocks, n, base)| == |blocks| + 1
    ensures n > 0 && base != 0 && AllRefuse(blocks, n) && |blocks| < 15 ==> Grows(blocks, n, base)
  {
  }

  // ------------------------------------------------------- aligned pointers

  ghost predicate AllAligned(heaps: seq<Heap>, blocks: seq<seq<Block>>) {
    |blocks| == |heaps| && forall i :: 0 <= i < |heaps| ==> PointersAligned(heaps[i].memory, blocks[i])
  }

  /** While all pointers are aligned the answer is; they stay so if and only if the request is for whole words. */
  lemma ServedAlignedIff(blocks: seq<seq<Block>>, blocks': seq<seq<Block>>, heaps: seq<Heap>, n: nat, ptr: nat, i: nat)
    requires n < LIMIT && AllAligned(heaps, blocks) && Served(blocks, blocks', heaps, n, ptr, i)
    ensures ptr % 4 == 0 && (AllAligned(heaps, blocks') <==> n % 4 == 0)
  {
    AllocAligned(heaps[i].memory, blocks[i], n);
    AllocKeepsAlignmentIff(heaps[i].memory, blocks[i], n);
    assert AllAligned(heaps, blocks') <==> PointersAligned(heaps[i].memory, blocks'[i]);
  }

  lemma ReleasedAligned(blocks: seq<seq<Block>>, heaps: seq<Heap>, i: nat, off: nat)
    requires i < |heaps| == |blocks|
    ensures AllAligned(heaps, blocks) ==> AllAligned(heaps, blocks[i := Release(blocks[i], off)])
  {
    if AllAligned(heaps, blocks) { ReleaseKeepsAlignment(heaps[i].memory, blocks[i], off); }
  }

  lemma GrownAligned(heaps: seq<Heap>, blocks: seq<seq<Block>>, base: nat)
    requires AllAligned(heaps, blocks) && base % 4 == 0
    ensures AllAligned(heaps + [Heap(base, HEAP_SIZE)], blocks + [[Block(HEAP_SIZE - MCB, true)]])
  {
    assert PointersAligned(base, [Block(HEAP_SIZE - MCB, true)]) by {
      assert [Block(HEAP_SIZE - MCB, true)][1..] == [];
    }
  }

  // ------------------------------------------------------- the two operations

  /** The control block that follows `pre`, and where its block ends. */
  lemma BlockAt(m: Memory, d: Heap, id: nat, bs: seq<Block>, pre: seq<Block>, b: Block, post: seq<Block>)
    requires GoodHeap(m, d, id, bs) && bs == pre + ([b] + post)
    ensures Header(m, d.memory + Span(pre), id, b) && (b.free || b.size > 0)
    ensures d.memory + Span(pre) + MCB + b.size + Span(post) == d.memory + d.size < LIMIT
  {
    PartsSpan(pre, b, post);
    HeaderAt(m, d.memory, id, pre, b, post);
    NoneEmptyParts(pre, b, post);
  }

  /** After the writes of an allocation in heap `i`, whose blocks are then `bs'`. */
  lemma SplitDone(m: Memory, m': Memory, heaps: seq<Heap>, blocks: seq<seq<Block>>, live: map<nat, nat>, i: nat,
                  pre: seq<Block>, b: Block, post: seq<Block>, n: nat, h: nat, p: nat, bs': seq<Block>)
    requires Sound(m, heaps, blocks, live) && i < |heaps| && blocks[i] == pre + ([b] + post) && Fits(b, n) && n > 0
    requires h == heaps[i].memory + Span(pre) && p == h + MCB && bs' == pre + (Halves(b, n) + post)
    requires Alloc(blocks[i], n) == Carved(bs', Span(pre) + MCB)
    requires Header(m', h, i, Block(n, false)) && Header(m', h + MCB + n, i, Block(b.size - n - MCB, true))
    requires OnlyWithin(m, m', h, h + MCB + b.size)
    ensures Sound(m', heaps, blocks[i := bs'], live[p := n]) && p !in live && Keeps(KERNEL, m, m', live)
  {
    var d := heaps[i];
    assert GoodHeap(m, d, i, blocks[i]);
    CarveInHeap(m, m', d, i, blocks[i], h, pre, b, post, n, p, bs');
    AddSound(m, m', heaps, blocks, live, i, bs', p, n);
    TouchKeeps(m, m', heaps, blocks, live, i, pre, b, post, live);
  }

  /** What they mean for that heap. */
  lemma CarveInHeap(m: Memory, m': Memory, d: Heap, i: nat, bs: seq<Block>, h: nat, pre: seq<Block>, b: Block,
                    post: seq<Block>, n: nat, p: nat, bs': seq<Block>)
    requires GoodHeap(m, d, i, bs) && bs == pre + ([b] + post) && Fits(b, n) && n > 0
    requires h == d.memory + Span(pre) && p == h + MCB && bs' == pre + (Halves(b, n) + post)
    requires Alloc(bs, n) == Carved(bs', Span(pre) + MCB)
    requires Header(m', h, i, Block(n, false)) && Header(m', h + MCB + n, i, Block(b.size - n - MCB, true))
    requires OnlyWithin(m, m', h, h + MCB + b.size)
    ensures GoodHeap(m', d, i, bs') && OnlyWithin(m, m', d.memory, d.memory + d.size)
    ensures Adds(d.memory, bs, bs', p, n)
  {
    PartsSpan(pre, b, post);
    CarveLaid(m, m', d.memory, i, pre, b, post, n);
    AllocSpan(bs, n);
    CarveNotEmpty(pre, b, post, n);
    AllocAdds(d.memory, bs, n);
  }

  lemma CarveNotEmpty(pre: seq<Block>, b: Block, post: seq<Block>, n: nat)
    requires NoneEmpty(pre + ([b] + post)) && Fits(b, n) && n > 0
    ensures NoneEmpty(pre + (Halves(b, n) + post))
  {
    NoneEmptyParts(pre, b, post);
    NoneEmptyApp(pre, Halves(b, n) + post);
    NoneEmptyApp(Halves(b, n), post);
    assert Halves(b, n)[1..][1..] == [];
  }

  /** After the writes of a release in heap `i`, whose blocks are then `bs'`. */
  lemma FreeDone(m: Memory, m': Memory, heaps: seq<Heap>, blocks: seq<seq<Block>>, live: map<nat, nat>, i: nat,
                 h: nat, pre: seq<Block>, b: Block, run: seq<Block>, rest: seq<Block>, p: nat, size: nat, bs': seq<Block>)
    requires Sound(m, heaps, blocks, live) && i < |heaps| && blocks[i] == pre + ([b] + (run + rest)) && !b.free
    requires AllFree(run) && (rest == [] || !rest[0].free)
    requires size == b.size + Span(run) && bs' == pre + ([Block(size, true)] + rest)
    requires h == heaps[i].memory + Span(pre) && p == h + MCB
    requires Header(m', h, i, Block(size, true)) && OnlyWithin(m, m', h, h + FIELDS)
    requires p in live && live[p] == b.size
    ensures Sound(m', heaps, blocks[i := bs'], live - {p}) && Keeps(KERNEL, m, m', live - {p})
  {
    var d := heaps[i];
    assert GoodHeap(m, d, i, blocks[i]);
    ReleaseInHeap(m, m', d, i, blocks[i], h, pre, b, run, rest, p, size, bs');
    RemoveSound(m, m', heaps, blocks, live, i, bs', p);
    FreeKeeps(m, m', heaps, blocks, live, i, h, pre, b, run + rest, p);
  }

  /** What it means for the other live blocks. */
  lemma FreeKeeps(m: Memory, m': Memory, heaps: seq<Heap>, blocks: seq<seq<Block>>, live: map<nat, nat>, i: nat,
                  h: nat, pre: seq<Block>, b: Block, post: seq<Block>, p: nat)
    requires Sound(m, heaps, blocks, live) && i < |heaps| && blocks[i] == pre + ([b] + post)
    requires h == heaps[i].memory + Span(pre) && p == h + MCB && OnlyWithin(m, m', h, h + FIELDS)
    ensures Keeps(KERNEL, m, m', live - {p})
  {
    TouchKeeps(m, m', heaps, blocks, live, i, pre, b, post, live - {p});
  }

  /** What it means for its own heap. */
  lemma ReleaseInHeap(m: Memory, m': Memory, d: Heap, i: nat, bs: seq<Block>, h: nat, pre: seq<Block>, b: Block,
                      run: seq<Block>, rest: seq<Block>, p: nat, size: nat, bs': seq<Block>)
    requires GoodHeap(m, d, i, bs) && bs == pre + ([b] + (run + rest)) && !b.free
    requires AllFree(run) && (rest == [] || !rest[0].free)
    requires size == b.size + Span(run) && bs' == pre + ([Block(size, true)] + rest)
    requires h == d.memory + Span(pre) && p == h + MCB
    requires Header(m', h, i, Block(size, true)) && OnlyWithin(m, m', h, h + FIELDS)
    ensures GoodHeap(m', d, i, bs') && OnlyWithin(m, m', d.memory, d.memory + d.size)
    ensures LiveIn(d.memory, bs, p, b.size) && Removes(d.memory, bs, bs', p)
  {
    ReleaseGood(m, m', d, i, pre, b, run, rest, bs, bs');
    ReleaseFacts(d.memory, bs, pre, b, run, rest, bs', p);
  }

  /** The blocks of heap `i` once `b` has taken in the free blocks `run`. */
  lemma ReleasePlan(heaps: seq<Heap>, blocks: seq<seq<Block>>, i: nat, off: nat, pre: seq<Block>, b: Block,
                    post: seq<Block>, run: seq<Block>, rest: seq<Block>, size: nat) returns (bs': seq<Block>)
    requires i < |heaps| == |blocks| && blocks[i] == pre + ([b] + post) && off == Span(pre) + MCB
    requires post == run + rest && AllFree(run) && (rest == [] || !rest[0].free) && size == b.size + Span(run)
    ensures bs' == pre + ([Block(size, true)] + rest)
    ensures blocks[i] == pre + ([b] + (run + rest)) && bs' == Release(blocks[i], off)
    ensures AllAligned(heaps, blocks) ==> AllAligned(heaps, blocks[i := bs'])
  {
    bs' := pre + ([Block(b.size + Span(run), true)] + rest);
    ReleaseHere(pre, b, run, rest);
    ReleasedAligned(blocks, heaps, i, off);
  }

  lemma ReleaseFacts(a: nat, bs: seq<Block>, pre: seq<Block>, b: Block, run: seq<Block>, post: seq<Block>,
                     bs': seq<Block>, p: nat)
    requires bs == pre + ([b] + (run + post)) && bs' == pre + ([Block(b.size + Span(run), true)] + post)
    requires !b.free && AllFree(run) && (post == [] || !post[0].free) && p == a + Span(pre) + MCB
    ensures LiveIn(a, bs, p, b.size) && Removes(a, bs, bs', p)
  {
    ReleaseHere(pre, b, run, post);
    LiveMiddle(a, pre, b, run + post);
    ReleaseRemoves(a, bs, Span(pre) + MCB, b.size);
  }

  lemma ReleaseGood(m: Memory, m': Memory, d: Heap, i: nat, pre: seq<Block>, b: Block, run: seq<Block>, post: seq<Block>,
                    bs: seq<Block>, bs': seq<Block>)
    requires GoodHeap(m, d, i, bs) && bs == pre + ([b] + (run + post))
    requires bs' == pre + ([Block(b.size + Span(run), true)] + post)
    requires Header(m', d.memory + Span(pre), i, Block(b.size + Span(run), true))
    requires var h := d.memory + Span(pre); OnlyWithin(m, m', h, h + FIELDS)
    ensures GoodHeap(m', d, i, bs')
    ensures var h := d.memory + Span(pre); d.memory <= h && h + MCB + b.size <= d.memory + d.size
  {
    assert Span(bs') == Span(bs) && d.memory + Span(pre) + MCB + b.size <= d.memory + d.size by {
      ReleaseSpans(pre, b, run, post);
    }
    assert NoneEmpty(bs') by { ReleaseNotEmpty(pre, b, run, post); }
    assert Laid(m', d.memory, i, bs') by { ReleaseLaid(m, m', d.memory, i, pre, b, run, post); }
  }

  lemma ReleaseSpans(pre: seq<Block>, b: Block, run: seq<Block>, post: seq<Block>)
    ensures Span(pre + ([Block(b.size + Span(run), true)] + post)) == Span(pre + ([b] + (run + post)))
    ensures Span(pre) + MCB + b.size <= Span(pre + ([b] + (run + post)))
  {
    PartsSpan(pre, b, run + post);
    SpanApp(run, post);
    PartsSpan(pre, Block(b.size + Span(run), true), post);
  }

  lemma ReleaseNotEmpty(pre: seq<Block>, b: Block, run: seq<Block>, post: seq<Block>)
    requires NoneEmpty(pre + ([b] + (run + post)))
    ensures NoneEmpty(pre + ([Block(b.size + Span(run), true)] + post))
  {
    NoneEmptyParts(pre, b, run + post);
    NoneEmptyApp(run, post);
    NoneEmptyParts(pre, Block(b.size + Span(run), true), post);
  }

  lemma LiveMiddle(a: nat, pre: seq<Block>, b: Block, post: seq<Block>)
    requires !b.free
    ensures LiveIn(a, pre + ([b] + post), a + Span(pre) + MCB, b.size)
  {
    LiveApp(a, pre, [b] + post, a + Span(pre) + MCB, b.size);
    assert ([b] + post)[0] == b;
  }

  /** The block after a run of free blocks, as the merging loop meets it. */
  lemma NextBlock(m: Memory, d: Heap, id: nat, bs: seq<Block>, h: nat,
                  pre: seq<Block>, b: Block, run: seq<Block>, rest: seq<Block>)
    requires GoodHeap(m, d, id, bs) && bs == pre + ([b] + (run + rest)) && rest != []
    requires h == d.memory + Span(pre) + MCB + b.size + Span(run)
    ensures Header(m, h, id, rest[0]) && h + MCB + rest[0].size <= d.memory + d.size < LIMIT
  {
    PartsSpan(pre, b, run);
    PassRun(pre, b, run, rest);
    BlockHere(m, d, id, bs, h, pre + ([b] + run), rest[0], rest[1..]);
  }

  lemma BlockHere(m: Memory, d: Heap, id: nat, bs: seq<Block>, h: nat, pre: seq<Block>, b: Block, post: seq<Block>)
    requires GoodHeap(m, d, id, bs) && bs == pre + ([b] + post) && h == d.memory + Span(pre)
    ensures Header(m, h, id, b) && h + MCB + b.size <= d.memory + d.size < LIMIT
  {
    BlockAt(m, d, id, bs, pre, b, post);
  }

  lemma PassRun(pre: seq<Block>, b: Block, run: seq<Block>, rest: seq<Block>)
    requires rest != []
    ensures pre + ([b] + (run + rest)) == (pre + ([b] + run)) + ([rest[0]] + rest[1..])
  {
    assert [rest[0]] + rest[1..] == rest;
    assert [b] + (run + rest) == ([b] + run) + rest;
  }

  lemma SpanEnds(d: Heap, pre: seq<Block>, b: Block, run: seq<Block>, rest: seq<Block>)
    requires d.size == Span(pre + ([b] + (run + rest)))
    requires d.memory + Span(pre) + MCB + b.size + Span(run) == d.memory + d.size
    ensures rest == []
  {
    PartsSpan(pre, b, run + rest);
    SpanApp(run, rest);
  }

  lemma SpanGoesOn(d: Heap, pre: seq<Block>, b: Block, run: seq<Block>, rest: seq<Block>)
    requires d.size == Span(pre + ([b] + (run + rest)))
    requires d.memory + Span(pre) + MCB + b.size + Span(run) != d.memory + d.size
    ensures rest != []
  {
    PartsSpan(pre, b, run + rest);
    SpanApp(run, rest);
  }

  lemma KeepsTrans(m: Memory, m1: Memory, m2: Memory, live: map<nat, nat>)
    requires Keeps(KERNEL, m, m1, live) && Keeps(KERNEL, m1, m2, live)
    ensures Keeps(KERNEL, m, m2, live)
  {
    forall p | p in live
      ensures Same(m, m2, p - KERNEL.slack, p + live[p])
    {
      assert Same(m, m1, p - KERNEL.slack, p + live[p]) && Same(m1, m2, p - KERNEL.slack, p + live[p]);
    }
  }

  /** One turn of the search: the block `b` that is read after `pre`, and that the search goes on behind `pre'`. */
  lemma SearchStep(m: Memory, d: Heap, id: nat, bs: seq<Block>, pre: seq<Block>, rest: seq<Block>, n: nat)
      returns (b: Block, post: seq<Block>, pre': seq<Block>)
    requires GoodHeap(m, d, id, bs) && bs == pre + rest && Span(pre) != d.size && id < LIMIT
    requires n < LIMIT && NonePasses(pre, n)
    ensures var h := d.memory + Span(pre);
            && Header(m, h, id, b) && b.size + MCB < LIMIT && Load(m, h + 4, 4) == MAGIC && Load(m, h + 8, 4) == b.size
            && (m(h + 16) != 0 <==> b.free) && h + MCB + b.size <= d.memory + d.size
    ensures bs == pre + ([b] + post) && bs == pre' + post && |post| < |rest| && Span(pre') == Span(pre) + MCB + b.size
    ensures !Passes(b, n) ==> NonePasses(pre', n)
  {
    assert rest != [] by { SpanApp(pre, rest); }
    TakeNext(pre, rest);
    b, post, pre' := rest[0], rest[1..], pre + [rest[0]];
    assert Header(m, d.memory + Span(pre), id, b) by { BlockAt(m, d, id, bs, pre, b, post); }
    BlockAt(m, d, id, bs, pre, b, post);
    HeaderReads(m, d.memory + Span(pre), id, b);
    NonePassesApp(pre, [b], n);
    assert [b][1..] == [];
  }

  /**
   What a call of `malloc` means for the alignment of all pointers.  While they are aligned,
   the answer is one that the header's `malloc` could give.
   */
  lemma AnswerAlignedIff(live: map<nat, nat>, heaps: seq<Heap>, blocks: seq<seq<Block>>,
                         heaps': seq<Heap>, blocks': seq<seq<Block>>, n: nat, base: nat, ptr: nat, i: nat)
    requires n < LIMIT && base % 4 == 0 && MayReply(KERNEL, live, n, ptr)
    requires heaps' == if Grows(blocks, n, base) then heaps + [Heap(base, HEAP_SIZE)] else heaps
    requires if ptr == 0 then blocks' == Available(blocks, n, base)
             else Served(Available(blocks, n, base), blocks', heaps', n, ptr, i)
    ensures AllAligned(heaps, blocks) ==>
              MayReply(HEADER, live, n, ptr) && (AllAligned(heaps', blocks') <==> ptr == 0 || n % 4 == 0)
  {
    if AllAligned(heaps, blocks) {
      GrownAligned(heaps, blocks, base);
      if ptr != 0 { ServedAlignedIff(Available(blocks, n, base), blocks', heaps', n, ptr, i); }
      AlignedReplyIff(live, n, ptr);
    }
  }

  /** An answer of libc's `malloc` is one that the header's could give if and only if it is word-aligned. */
  lemma AlignedReplyIff(live: map<nat, nat>, n: nat, ptr: nat)
    requires MayReply(KERNEL, live, n, ptr)
    ensures MayReply(HEADER, live, n, ptr) <==> ptr % 4 == 0
  {
    assert HEADER.Ptr() == KERNEL.Ptr() == 4 by { KernelLimit(); }
    if ptr != 0 { LessSlack(live[ptr := n]); }
  }

  lemma LessSlack(blocks: map<nat, nat>)
    requires GoodBlocks(KERNEL, blocks)
    ensures GoodBlocks(HEADER, blocks)
  {
    forall b, c | b in blocks && c in blocks && b != c
      ensures Apart(HEADER, b, blocks[b], c, blocks[c])
    {
      assert Apart(KERNEL, b, blocks[b], c, blocks[c]);
    }
  }

  lemma SearchEnds(d: Heap, bs: seq<Block>, pre: seq<Block>, rest: seq<Block>)
    requires bs == pre + rest && d.size == Span(bs) == Span(pre)
    ensures bs == pre
  {
    SpanApp(pre, rest);
    assert rest == [];
  }

  /** A new heap has a block that passes every test. */
  lemma NewHeapAnswers(blocks: seq<seq<Block>>, n: nat, base: nat)
    requires n < LIMIT && Grows(blocks, n, base)
    ensures n + MCB <= HEAP_SIZE - MCB || n + MCB >= LIMIT ==> !AllRefuse(Available(blocks, n, base), n)
    ensures Available(blocks, n, base)[..|blocks|] == blocks
  {
    var more := Available(blocks, n, base);
    assert more[|blocks|] == [Block(HEAP_SIZE - MCB, true)];
  }

  lemma AnswerKeepsContract(m: Memory, heaps: seq<Heap>, blocks: seq<seq<Block>>, live: map<nat, nat>, was: map<nat, nat>,
                            n: nat, ptr: nat, i: nat)
    ensures Sound(m, heaps, blocks, live) && live == was[ptr := n] && ptr !in was ==> MayReply(KERNEL, was, n, ptr)
    ensures Oversized(m, n, ptr, i) ==> !MayReply(KERNEL, was, n, ptr)
  {
    if Sound(m, heaps, blocks, live) && live == was[ptr := n] && ptr !in was { SoundBlocks(m, heaps, blocks, live); }
    if Oversized(m, n, ptr, i) { OversizedIsNoReply(m, was, n, ptr, i); }
  }

  /** What `free` finds below a pointer that was not obtained from `malloc`, or whose control block was overwritten. */
  predicate NotAllocated(m: Memory, ptr: nat) {
    var mcb := Wrap(ptr - MCB);
    Load(m, mcb + 4, 4) != MAGIC || Load(m, mcb + 8, 4) == 0 || Load(m, mcb, 4) >= MAX_HEAPS
  }

  /** The validation in terms of what memory holds. */
  lemma NotAllocatedIff(m: Memory, ptr: nat)
    requires 20 <= ptr < LIMIT
    ensures NotAllocated(m, ptr) <==>
            Load(m, ptr - 20, 4) >= 16 || Load(m, ptr - 16, 4) != 0x4E58_4D4D || Load(m, ptr - 12, 4) == 0
  {
    WrapIs(ptr - MCB);
  }

  /** Below a live pointer it finds the control block that `malloc` left there. */
  lemma LiveHeader(m: Memory, heaps: seq<Heap>, blocks: seq<seq<Block>>, live: map<nat, nat>, ptr: nat)
      returns (i: nat, pre: seq<Block>, b: Block, post: seq<Block>)
    requires Sound(m, heaps, blocks, live) && ptr in live
    ensures !NotAllocated(m, ptr) && Wrap(ptr - MCB) == ptr - MCB && Load(m, ptr - MCB, 4) == i < |heaps|
    ensures blocks[i] == pre + ([b] + post) && b == Block(live[ptr], false) && b.size < LIMIT
    ensures ptr == heaps[i].memory + Span(pre) + MCB && ptr < heaps[i].memory + heaps[i].size
    ensures Header(m, ptr - MCB, i, b)
  {
    i := LiveHeap(m, heaps, blocks, live, ptr);
    var d := heaps[i];
    pre, b, post := FindLive(d.memory, blocks[i], ptr, live[ptr]);
    BlockAt(m, d, i, blocks[i], pre, b, post);
    HeaderReads(m, ptr - MCB, i, b);
    WrapIs(ptr - MCB);
  }
}
