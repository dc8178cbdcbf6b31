/**
 `malloc` and `free` of libc/stdlib_memory.c, working on control blocks in memory.

 The methods state the contract that AlignedAlloc asks of its environment, so what is
 proved there of `_mm_malloc` and `_mm_free` holds over the kernel's own `malloc`.  They
 cover every size: where the 32-bit sum of the search's test wraps they say what breaks.
 */
module LibcMalloc {
  import opened Bits
  import opened ByteMemory
  import opened AlignedAlloc
  import opened HeapChain
  import opened HeapMemory
  import opened HeapSystem

  class Context {
    var mem: Memory
    var heaps: seq<Heap>
    ghost var blocks: seq<seq<Block>>
    ghost var live: map<nat, nat>

    ghost predicate Valid()
      reads this
    {
      Sound(mem, heaps, blocks, live)
    }

    /** All pointers that the blocks of the heaps stand for are word-aligned. */
    ghost predicate Aligned()
      reads this
    {
      AllAligned(heaps, blocks)
    }

    constructor (mem: Memory)
      ensures Valid() && Aligned() && this.mem == mem && heaps == [] && live == map[]
    {
      this.mem, heaps := mem, [];
      blocks, live := [], map[];
    }

    /** The assignments that set up a new free control block. */
    method SetNew(h: nat, id: nat, size: nat)
      modifies this`mem
      ensures Header(mem, h, id, Block(size, true)) && OnlyWithin(old(mem), mem, h, h + FIELDS)
    {
      NewHeaderIs(mem, h, id, size);
      WritesWithin(mem, h, id, size);
      mem := Store(mem, h + 4, 4, MAGIC);
      mem := Store(mem, h, 4, id);
      mem := Poke(mem, h + 16, 1);
      mem := Store(mem, h + 8, 4, size);
      mem := Store(mem, h + 12, 4, 0);
    }

    /**
     The assignments that set up the control block at `next`.  They read from the one at `addr` as
     they go, which may be in the way.
     */
    method SetNext(next: nat, addr: nat, n: nat) returns (ghost id: nat, ghost size: nat)
      modifies this`mem
      ensures Header(mem, next, id, Block(size, true)) && OnlyWithin(old(mem), mem, next, next + FIELDS)
      ensures addr <= next ==> id == Load(old(mem), addr, 4)
      ensures addr + FIELDS <= next ==> size == Wrap(Load(old(mem), addr + 8, 4) - n - MCB)
    {
      ghost var m := mem;
      mem := Store(mem, next + 4, 4, MAGIC);
      if addr <= next { LoadSame(m, mem, addr, 4); }
      id := Load(mem, addr, 4);
      mem := Store(mem, next, 4, Load(mem, addr, 4));
      mem := Poke(mem, next + 16, 1);
      if addr + FIELDS <= next { LoadSame(m, mem, addr + 8, 4); }
      size := Wrap(Load(mem, addr + 8, 4) - n - MCB);
      mem := Store(mem, next + 8, 4, Wrap(Load(mem, addr + 8, 4) - n - MCB));
      mem := Store(mem, next + 12, 4, 0);
      NewHeaderIs(m, next, id, size);
      WritesWithin(m, next, id, size);
    }

    /** The assignments that free a control block. */
    method SetFree(h: nat, size: nat, ghost id: nat, ghost b: Block)
      requires Header(mem, h, id, b)
      modifies this`mem
      ensures Header(mem, h, id, Block(size, true)) && OnlyWithin(old(mem), mem, h, h + FIELDS)
    {
      FreedIs(mem, h, id, b, size);
      WritesWithin(mem, h, id, size);
      mem := Store(mem, h + 8, 4, size);
      mem := Poke(mem, h + 16, 1);
    }

    /**
     The writes that split the free block `b` at `addr`, with 32-bit sums.  Unless `n` and a control
     block are too much for such a sum, `b` becomes a block in use and a free one.
     */
    method WriteSplit(addr: nat, n: nat, ghost id: nat, ghost b: Block)
      requires Header(mem, addr, id, b) && n < LIMIT && Passes(b, n) && id < LIMIT && addr + MCB + b.size < LIMIT
      modifies this`mem
      ensures OnlyWithin(old(mem), mem, addr, addr + MCB + b.size)
      ensures n + MCB < LIMIT ==>
                Header(mem, addr, id, Block(n, false)) &&
                Header(mem, addr + MCB + n, id, Block(b.size - n - MCB, true))
      ensures n + MCB >= LIMIT ==>
                Load(mem, addr + 8, 4) == n && (n == LIMIT - MCB ==> Header(mem, addr, id, Block(n, false)))
    {
      ghost var m := mem;
      HeaderReads(m, addr, id, b);
      SplitSums(addr, n, b);
      ghost var id', size' := SetNext(Wrap(addr + MCB + n), addr, n);
      if n + MCB < LIMIT { SplitUsed(m, mem, addr, n, id, b); } else { WrappedUsed(m, mem, addr, n, id', size', b); }
      mem := Poke(mem, addr + 16, 0);
      mem := Store(mem, addr + 8, 4, n);
    }

    /** The split of `mm_allocate_block_from_heap`: `n` bytes of the free block at `addr` are put in use. */
    method Split(i: nat, addr: nat, n: nat, ghost pre: seq<Block>, ghost b: Block, ghost post: seq<Block>, ghost p: nat)
      requires Valid() && i < |heaps| && blocks[i] == pre + ([b] + post) && addr == heaps[i].memory + Span(pre)
      requires p == addr + MCB && 0 < n < LIMIT && NonePasses(pre, n) && Passes(b, n)
      requires Header(mem, addr, i, b) && i < LIMIT && addr + MCB + b.size < LIMIT
      modifies this`mem, this`blocks, this`live
      ensures Keeps(KERNEL, old(mem), mem, old(live))
      ensures n + MCB < LIMIT ==>
                && Valid() && p !in old(live) && live == old(live)[p := n]
                && Alloc(old(blocks)[i], n).Carved? && p == heaps[i].memory + Alloc(old(blocks)[i], n).off
                && blocks == old(blocks)[i := Alloc(old(blocks)[i], n).blocks]
      ensures n + MCB >= LIMIT ==> blocks == old(blocks) && live == old(live) && Oversized(mem, n, p, i)
    {
      ghost var m, hs, bss, lv := mem, heaps, blocks, live;
      assert GoodHeap(m, hs[i], i, bss[i]);
      WriteSplit(addr, n, i, b);
      if n + MCB < LIMIT {
        ghost var bs' := CutFirst(m, mem, hs, bss, lv, i, pre, b, post, n, addr, p);
        blocks, live := bss[i := bs'], lv[p := n];
      } else {
        TouchKeeps(m, mem, hs, bss, lv, i, pre, b, post, lv);
      }
    }

    /** The loop of `mm_allocate_block_from_heap`: it stops at the first block that passes the test. */
    method Search(i: nat, n: nat)
        returns (found: bool, addr: nat, ghost pre: seq<Block>, ghost b: Block, ghost post: seq<Block>)
      requires Valid() && i < |heaps| && n < LIMIT
      ensures found <==> !NonePasses(blocks[i], n)
      ensures found ==>
                && blocks[i] == pre + ([b] + post) && NonePasses(pre, n) && Passes(b, n)
                && addr == heaps[i].memory + Span(pre) && Header(mem, addr, i, b) && i < LIMIT
                && addr + MCB + b.size < LIMIT && addr + MCB == heaps[i].memory + PassAt(blocks[i], n)
    {
      var d := heaps[i];
      ghost var bs, rest := blocks[i], blocks[i];
      assert GoodHeap(mem, d, i, bs);
      pre, post, b := [], [], Block(0, false);
      assert [] + bs == bs;
      addr := d.memory;
      while addr != d.memory + d.size
        invariant bs == pre + rest && addr == d.memory + Span(pre) && NonePasses(pre, n)
        decreases |rest|
      {
        ghost var pre';
        b, post, pre' := SearchStep(mem, d, i, bs, pre, rest, n);
        if Load(mem, addr + 4, 4) != MAGIC {
          assert false;
        }
        var size := Load(mem, addr + 8, 4);
        if mem(addr + 16) != 0 && size >= Need(n) {
          PassAtFirst(pre, b, post, n);
          found := true;
          return;
        }
        addr := addr + MCB + size;
        pre, rest := pre', post;
      }
      SearchEnds(d, bs, pre, rest);
      found := false;
    }

    /** `mm_allocate_block_from_heap`: the first block that passes the test is split. */
    method AllocateFrom(i: nat, n: nat) returns (ptr: nat)
      requires Valid() && i < |heaps| && 0 < n < LIMIT
      modifies this`mem, this`blocks, this`live
      ensures Keeps(KERNEL, old(mem), mem, old(live)) && (ptr == 0 <==> NonePasses(old(blocks)[i], n))
      ensures ptr != 0 ==> ptr == heaps[i].memory + PassAt(old(blocks)[i], n)
      ensures ptr == 0 ==> mem == old(mem) && blocks == old(blocks) && live == old(live)
      ensures ptr != 0 && n + MCB < LIMIT ==>
                && Valid() && ptr !in old(live) && live == old(live)[ptr := n]
                && Alloc(old(blocks)[i], n).Carved? && ptr == heaps[i].memory + Alloc(old(blocks)[i], n).off
                && blocks == old(blocks)[i := Alloc(old(blocks)[i], n).blocks]
      ensures ptr != 0 && n + MCB >= LIMIT ==> blocks == old(blocks) && live == old(live) && Oversized(mem, n, ptr, i)
    {
      var found, addr;
      ghost var pre, b, post;
      found, addr, pre, b, post := Search(i, n);
      if !found {
        return 0;
      }
      Split(i, addr, n, pre, b, post, addr + MCB);
      return addr + MCB;
    }

    /** `mm_create_heap`, when `vmm_create_heap` maps a heap at `base` (0: it fails) and leaves memory as `after`. */
    method CreateHeap(base: nat, after: Memory) returns (ok: bool)
      requires Valid() && (base != 0 ==> NewRegion(mem, after, heaps, base))
      modifies this`mem, this`heaps, this`blocks
      ensures Valid() && Keeps(KERNEL, old(mem), mem, live) && (ok <==> |old(heaps)| < 16 && base != 0)
      ensures heaps == if ok then old(heaps) + [Heap(base, 0x80_0000)] else old(heaps)
      ensures blocks == if ok then old(blocks) + [[Block(0x80_0000 - 20, true)]] else old(blocks)
    {
      if |heaps| >= MAX_HEAPS || base == 0 {
        return false;
      }
      ghost var m, hs, bss := mem, heaps, blocks;
      mem := after;
      SetNew(base, |heaps|, HEAP_SIZE - MCB);
      CreateSound(m, after, mem, hs, bss, live, base);
      heaps := heaps + [Heap(base, HEAP_SIZE)];
      blocks := bss + [[Block(HEAP_SIZE - MCB, true)]];
      return true;
    }

    /** The loop of `malloc` over the heaps that exist. */
    method FromHeaps(n: nat) returns (ptr: nat, ghost i: nat)
      requires Valid() && 0 < n < LIMIT
      modifies this`mem, this`blocks, this`live
      ensures Keeps(KERNEL, old(mem), mem, old(live)) && (ptr == 0 <==> AllRefuse(old(blocks), n))
      ensures ptr != 0 ==> Chosen(old(blocks), heaps, n, ptr, i)
      ensures ptr == 0 ==> mem == old(mem) && blocks == old(blocks) && live == old(live)
      ensures ptr != 0 && n + MCB < LIMIT ==>
                && Valid() && MayReply(KERNEL, old(live), n, ptr) && live == old(live)[ptr := n]
                && Served(old(blocks), blocks, heaps, n, ptr, i)
      ensures ptr != 0 && n + MCB >= LIMIT ==>
                blocks == old(blocks) && !MayReply(KERNEL, old(live), n, ptr) && Oversized(mem, n, ptr, i)
    {
      i := 0;
      for k := 0 to |heaps|
        invariant mem == old(mem) && blocks == old(blocks) && live == old(live)
        invariant AllRefuse(blocks[..k], n)
      {
        ptr := AllocateFrom(k, n);
        if ptr != 0 {
          i := k;
          AnswerKeepsContract(mem, heaps, blocks, live, old(live), n, ptr, i);
          return;
        }
      }
      assert blocks[..|heaps|] == blocks;
      ptr := 0;
    }

    /**
     `malloc (n)`.  It adds a heap when the search of every heap fails, and takes the first
     block that passes the test in the first heap `i` that has one.  This keeps the contract
     of `malloc` unless `n` and a control block are too much for a 32-bit sum; then every
     answer but null breaks it.
     */
    method Malloc(n: nat, base: nat, after: Memory) returns (ptr: nat, ghost i: nat)
      requires Valid() && n < LIMIT && (base != 0 ==> NewRegion(mem, after, heaps, base))
      modifies this
      ensures MallocDone(old(blocks), old(heaps), blocks, heaps, n, base, ptr, i)
      ensures |old(heaps)| >= 15 ==> heaps == old(heaps)
      ensures old(heaps) == [] ==> (ptr == 0 <==> n == 0 || base == 0 || 8388568 < n < 0xFFFF_FFEC)
      ensures Keeps(KERNEL, old(mem), mem, old(live))
      ensures ptr == 0 ==> Valid() && live == old(live)
      ensures ptr != 0 && n + MCB < LIMIT ==>
                Valid() && MayReply(KERNEL, old(live), n, ptr) && live == old(live)[ptr := n]
      ensures old(Aligned()) && base % 4 == 0 && n + MCB < LIMIT ==>
                MayReply(HEADER, old(live), n, ptr) && (Aligned() <==> ptr == 0 || n % 4 == 0)
      ensures ptr != 0 && n + MCB >= LIMIT ==> !MayReply(KERNEL, old(live), n, ptr) && Oversized(mem, n, ptr, i)
    {
      FirstRequest(n, base);
      ptr, i := 0, 0;
      if n != 0 {
        ptr, i := FromHeaps(n);
        if ptr == 0 && |heaps| < MAX_HEAPS - 1 {
          var ok := CreateHeap(base, after);
          if ok {
            label created:
            i := |heaps| - 1;
            ptr := AllocateFrom(|heaps| - 1, n);
            KeepsTrans(old(mem), old@created(mem), mem, old(live));
            NewHeapAnswers(old(blocks), n, base);
            AnswerKeepsContract(mem, heaps, blocks, live, old(live), n, ptr, i);
          }
        }
      }
      if n + MCB < LIMIT && base % 4 == 0 {
        AnswerAlignedIff(old(live), old(heaps), old(blocks), heaps, blocks, n, base, ptr, i);
      }
    }

    /** The loop of `mm_free_block_from_heap`: the bytes of the free blocks that follow the one at `mcb`. */
    method FreeAfter(i: nat, mcb: nat, ghost pre: seq<Block>, ghost b: Block, ghost post: seq<Block>)
        returns (expand: nat, ghost run: seq<Block>, ghost rest: seq<Block>)
      requires Valid() && i < |heaps| && blocks[i] == pre + ([b] + post) && mcb == heaps[i].memory + Span(pre)
      ensures post == run + rest && AllFree(run) && (rest == [] || !rest[0].free) && expand == Span(run)
    {
      var d := heaps[i];
      var end := d.memory + d.size;
      assert GoodHeap(mem, d, i, blocks[i]);
      BlockAt(mem, d, i, blocks[i], pre, b, post);
      HeaderReads(mem, mcb, i, b);
      var next := mcb + MCB + Load(mem, mcb + 8, 4) + Load(mem, mcb + 12, 4);
      expand, run, rest := 0, [], post;
      assert [] + post == post;
      while next != end
        invariant post == run + rest && AllFree(run) && expand == Span(run) && next == mcb + MCB + b.size + Span(run)
        decreases |rest|
      {
        SpanGoesOn(d, pre, b, run, rest);
        NextBlock(mem, d, i, blocks[i], next, pre, b, run, rest);
        HeaderReads(mem, next, i, rest[0]);
        if next > end || Load(mem, next + 4, 4) != MAGIC {
          assert false;
        }
        if mem(next + 16) == 0 {
          return;
        }
        expand := expand + Load(mem, next + 8, 4) + MCB;
        next := next + MCB + Load(mem, next + 8, 4) + Load(mem, next + 12, 4);
        TakeNext(run, rest);
        AllFreeApp(run, [rest[0]]);
        run, rest := run + [rest[0]], rest[1..];
      }
      SpanEnds(d, pre, b, run, rest);
    }

    /** The end of `mm_free_block_from_heap`: block `b` is freed and takes in the blocks `run`. */
    method Merge(i: nat, mcb: nat, size: nat, ghost ptr: nat, ghost pre: seq<Block>, ghost b: Block,
                 ghost run: seq<Block>, ghost rest: seq<Block>, ghost bs': seq<Block>)
      requires Valid() && i < |heaps| && blocks[i] == pre + ([b] + (run + rest)) && !b.free
      requires AllFree(run) && (rest == [] || !rest[0].free) && size == b.size + Span(run)
      requires bs' == pre + ([Block(size, true)] + rest)
      requires mcb == heaps[i].memory + Span(pre) && ptr == mcb + MCB && ptr in live && live[ptr] == b.size
      requires Header(mem, mcb, i, b)
      modifies this`mem, this`blocks, this`live
      ensures Valid() && Keeps(KERNEL, old(mem), mem, old(live) - {ptr})
      ensures live == old(live) - {ptr} && blocks == old(blocks)[i := bs']
    {
      ghost var m, hs, bss, lv := mem, heaps, blocks, live;
      SetFree(mcb, size, i, b);
      FreeDone(m, mem, hs, bss, lv, i, mcb, pre, b, run, rest, ptr, size, bs');
      blocks, live := bss[i := bs'], lv - {ptr};
    }

    /** `mm_free_block_from_heap`: block `b` is freed and takes in the free blocks that follow it. */
    method FreeBlock(i: nat, mcb: nat, ghost ptr: nat, ghost pre: seq<Block>, ghost b: Block, ghost post: seq<Block>)
      requires Valid() && i < |heaps| && blocks[i] == pre + ([b] + post) && !b.free
      requires mcb == heaps[i].memory + Span(pre) && ptr == mcb + MCB && ptr in live && live[ptr] == b.size
      requires Header(mem, mcb, i, b) && i < LIMIT && b.size < LIMIT
      requires ptr < heaps[i].memory + heaps[i].size
      modifies this`mem, this`blocks, this`live
      ensures Valid() && Keeps(KERNEL, old(mem), mem, old(live) - {ptr})
      ensures live == old(live) - {ptr}
      ensures FreeDoneIn(old(blocks), blocks, heaps, ptr, i) && (old(Aligned()) ==> Aligned())
    {
      ghost var run, rest;
      var expand;
      expand, run, rest := FreeAfter(i, mcb, pre, b, post);
      HeaderReads(mem, mcb, i, b);
      var size := Load(mem, mcb + 8, 4) + expand;
      ghost var bs' := ReleasePlan(heaps, blocks, i, ptr - heaps[i].memory, pre, b, post, run, rest, size);
      Merge(i, mcb, size, ptr, pre, b, run, rest, bs');
    }

    /**
     `free (ptr)`, for a pointer that is live or whose control block does not pass for one.
     A live pointer is released in heap `i`; the other is left alone.
     */
    method Free(ptr: nat) returns (ghost i: nat)
      requires Valid() && (ptr in live || (ptr < LIMIT && NotAllocated(mem, ptr)))
      modifies this`mem, this`blocks, this`live
      ensures ptr in old(live) ==>
                && Valid() && Keeps(KERNEL, old(mem), mem, old(live) - {ptr}) && live == old(live) - {ptr}
                && FreeDoneIn(old(blocks), blocks, heaps, ptr, i) && (old(Aligned()) ==> Aligned())
      ensures ptr !in old(live) ==> mem == old(mem) && blocks == old(blocks) && live == old(live)
    {
      ghost var pre, b, post := [], Block(0, false), [];
      i := 0;
      if ptr in live { i, pre, b, post := LiveHeader(mem, heaps, blocks, live, ptr); }
      var mcb := Wrap(ptr - MCB);
      var id := Load(mem, mcb, 4);
      if Load(mem, mcb + 4, 4) != MAGIC || Load(mem, mcb + 8, 4) == 0 || id >= MAX_HEAPS {
        return;
      }
      FreeBlock(id, mcb, ptr, pre, b, post);
    }

    /** A word that `_mm_malloc` writes into a live block or its slack leaves the heaps in order. */
    method StoreWord(x: nat, v: nat, ghost p: nat)
      modifies this`mem
      ensures mem == Store(old(mem), x, KERNEL.Ptr(), v)
      ensures old(Valid()) && p in live && p - KERNEL.slack <= x && x + KERNEL.Ptr() <= p + live[p] ==> Valid()
    {
      if Valid() && p in live && p - KERNEL.slack <= x && x + KERNEL.Ptr() <= p + live[p] {
        ClientWriteSound(mem, Store(mem, x, KERNEL.Ptr(), v), heaps, blocks, live, p);
      }
      mem := Store(mem, x, KERNEL.Ptr(), v);
    }

    /** A byte that a client writes into a live block or its slack. */
    method ClientWrite(x: int, v: u8, ghost p: nat)
      requires Valid() && p in live && p - KERNEL.slack <= x < p + live[p]
      modifies this`mem
      ensures Valid() && mem == Poke(old(mem), x, v)
    {
      ClientWriteSound(mem, Poke(mem, x, v), heaps, blocks, live, p);
      mem := Poke(mem, x, v);
    }
  }
}
