/**
 `_mm_malloc` and `_mm_free` over the `malloc` and `free` of libc/stdlib_memory.c.

 The heap keeps the history of its steps, and every operation whose 32-bit sums hold up
 adds a legal step of AlignedAlloc to it, so what AllocRuns proves of all runs holds of
 the kernel's own heap.
 */
module KernelHeap {
  import opened Bits
  import opened ByteMemory
  import opened Alignment
  import opened AlignedAlloc
  import opened AllocRuns
  import opened AlignedHeap
  import opened HeapChain
  import opened HeapMemory
  import opened HeapSystem
  import opened LibcMalloc

  ghost function Initial(mem: Memory): State {
    State(mem, Unset, map[], map[])
  }

  class Kernel {
    const c: Context
    var errno: Errno
    ghost var grants: map<nat, Grant>
    ghost const start: Memory
    ghost var steps: seq<Step>

    ghost function Abs(): State
      reads this, c
    {
      State(c.mem, errno, c.live, grants)
    }

    /** The control blocks are in order, and the heap is where its history leads the ideal allocator. */
    ghost predicate Valid()
      reads this, c
    {
      c.Valid() && Reached(KERNEL, start, steps, Abs())
    }

    constructor (mem: Memory)
      ensures Valid() && fresh(c) && steps == [] && Abs() == Initial(mem)
    {
      c := new Context(mem);
      errno, grants, start, steps := Unset, map[], mem, [];
    }

    /** libc's `malloc`, as the ideal allocator sees it, with what it does to the heaps. */
    method Obtain(n: nat, base: nat, region: Memory, ghost f: Replies) returns (ptr: nat)
      requires c.Valid() && n < LIMIT && (base != 0 ==> NewRegion(c.mem, region, c.heaps, base)) && AreReplies(f)
      modifies c
      ensures Keeps(KERNEL, old(c.mem), c.mem, old(c.live))
      ensures Reply(ptr, c.heaps, c.blocks) == f(old(c.heaps), old(c.blocks), n, base)
      ensures ptr == 0 || n + MCB < LIMIT ==>
                && c.Valid() && MayReply(KERNEL, old(c.live), n, ptr)
                && c.live == if ptr == 0 then old(c.live) else old(c.live)[ptr := n]
      ensures ptr != 0 && n + MCB >= LIMIT ==> !MayReply(KERNEL, old(c.live), n, ptr)
    {
      ghost var i;
      ghost var hs, bss := c.heaps, c.blocks;
      ptr, i := c.Malloc(n, base, region);
      MallocDoneIsReply(bss, hs, c.blocks, c.heaps, n, base, ptr, i);
    }

    /** libc's `free`, likewise. */
    method GiveBack(ptr: nat) returns (ghost i: nat)
      requires c.Valid() && ptr in c.live
      modifies c`mem, c`blocks, c`live
      ensures c.Valid() && Keeps(KERNEL, old(c.mem), c.mem, old(c.live) - {ptr}) && c.live == old(c.live) - {ptr}
      ensures FreeDoneIn(old(c.blocks), c.blocks, c.heaps, ptr, i)
    {
      i := c.Free(ptr);
    }

    /** The call of `malloc`; when it answers, the step is complete but for the word to hide at `p`. */
    method Ask(size: nat, align: nat, base: nat, region: Memory, ghost f: Replies) returns (ptr: nat)
      requires Valid() && Reaches(size, align) && size < LIMIT && align < LIMIT
      requires (base != 0 ==> NewRegion(c.mem, region, c.heaps, base)) && AreReplies(f)
      modifies this`steps, c
      ensures Reply(ptr, c.heaps, c.blocks) == f(old(c.heaps), old(c.blocks), CSum(size, align), base)
      ensures SumsHold(size, align, ptr) ==>
                var s := Pending(KERNEL, old(Abs()), size, align, ptr, c.mem);
                && c.Valid() && c.live == s.blocks && Reached(KERNEL, start, steps, s)
                && steps == old(steps) + [Step.MmMalloc(size, align, ptr, c.mem)]
                && (ptr != 0 ==> ptr + (size + Raised(KERNEL, align)) <= LIMIT)
      ensures !SumsHold(size, align, ptr) ==> !Legal(KERNEL, old(Abs()), Step.MmMalloc(size, align, ptr, c.mem))
    {
      ghost var s, was := Abs(), steps;
      CSumIs(size, align);
      ptr := Obtain(CSum(size, align), base, region, f);
      if SumsHold(size, align, ptr) {
        steps := Answered(KERNEL, start, was, s, size, align, ptr, c.mem);
      } else {
        NotLegal(KERNEL, s, size, align, ptr, c.mem);
      }
    }

    /** The end of `_mm_malloc`: the pointer is rounded up and `mallocPtr` stored below it. */
    method HidePointer(size: nat, a: nat, mallocPtr: nat) returns (p: nat)
      requires 0 < a < LIMIT
      modifies this`grants, c`mem
      ensures KERNEL.Limit() == LIMIT && p == MaskedUp(KERNEL, mallocPtr, a) < LIMIT
      ensures c.mem == Store(old(c.mem), WordBelow(KERNEL, p), KERNEL.Ptr(), mallocPtr)
      ensures grants == old(grants)[p := Grant(size, a, mallocPtr)]
      ensures (old(c.Valid()) && InPlace(KERNEL, a, mallocPtr, Above(mallocPtr, a)) &&
               mallocPtr in c.live && c.live[mallocPtr] == size + a) ==> c.Valid()
    {
      KernelLimit();
      p := MaskedUp(KERNEL, mallocPtr, a);
      c.StoreWord(WordBelow(KERNEL, p), mallocPtr, mallocPtr);
      grants := grants[p := Grant(size, a, mallocPtr)];
    }

    /** `_mm_malloc` once the request is accepted. */
    method Accept(size: nat, align: nat, base: nat, region: Memory, ghost f: Replies)
        returns (p: nat, ghost ptr: nat, ghost after: Memory)
      requires Valid() && Reaches(size, align) && size < LIMIT && align < LIMIT
      requires (base != 0 ==> NewRegion(c.mem, region, c.heaps, base)) && AreReplies(f)
      modifies this`grants, this`steps, c
      ensures Reply(ptr, c.heaps, c.blocks) == f(old(c.heaps), old(c.blocks), CSum(size, align), base)
      ensures CodeDone(align, ptr, after, p, c.mem)
      ensures SumsHold(size, align, ptr) ==>
                && Valid() && steps == old(steps) + [Step.MmMalloc(size, align, ptr, after)]
                && p == Returned(KERNEL, size, align, ptr)
      ensures !SumsHold(size, align, ptr) ==> !Legal(KERNEL, old(Abs()), Step.MmMalloc(size, align, ptr, after))
    {
      KernelLimit();
      RaisedBound(KERNEL, align);
      var mallocPtr := Ask(size, align, base, region, f);
      ptr, after := mallocPtr, c.mem;
      p := 0;
      if mallocPtr != 0 {
        if SumsHold(size, align, ptr) { AnswerInPlace(KERNEL, size, align, mallocPtr); }
        p := HidePointer(size, Raised(KERNEL, align), mallocPtr);
      }
    }

    /**
     `_mm_malloc (size, align)`; `base` and `region` are what `vmm_create_heap` would answer,
     `ptr` and `after` libc's answer and the memory it leaves.  The request is a legal step if
     and only if it is refused, or the sums in both functions hold up.
     */
    method MmMalloc(size: nat, align: nat, base: nat, region: Memory)
        returns (p: nat, ghost ptr: nat, ghost after: Memory)
      requires Valid() && size < LIMIT && align < LIMIT
      requires base != 0 ==> NewRegion(c.mem, region, c.heaps, base)
      modifies this, c
      ensures errno == if AlignOk(align) then old(errno) else EINVAL
      ensures Reaches(size, align) ==>
                && Reply(ptr, c.heaps, c.blocks) == MallocReply(old(c.heaps), old(c.blocks), CSum(size, align), base)
                && CodeDone(align, ptr, after, p, c.mem)
      ensures !Reaches(size, align) ==> c.mem == old(c.mem) && c.heaps == old(c.heaps) && c.blocks == old(c.blocks)
      ensures !Reaches(size, align) || SumsHold(size, align, ptr) ==>
                && Valid() && steps == old(steps) + [Step.MmMalloc(size, align, ptr, after)]
                && p == Returned(KERNEL, size, align, ptr)
      ensures Reaches(size, align) && !SumsHold(size, align, ptr) ==>
                !Legal(KERNEL, old(Abs()), Step.MmMalloc(size, align, ptr, after))
    {
      KernelLimit();
      PowerTestIff(KERNEL, align);
      p, ptr, after := 0, 0, c.mem;
      ghost var s := Abs();
      if PowerTest(KERNEL, align) != 0 {
        steps := Refused(KERNEL, start, steps, s, size, align);
        errno := EINVAL;
      } else if size == 0 {
        steps := Refused(KERNEL, start, steps, s, size, align);
      } else {
        ghost var f := TheReplies();
        p, ptr, after := Accept(size, align, base, region, f);
      }
    }

    /** `_mm_free (p)`; the block behind `p` goes back to heap `i`. */
    method MmFree(p: nat) returns (ghost after: Memory, ghost i: nat)
      requires Valid() && (p == 0 || p in grants)
      modifies this`grants, this`steps, c`mem, c`blocks, c`live
      ensures Valid() && steps == old(steps) + [Step.MmFree(p, after)]
      ensures if p == 0 then c.mem == old(c.mem) && c.blocks == old(c.blocks)
              else FreeDoneIn(old(c.blocks), c.blocks, c.heaps, old(grants)[p].origin, i)
    {
      ghost var s, was := Abs(), steps;
      i := 0;
      if p != 0 {
        HiddenIsLive(KERNEL, start, was, s, p);
        KernelLimit();
        var word := Load(c.mem, p - KERNEL.Ptr(), KERNEL.Ptr());
        i := GiveBack(word);
        grants := grants - {p};
      }
      after := c.mem;
      steps := Released(KERNEL, start, was, s, p, after);
    }

    /** A client stores one byte in its payload at `p`. */
    method ClientWrite(a: nat, b: u8, ghost p: nat)
      requires Valid() && p in grants && p <= a < p + grants[p].size
      modifies this`steps, c`mem
      ensures Valid() && steps == old(steps) + [Write(a, b)]
    {
      steps := Written(KERNEL, start, steps, Abs(), a, b, p);
      c.ClientWrite(a, b, grants[p].origin);
    }

    /** Some other part of the kernel calls `malloc (n)`. */
    method PlainMalloc(n: nat, base: nat, region: Memory) returns (p: nat, ghost after: Memory)
      requires Valid() && n < LIMIT && (base != 0 ==> NewRegion(c.mem, region, c.heaps, base))
      modifies this`steps, c
      ensures Reply(p, c.heaps, c.blocks) == MallocReply(old(c.heaps), old(c.blocks), n, base)
      ensures p == 0 || n + MCB < LIMIT ==> Valid() && steps == old(steps) + [Step.PlainMalloc(n, p, after)]
      ensures p != 0 && n + MCB >= LIMIT ==> !Legal(KERNEL, old(Abs()), Step.PlainMalloc(n, p, after))
    {
      ghost var f := TheReplies();
      p, after := PlainAsk(n, base, region, f);
    }

    method PlainAsk(n: nat, base: nat, region: Memory, ghost f: Replies) returns (p: nat, ghost after: Memory)
      requires Valid() && n < LIMIT && (base != 0 ==> NewRegion(c.mem, region, c.heaps, base)) && AreReplies(f)
      modifies this`steps, c
      ensures Reply(p, c.heaps, c.blocks) == f(old(c.heaps), old(c.blocks), n, base)
      ensures p == 0 || n + MCB < LIMIT ==> Valid() && steps == old(steps) + [Step.PlainMalloc(n, p, after)]
      ensures p != 0 && n + MCB >= LIMIT ==> !Legal(KERNEL, old(Abs()), Step.PlainMalloc(n, p, after))
    {
      ghost var s := Abs();
      p := Obtain(n, base, region, f);
      after := c.mem;
      if p == 0 || n + MCB < LIMIT { steps := PlainAnswered(KERNEL, start, steps, s, n, p, after); }
    }

    /** It stores one byte in what it obtained. */
    method PlainWrite(a: nat, b: u8, ghost block: nat)
      requires Valid() && Foreign(Abs(), block) && block <= a < block + c.live[block]
      modifies this`steps, c`mem
      ensures Valid() && steps == old(steps) + [Write(a, b)]
    {
      RunExtends(KERNEL, Initial(start), steps, Write(a, b));
      steps := steps + [Write(a, b)];
      c.ClientWrite(a, b, block);
    }

    /** It frees what it obtained. */
    method PlainFree(p: nat) returns (ghost after: Memory, ghost i: nat)
      requires Valid() && Foreign(Abs(), p)
      modifies this`steps, c`mem, c`blocks, c`live
      ensures Valid() && steps == old(steps) + [Step.PlainFree(p, after)]
      ensures FreeDoneIn(old(c.blocks), c.blocks, c.heaps, p, i)
    {
      ghost var s := Abs();
      i := GiveBack(p);
      after := c.mem;
      RunExtends(KERNEL, Initial(start), steps, Step.PlainFree(p, after));
      steps := steps + [Step.PlainFree(p, after)];
    }
  }

  /**
   Neither `size + align`, nor libc's sum of that and a control block for an answer other
   than null, is too much for 32 bits.
   */
  ghost predicate SumsHold(size: nat, align: nat, ptr: nat) {
    var n := size + Raised(KERNEL, align);
    n < LIMIT && (ptr == 0 || n + MCB < LIMIT)
  }

  /** The bytes asked of libc: `size + align`, in 32 bits. */
  function CSum(size: nat, align: nat): (r: nat)
    ensures r < LIMIT
  {
    Wrap(size + Raised(KERNEL, align))
  }

  lemma CSumIs(size: nat, align: nat)
    requires size < LIMIT && align < LIMIT
    ensures KERNEL.Limit() == LIMIT && Raised(KERNEL, align) < LIMIT
    ensures var n := size + Raised(KERNEL, align); CSum(size, align) == if n < LIMIT then n else n - LIMIT
  {
    KernelLimit();
    RaisedBound(KERNEL, align);
    WrapIs(size + Raised(KERNEL, align));
  }

  /**
   What `_mm_malloc` leaves and returns once libc has answered `ptr` and left memory as `after`,
   whether or not the sums hold up: null, or the rounded pointer with `ptr` stored below it.
   */
  ghost predicate CodeDone(align: nat, ptr: nat, after: Memory, p: nat, m: Memory)
    requires align < LIMIT
  {
    KernelLimit();
    RaisedBound(KERNEL, align);
    if ptr == 0 then p == 0 && m == after
    else p == MaskedUp(KERNEL, ptr, Raised(KERNEL, align)) && m == Store(after, WordBelow(KERNEL, p), KERNEL.Ptr(), ptr)
  }

  /** Otherwise the ideal allocator would not take the step. */
  lemma NotLegal(t: Target, s: State, size: nat, align: nat, ptr: nat, after: Memory)
    requires Reaches(size, align)
    requires Wraps(t, size, align) || !MayReply(t, s.blocks, size + Raised(t, align), ptr)
    ensures !Legal(t, s, Step.MmMalloc(size, align, ptr, after))
  {
  }

  /** One of the requests for which only libc's sum is too much. */
  lemma LibcSumTooLarge(ptr: nat)
    requires ptr != 0
    ensures Reaches(0xFFFF_FFDC, 16) && !Wraps(KERNEL, 0xFFFF_FFDC, 16) && !SumsHold(0xFFFF_FFDC, 16, ptr)
    ensures 0xFFFF_FFDC + Raised(KERNEL, 16) == LIMIT - MCB
  {
    KernelLimit();
    assert 16 == Pow2(4);
  }

  /** The steps are legal from an untouched heap and lead to `s`. */
  ghost predicate Reached(t: Target, start: Memory, steps: seq<Step>, s: State) {
    LegalRun(t, Initial(start), steps) && Run(t, Initial(start), steps) == s
  }

  lemma ReachedInv(t: Target, start: Memory, steps: seq<Step>, s: State)
    requires Reached(t, start, steps, s)
    ensures Inv(t, s)
  {
    RunKeepsInv(t, Initial(start), steps);
  }

  lemma {:induction false} RunExtends(t: Target, s: State, steps: seq<Step>, step: Step)
    requires LegalRun(t, s, steps) && Legal(t, Run(t, s, steps), step)
    ensures LegalRun(t, s, steps + [step])
    ensures Run(t, s, steps + [step]) == Next(t, Run(t, s, steps), step)
    decreases |steps|
  {
    var more := steps + [step];
    if steps == [] {
      assert more == [step] && more[1..] == [];
    } else {
      assert more[0] == steps[0] && more[1..] == steps[1..] + [step];
      RunExtends(t, Next(t, s, steps[0]), steps[1..], step);
    }
  }

  /** `s` once `malloc` has answered `ptr`, leaving memory as `after`, and the word, if any, is hidden. */
  ghost function Pending(t: Target, s: State, size: nat, align: nat, ptr: nat, after: Memory): State {
    if ptr == 0 then s.(mem := after)
    else
      var a := Raised(t, align);
      var p := Above(ptr, a);
      State(Store(after, p - t.Ptr(), t.Ptr(), ptr), s.errno, s.blocks[ptr := size + a], s.live[p := Grant(size, a, ptr)])
  }

  /** A request that is refused is a legal step. */
  lemma Refused(t: Target, start: Memory, steps: seq<Step>, s: State, size: nat, align: nat) returns (more: seq<Step>)
    requires Reached(t, start, steps, s) && !Reaches(size, align) && size < t.Limit() && align < t.Limit()
    ensures more == steps + [Step.MmMalloc(size, align, 0, s.mem)] && Returned(t, size, align, 0) == 0
    ensures Reached(t, start, more, if AlignOk(align) then s else s.(errno := EINVAL))
  {
    var step := Step.MmMalloc(size, align, 0, s.mem);
    more := steps + [step];
    RunExtends(t, Initial(start), steps, step);
  }

  /** What libc's `malloc` promises makes the request a legal step, with the word inside the block or its slack. */
  lemma Answered(t: Target, start: Memory, steps: seq<Step>, s: State, size: nat, align: nat, ptr: nat, after: Memory)
      returns (more: seq<Step>)
    requires Reached(t, start, steps, s)
    requires Reaches(size, align) && align < t.Limit() && size + Raised(t, align) < t.Limit()
    requires MayReply(t, s.blocks, size + Raised(t, align), ptr) && Keeps(t, s.mem, after, s.blocks)
    ensures more == steps + [Step.MmMalloc(size, align, ptr, after)]
    ensures Reached(t, start, more, Pending(t, s, size, align, ptr, after))
    ensures ptr != 0 ==> ptr + (size + Raised(t, align)) <= t.Limit()
  {
    more := steps + [Step.MmMalloc(size, align, ptr, after)];
    RunExtends(t, Initial(start), steps, Step.MmMalloc(size, align, ptr, after));
    if ptr != 0 { BlockInSpace(t, s.blocks, size + Raised(t, align), ptr); }
  }

  /** The same for other users of `malloc`. */
  lemma PlainAnswered(t: Target, start: Memory, steps: seq<Step>, s: State, n: nat, ptr: nat, after: Memory)
      returns (more: seq<Step>)
    requires Reached(t, start, steps, s) && MayReply(t, s.blocks, n, ptr) && Keeps(t, s.mem, after, s.blocks)
    ensures more == steps + [Step.PlainMalloc(n, ptr, after)]
    ensures Reached(t, start, more, s.(mem := after, blocks := if ptr == 0 then s.blocks else s.blocks[ptr := n]))
  {
    more := steps + [Step.PlainMalloc(n, ptr, after)];
    RunExtends(t, Initial(start), steps, Step.PlainMalloc(n, ptr, after));
  }

  /** The C expressions for the pointer and for the word below it, and that both lie in the block or its slack. */
  ghost predicate InPlace(t: Target, a: nat, ptr: nat, p: nat) {
    && a < t.Limit() && p < t.Limit() && MaskedUp(t, ptr, a) == p && WordBelow(t, p) == p - t.Ptr()
    && ptr + t.Ptr() - t.slack <= p <= ptr + a
  }

  lemma AnswerInPlace(t: Target, size: nat, align: nat, ptr: nat)
    requires Reaches(size, align) && align < t.Limit() && size + Raised(t, align) < t.Limit()
    requires t.Suits(ptr) && ptr + (size + Raised(t, align)) <= t.Limit()
    ensures InPlace(t, Raised(t, align), ptr, Above(ptr, Raised(t, align)))
  {
    WordsAgree(t, size, align, ptr);
    RoomForWord(t, align, ptr);
  }

  /** The word that `_mm_free` reads is a block that is live in libc's heap. */
  lemma HiddenIsLive(t: Target, start: Memory, steps: seq<Step>, s: State, p: nat)
    requires Reached(t, start, steps, s) && p in s.live
    ensures p >= t.Ptr() && Load(s.mem, p - t.Ptr(), t.Ptr()) == s.live[p].origin && s.live[p].origin in s.blocks
  {
    ReachedInv(t, start, steps, s);
    GrantWord(t, s, p);
  }

  /** What libc's `free` promises makes the release a legal step. */
  lemma Released(t: Target, start: Memory, steps: seq<Step>, s: State, p: nat, after: Memory) returns (more: seq<Step>)
    requires Reached(t, start, steps, s) && (p == 0 || p in s.live)
    requires p != 0 ==> Keeps(t, s.mem, after, s.blocks - {s.live[p].origin})
    ensures more == steps + [Step.MmFree(p, after)]
    ensures Reached(t, start, more, if p == 0 then s
                                    else State(after, s.errno, s.blocks - {s.live[p].origin}, s.live - {p}))
  {
    more := steps + [Step.MmFree(p, after)];
    RunExtends(t, Initial(start), steps, Step.MmFree(p, after));
  }

  /** A write into a payload is a legal step, and stays inside the block behind it. */
  lemma Written(t: Target, start: Memory, steps: seq<Step>, s: State, a: nat, b: u8, p: nat) returns (more: seq<Step>)
    requires Reached(t, start, steps, s) && p in s.live && p <= a < p + s.live[p].size
    ensures more == steps + [Write(a, b)] && Reached(t, start, more, s.(mem := Poke(s.mem, a, b)))
    ensures var o := s.live[p].origin; o in s.blocks && o - t.slack <= a < o + s.blocks[o]
  {
    more := steps + [Write(a, b)];
    HiddenIsLive(t, start, steps, s, p);
    ReachedInv(t, start, steps, s);
    GrantInBlock(t, s, p);
    RunExtends(t, Initial(start), steps, Write(a, b));
  }
}
