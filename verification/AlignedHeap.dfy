/**
 `_mm_malloc` and `_mm_free` as the header writes them: bit masks on words, and the
 hidden word read back from memory.  Each method refines a step of AlignedAlloc.
 */
module AlignedHeap {
  import opened Bits
  import opened ByteMemory
  import opened Alignment
  import opened AlignedAlloc
  import opened AllocRuns

  class Heap {
    const t: Target
    var mem: Memory
    var errno: Errno
    ghost var blocks: map<nat, nat>
    ghost var live: map<nat, Grant>

    ghost function Abs(): State
      reads this
    {
      State(mem, errno, blocks, live)
    }

    ghost predicate Valid()
      reads this
    {
      Inv(t, Abs())
    }

    /** A heap from which nothing has been obtained. */
    constructor (t: Target, mem: Memory)
      ensures Valid() && this.t == t
      ensures Abs() == State(mem, Unset, map[], map[])
    {
      this.t, this.mem, this.errno := t, mem, Unset;
      blocks, live := map[], map[];
    }

    /** The environment's `malloc`: it answers `ptr` and leaves memory as `after`. */
    method Malloc(n: nat, ptr: nat, after: Memory) returns (r: nat)
      requires MayReply(t, blocks, n, ptr) && Keeps(t, mem, after, blocks)
      modifies this`mem, this`blocks
      ensures r == ptr && mem == after
      ensures blocks == if ptr == 0 then old(blocks) else old(blocks)[ptr := n]
    {
      mem := after;
      if ptr != 0 { blocks := blocks[ptr := n]; }
      r := ptr;
    }

    /** The environment's `free`: it must be given a block that is live. */
    method Free(ptr: nat, after: Memory)
      requires ptr in blocks && Keeps(t, mem, after, blocks - {ptr})
      modifies this`mem, this`blocks
      ensures mem == after && blocks == old(blocks) - {ptr}
    {
      mem := after;
      blocks := blocks - {ptr};
    }

    /**
     `_mm_malloc (size, align)`, when `malloc` would answer `ptr` and leave memory as `after`.
     The sum handed to `malloc` wraps, as in C; when it does not, this is the ideal step.
     */
    method MmMalloc(size: nat, align: nat, ptr: nat, after: Memory) returns (p: nat)
      requires Valid() && size < t.Limit() && align < t.Limit()
      requires Reaches(size, align) ==>
                 MayReply(t, blocks, Asked(t, size, align), ptr) && Keeps(t, mem, after, blocks)
      modifies this
      ensures (Abs(), p) == Outcome(t, old(Abs()), size, align, ptr, after)
      ensures !(Reaches(size, align) && Wraps(t, size, align)) ==>
                Ideal(t, old(Abs()), Step.MmMalloc(size, align, ptr, after), Abs(), p)
    {
      PowerTestIff(t, align);
      RaisedBound(t, align);
      if !(Reaches(size, align) && Wraps(t, size, align)) { OutcomeIsIdeal(t, Abs(), size, align, ptr, after); }
      var a := align;
      if PowerTest(t, a) != 0 {
        errno := EINVAL;
        return 0;
      }
      if size == 0 {
        return 0;
      }
      if a < 2 * t.Ptr() {
        a := 2 * t.Ptr();
      }
      var mallocPtr := Malloc(Add(t.Width(), size, a), ptr, after);
      if mallocPtr == 0 {
        return 0;
      }
      p := MaskedUp(t, mallocPtr, a);
      mem := Store(mem, WordBelow(t, p), t.Ptr(), mallocPtr);
      live := live[p := Grant(size, a, ptr)];
    }

    /** `_mm_free (p)`, when `free` would leave memory as `after`. */
    method MmFree(p: nat, after: Memory)
      requires Valid() && Legal(t, Abs(), Step.MmFree(p, after))
      modifies this
      ensures Abs() == Next(t, old(Abs()), Step.MmFree(p, after)) && Valid()
    {
      StepKeepsInv(t, Abs(), Step.MmFree(p, after));
      if p != 0 {
        GrantWord(t, Abs(), p);
        var word := Load(mem, p - t.Ptr(), t.Ptr());
        Free(word, after);
        live := live - {p};
      }
    }

    /** A client stores one byte. */
    method ClientWrite(a: nat, b: u8)
      requires Valid() && Legal(t, Abs(), Write(a, b))
      modifies this`mem
      ensures Abs() == Next(t, old(Abs()), Write(a, b)) && Valid()
    {
      StepKeepsInv(t, Abs(), Write(a, b));
      mem := Poke(mem, a, b);
    }
  }

  /** The address of `((void **) p)[-1]`. */
  function WordBelow(t: Target, p: nat): nat
    requires p < t.Limit()
  {
    PowExceeds(t.log);
    PowMono(t.log, t.Width());
    Sub(t.Width(), p, t.Ptr())
  }

  /**
   The new heap and the result of `_mm_malloc`, for any sizes: the sums wrap as in C,
   so that after a wrapped request the word and the payload need not be in the block.
   */
  ghost function Outcome(t: Target, s: State, size: nat, align: nat, ptr: nat, after: Memory): (State, nat)
    requires align < t.Limit()
  {
    RaisedBound(t, align);
    if !AlignOk(align) then (s.(errno := EINVAL), 0)
    else if size == 0 then (s, 0)
    else if ptr == 0 then (s.(mem := after), 0)
    else
      var a := Raised(t, align);
      var p := MaskedUp(t, ptr, a);
      (State(Store(after, WordBelow(t, p), t.Ptr(), ptr), s.errno,
             s.blocks[ptr := Asked(t, size, align)], s.live[p := Grant(size, a, ptr)]), p)
  }

  /** The step from `s` to `s'`, returning `p`, is what the ideal allocator does, and keeps the invariant. */
  ghost predicate Ideal(t: Target, s: State, step: Step, s': State, p: nat)
    requires step.MmMalloc?
  {
    Legal(t, s, step) && s' == Next(t, s, step) &&
    p == Returned(t, step.size, step.align, step.ptr) && Inv(t, s')
  }

  /** Unless the request wraps, bit masks and wrapping sums do what the ideal allocator does. */
  lemma OutcomeIsIdeal(t: Target, s: State, size: nat, align: nat, ptr: nat, after: Memory)
    requires Inv(t, s) && size < t.Limit() && align < t.Limit()
    requires Reaches(size, align) ==>
               !Wraps(t, size, align) && MayReply(t, s.blocks, Asked(t, size, align), ptr) &&
               Keeps(t, s.mem, after, s.blocks)
    ensures var (s', p) := Outcome(t, s, size, align, ptr, after);
            Ideal(t, s, Step.MmMalloc(size, align, ptr, after), s', p)
  {
    var step := Step.MmMalloc(size, align, ptr, after);
    StepKeepsInv(t, s, step);
    if Reaches(size, align) && ptr != 0 {
      BlockInSpace(t, s.blocks, size + Raised(t, align), ptr);
      WordsAgree(t, size, align, ptr);
    }
  }

  /**
   An answered request, whether or not its sums wrap: the result is the wrapped sum rounded down, the
   word below it reads back as `malloc`'s pointer, and `malloc` was asked for the wrapped sum of bytes.
   */
  lemma OutcomeAccepted(t: Target, s: State, size: nat, align: nat, ptr: nat, after: Memory)
    requires Reaches(size, align) && size < t.Limit() && align < t.Limit() && 0 < ptr < t.Limit()
    ensures var (s', p) := Outcome(t, s, size, align, ptr, after);
            var a, w, l := Raised(t, align), t.Ptr(), t.Limit();
            && p == (if ptr + a < l then ptr + a else ptr + a - l) / a * a
            && Load(s'.mem, if p >= w then p - w else p + l - w, w) == ptr
            && s'.blocks == s.blocks[ptr := if size + a < l then size + a else size + a - l]
            && s'.live == s.live[p := Grant(size, a, ptr)] && s'.errno == s.errno
  {
    var k := RaisedPower(t, align);
    MaskedUpIs(t, ptr, k);
    PowExceeds(t.log);
    PowMono(t.log, t.Width());
    var (s', p) := Outcome(t, s, size, align, ptr, after);
    LoadStored(after, WordBelow(t, p), t.Ptr(), ptr);
  }

  lemma WordsAgree(t: Target, size: nat, align: nat, ptr: nat)
    requires size < t.Limit() && align < t.Limit() && Reaches(size, align) && !Wraps(t, size, align)
    requires t.Suits(ptr) && ptr + (size + Raised(t, align)) <= t.Limit()
    ensures Asked(t, size, align) == size + Raised(t, align) && Raised(t, align) < t.Limit()
    ensures MaskedUp(t, ptr, Raised(t, align)) == Above(ptr, Raised(t, align))
    ensures WordBelow(t, MaskedUp(t, ptr, Raised(t, align))) == Above(ptr, Raised(t, align)) - t.Ptr()
  {
    var k := RaisedPower(t, align);
    MaskedUpIsAbove(t, ptr, k);
    RoomForWord(t, align, ptr);
    AboveIsLarge(ptr, Pow2(k));
  }
}
