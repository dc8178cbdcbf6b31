/**
 Runs of `_mm_malloc` and `_mm_free` (include/std/mm_malloc.h) over byte memory.

 `malloc` and `free` themselves are the environment: they may rewrite any byte
 outside the blocks they have handed out, which covers allocators that keep their
 own headers in memory.  A step carries what the environment answered.

 `Next` is the ideal allocator: it is written with powers of two and least
 multiples, and it remembers which block each pointer came from.  The class in
 AlignedHeap.dfy runs the C expressions and reads the hidden word instead.
 */
module AlignedAlloc {
  import opened Bits
  import opened ByteMemory
  import opened Alignment

  datatype Errno = Unset | EINVAL

  /** What the allocator remembers of a pointer it returned. */
  datatype Grant = Grant(size: nat, align: nat, origin: nat)

  /**
   `blocks` is `malloc`'s live set: base address to length.  `live` is the set of
   aligned pointers returned and not yet freed.
   */
  datatype State = State(mem: Memory, errno: Errno, blocks: map<nat, nat>, live: map<nat, Grant>)

  datatype Step =
    | MmMalloc(size: nat, align: nat, ptr: nat, after: Memory)
    | MmFree(p: nat, after: Memory)
    | Write(a: nat, b: u8)
    | PlainMalloc(n: nat, ptr: nat, after: Memory)
    | PlainFree(block: nat, after: Memory)

  // --------------------------------------------------------- the environment

  /** The blocks, each with its slack, are inside the address space, off address 0, and pairwise disjoint. */
  ghost predicate GoodBlocks(t: Target, blocks: map<nat, nat>) {
    && (forall b :: b in blocks ==> t.slack < b && b + blocks[b] <= t.Limit())
    && (forall b, c :: b in blocks && c in blocks && b != c ==> Apart(t, b, blocks[b], c, blocks[c]))
  }

  ghost predicate Apart(t: Target, b: nat, m: nat, c: nat, n: nat) {
    b + m + t.slack <= c || c + n + t.slack <= b
  }

  /** `malloc` may answer `n` bytes at `ptr`: null, or a new block at a suitable address. */
  ghost predicate MayReply(t: Target, blocks: map<nat, nat>, n: nat, ptr: nat) {
    ptr == 0 || (ptr !in blocks && t.Suits(ptr) && GoodBlocks(t, blocks[ptr := n]))
  }

  /** The bytes of every block in `blocks`, with its slack, are the same in both memories. */
  ghost predicate Keeps(t: Target, m: Memory, m': Memory, blocks: map<nat, nat>) {
    forall b :: b in blocks ==> Same(m, m', b - t.slack, b + blocks[b])
  }

  // ------------------------------------------------------ the ideal allocator

  /** Requests that get as far as calling `malloc`. */
  ghost predicate Reaches(size: nat, align: nat) {
    AlignOk(align) && size != 0
  }

  ghost predicate Wraps(t: Target, size: nat, align: nat) {
    size + Raised(t, align) >= t.Limit()
  }

  /** The pointer that `_mm_malloc` returns when `malloc` answers `ptr`. */
  ghost function Returned(t: Target, size: nat, align: nat, ptr: nat): nat {
    if Reaches(size, align) && ptr != 0 then Above(ptr, Raised(t, align)) else 0
  }

  ghost function Next(t: Target, s: State, step: Step): State
    requires Legal(t, s, step)
  {
    match step
    case MmMalloc(size, align, ptr, after) =>
      if !AlignOk(align) then s.(errno := EINVAL)
      else if size == 0 then s
      else if ptr == 0 then s.(mem := after)
      else
        var a := Raised(t, align);
        var p := Above(ptr, a);
        s.(mem := Store(after, p - t.Ptr(), t.Ptr(), ptr),
           blocks := s.blocks[ptr := size + a],
           live := s.live[p := Grant(size, a, ptr)])
    case MmFree(p, after) =>
      if p == 0 then s
      else s.(mem := after, blocks := s.blocks - {s.live[p].origin}, live := s.live - {p})
    case Write(a, b) => s.(mem := Poke(s.mem, a, b))
    case PlainMalloc(n, ptr, after) =>
      if ptr == 0 then s.(mem := after) else s.(mem := after, blocks := s.blocks[ptr := n])
    case PlainFree(block, after) => s.(mem := after, blocks := s.blocks - {block})
  }

  /** What the clients and the environment may do. */
  ghost predicate Legal(t: Target, s: State, step: Step) {
    match step
    case MmMalloc(size, align, ptr, after) =>
      size < t.Limit() && align < t.Limit() &&
      (Reaches(size, align) ==>
         !Wraps(t, size, align) &&
         MayReply(t, s.blocks, size + Raised(t, align), ptr) && Keeps(t, s.mem, after, s.blocks))
    case MmFree(p, after) =>
      p != 0 ==> p in s.live && Keeps(t, s.mem, after, s.blocks - {s.live[p].origin})
    case Write(a, b) =>
      (exists p :: p in s.live && p <= a < p + s.live[p].size) ||
      (exists c: nat :: Foreign(s, c) && c <= a < c + s.blocks[c])
    case PlainMalloc(n, ptr, after) => MayReply(t, s.blocks, n, ptr) && Keeps(t, s.mem, after, s.blocks)
    case PlainFree(block, after) => Foreign(s, block) && Keeps(t, s.mem, after, s.blocks - {block})
  }

  /** A block that some other user of `malloc` holds. */
  ghost predicate Foreign(s: State, c: nat) {
    c in s.blocks && forall p :: p in s.live ==> s.live[p].origin != c
  }

  // -------------------------------------------------------------- invariant

  /** The word just below `p`. */
  ghost function Hidden(t: Target, m: Memory, p: nat): nat {
    Load(m, p - t.Ptr(), t.Ptr())
  }

  /** Where a grant at `p` lies in its block: the word, then the payload; and what the word says. */
  ghost predicate GoodGrant(t: Target, s: State, p: nat, g: Grant) {
    && g.size > 0
    && g.origin in s.blocks && s.blocks[g.origin] == g.size + g.align
    && g.origin + t.Ptr() <= p + t.slack && p <= g.origin + g.align && g.origin < p
    && Hidden(t, s.mem, p) == g.origin
  }

  ghost predicate Inv(t: Target, s: State) {
    && GoodBlocks(t, s.blocks)
    && (forall p :: p in s.live ==> GoodGrant(t, s, p, s.live[p]))
    && (forall p, q :: p in s.live && q in s.live && p != q ==> s.live[p].origin != s.live[q].origin)
  }

  /** A grant's word and payload lie inside its block. */
  lemma GrantInBlock(t: Target, s: State, p: nat)
    requires Inv(t, s) && p in s.live
    ensures var g := s.live[p];
            g.origin - t.slack <= p - t.Ptr() && g.origin < p && p + g.size <= g.origin + s.blocks[g.origin]
  {
    assert GoodGrant(t, s, p, s.live[p]);
  }

  /** The word below a live pointer is in the address space and names a live block. */
  lemma GrantWord(t: Target, s: State, p: nat)
    requires Inv(t, s) && p in s.live
    ensures p >= t.Ptr() && Hidden(t, s.mem, p) == s.live[p].origin && s.live[p].origin in s.blocks
  {
    assert GoodGrant(t, s, p, s.live[p]);
  }

  /** A grant stays good while its block is kept and its hidden word is not overwritten. */
  lemma GrantKept(t: Target, s: State, s': State, p: nat)
    requires Inv(t, s) && p in s.live
    requires s.live[p].origin in s'.blocks && s'.blocks[s.live[p].origin] == s.blocks[s.live[p].origin]
    requires Same(s.mem, s'.mem, p - t.Ptr(), p)
    ensures GoodGrant(t, s', p, s.live[p])
  {
    assert GoodGrant(t, s, p, s.live[p]);
    LoadSame(s.mem, s'.mem, p - t.Ptr(), t.Ptr());
  }

  lemma GoodBlocksRemove(t: Target, blocks: map<nat, nat>, b: nat)
    requires GoodBlocks(t, blocks)
    ensures GoodBlocks(t, blocks - {b})
  {
  }

  lemma WordKept(t: Target, s: State, m': Memory, p: nat)
    requires Inv(t, s) && p in s.live
    requires Same(s.mem, m', s.live[p].origin - t.slack, s.live[p].origin + s.blocks[s.live[p].origin])
    ensures Same(s.mem, m', p - t.Ptr(), p)
  {
    GrantInBlock(t, s, p);
  }

  /** A pointer into a block that `malloc` has just handed out is not yet live. */
  lemma NewPointer(t: Target, s: State, ptr: nat, n: nat, p: nat)
    requires Inv(t, s) && ptr !in s.blocks && GoodBlocks(t, s.blocks[ptr := n]) && ptr < p < ptr + n
    ensures p !in s.live
  {
    forall q | q in s.live
      ensures q != p
    {
      GrantInBlock(t, s, q);
      assert GoodGrant(t, s, q, s.live[q]);
      var c, blocks := s.live[q].origin, s.blocks[ptr := n];
      assert Apart(t, ptr, blocks[ptr], c, blocks[c]);
    }
  }

  /** Hiding `ptr` below `p`, in a new block, adds a grant and disturbs no other. */
  lemma GrantAddedKeepsInv(t: Target, s: State, s': State, after: Memory, ptr: nat, p: nat, g: Grant)
    requires Inv(t, s) && ptr !in s.blocks && GoodBlocks(t, s'.blocks) && Keeps(t, s.mem, after, s.blocks)
    requires g.origin == ptr && g.size > 0 && ptr + t.Ptr() <= p + t.slack && ptr < p <= ptr + g.align
    requires s'.blocks == s.blocks[ptr := g.size + g.align] && s'.live == s.live[p := g]
    requires s'.mem == Store(after, p - t.Ptr(), t.Ptr(), ptr)
    ensures Inv(t, s')
  {
    NewPointer(t, s, ptr, g.size + g.align, p);
    assert GoodGrant(t, s', p, g) by { NewWord(t, after, ptr, p, s'.blocks[ptr]); }
    forall q | q in s.live
      ensures GoodGrant(t, s', q, s.live[q]) && s.live[q].origin != ptr
    {
      OldGrantKept(t, s, s', after, ptr, p, q);
    }
  }

  /** Writing a word in a new block, or in its slack, leaves the grants in old blocks as they were. */
  lemma OldGrantKept(t: Target, s: State, s': State, after: Memory, ptr: nat, p: nat, q: nat)
    requires Inv(t, s) && ptr !in s.blocks && GoodBlocks(t, s'.blocks) && Keeps(t, s.mem, after, s.blocks)
    requires ptr in s'.blocks && s'.blocks == s.blocks[ptr := s'.blocks[ptr]] && q in s.live
    requires ptr + t.Ptr() <= p + t.slack && p <= ptr + s'.blocks[ptr]
    requires s'.mem == Store(after, p - t.Ptr(), t.Ptr(), ptr)
    ensures GoodGrant(t, s', q, s.live[q]) && s.live[q].origin != ptr
  {
    assert GoodGrant(t, s, q, s.live[q]);
    GrantInBlock(t, s, q);
    WordKept(t, s, after, q);
    var c := s.live[q].origin;
    assert Apart(t, ptr, s'.blocks[ptr], c, s'.blocks[c]);
    GrantKept(t, s, s', q);
  }

  lemma MmMallocKeepsInv(t: Target, s: State, size: nat, align: nat, ptr: nat, after: Memory)
    requires Inv(t, s) && Legal(t, s, MmMalloc(size, align, ptr, after))
    requires Reaches(size, align) && ptr != 0
    ensures Inv(t, Next(t, s, MmMalloc(size, align, ptr, after)))
  {
    RoomForWord(t, align, ptr);
    var a := Raised(t, align);
    GrantAddedKeepsInv(t, s, Next(t, s, MmMalloc(size, align, ptr, after)), after, ptr, Above(ptr, a), Grant(size, a, ptr));
  }

  lemma NewWord(t: Target, after: Memory, ptr: nat, p: nat, n: nat)
    requires ptr + n <= t.Limit() && 0 < n
    ensures Hidden(t, Store(after, p - t.Ptr(), t.Ptr(), ptr), p) == ptr
  {
    LoadStored(after, p - t.Ptr(), t.Ptr(), ptr);
  }

  /** Blocks other than `b` keep their grants when `b` goes back to `malloc`. */
  lemma RemoveKeepsInv(t: Target, s: State, s': State, b: nat)
    requires Inv(t, s) && Keeps(t, s.mem, s'.mem, s.blocks - {b}) && s'.blocks == s.blocks - {b}
    requires forall q :: q in s'.live ==> q in s.live && s'.live[q] == s.live[q] && s.live[q].origin != b
    ensures Inv(t, s')
  {
    GoodBlocksRemove(t, s.blocks, b);
    forall q | q in s'.live
      ensures GoodGrant(t, s', q, s'.live[q])
    {
      GrantStays(t, s, s', b, q);
    }
  }

  lemma GrantStays(t: Target, s: State, s': State, b: nat, q: nat)
    requires Inv(t, s) && Keeps(t, s.mem, s'.mem, s.blocks - {b}) && s'.blocks == s.blocks - {b}
    requires q in s.live && s.live[q].origin != b
    ensures GoodGrant(t, s', q, s.live[q])
  {
    assert GoodGrant(t, s, q, s.live[q]);
    assert s.live[q].origin in s.blocks - {b};
    WordKept(t, s, s'.mem, q);
    GrantKept(t, s, s', q);
  }

  /** Adding a block that backs no grant. */
  lemma AddKeepsInv(t: Target, s: State, s': State)
    requires Inv(t, s) && Keeps(t, s.mem, s'.mem, s.blocks) && s'.live == s.live
    requires GoodBlocks(t, s'.blocks) && forall b :: b in s.blocks ==> b in s'.blocks && s'.blocks[b] == s.blocks[b]
    ensures Inv(t, s')
  {
    forall q | q in s'.live
      ensures GoodGrant(t, s', q, s'.live[q])
    {
      assert GoodGrant(t, s, q, s.live[q]);
      WordKept(t, s, s'.mem, q);
      GrantKept(t, s, s', q);
    }
  }

  /** A client's write is outside every hidden word. */
  lemma WriteMissesWord(t: Target, s: State, a: nat, b: u8, q: nat)
    requires Inv(t, s) && Legal(t, s, Write(a, b)) && q in s.live
    ensures !(q - t.Ptr() <= a < q)
  {
    GrantInBlock(t, s, q);
    assert GoodGrant(t, s, q, s.live[q]);
    var c := s.live[q].origin;
    if p :| p in s.live && p <= a < p + s.live[p].size {
      GrantInBlock(t, s, p);
      assert GoodGrant(t, s, p, s.live[p]);
      var d := s.live[p].origin;
      assert p != q ==> Apart(t, c, s.blocks[c], d, s.blocks[d]);
    } else {
      var d: nat :| Foreign(s, d) && d <= a < d + s.blocks[d];
      assert Apart(t, c, s.blocks[c], d, s.blocks[d]);
    }
  }

  lemma WriteKeepsInv(t: Target, s: State, a: nat, b: u8)
    requires Inv(t, s) && Legal(t, s, Write(a, b))
    ensures Inv(t, Next(t, s, Write(a, b)))
  {
    var s' := Next(t, s, Write(a, b));
    forall q | q in s'.live
      ensures GoodGrant(t, s', q, s'.live[q])
    {
      assert GoodGrant(t, s, q, s.live[q]);
      WriteMissesWord(t, s, a, b, q);
      GrantKept(t, s, s', q);
    }
  }

  /** Every legal step keeps the invariant. */
  lemma StepKeepsInv(t: Target, s: State, step: Step)
    requires Inv(t, s) && Legal(t, s, step)
    ensures Inv(t, Next(t, s, step))
  {
    var s' := Next(t, s, step);
    match step
    case MmMalloc(size, align, ptr, after) =>
      if Reaches(size, align) {
        if ptr == 0 { AddKeepsInv(t, s, s'); } else { MmMallocKeepsInv(t, s, size, align, ptr, after); }
      } else {
        SameBacking(t, s, s');
      }
    case MmFree(p, after) =>
      if p == 0 { SameBacking(t, s, s'); } else { RemoveKeepsInv(t, s, s', s.live[p].origin); }
    case Write(a, b) => WriteKeepsInv(t, s, a, b);
    case PlainMalloc(n, ptr, after) => AddKeepsInv(t, s, s');
    case PlainFree(block, after) => RemoveKeepsInv(t, s, s', block);
  }

  lemma SameBacking(t: Target, s: State, s': State)
    requires Inv(t, s) && s'.mem == s.mem && s'.blocks == s.blocks && s'.live == s.live
    ensures Inv(t, s')
  {
    forall q | q in s'.live
      ensures GoodGrant(t, s', q, s'.live[q])
    {
      assert GoodGrant(t, s, q, s.live[q]);
    }
  }

  // ------------------------------------------------------------------- runs

  ghost predicate LegalRun(t: Target, s: State, steps: seq<Step>)
    decreases |steps|
  {
    steps == [] || (Legal(t, s, steps[0]) && LegalRun(t, Next(t, s, steps[0]), steps[1..]))
  }

  ghost function Run(t: Target, s: State, steps: seq<Step>): State
    requires LegalRun(t, s, steps)
    decreases |steps|
  {
    if steps == [] then s else Run(t, Next(t, s, steps[0]), steps[1..])
  }

  /** The invariant holds in every state of every run. */
  lemma {:induction false} RunKeepsInv(t: Target, s: State, steps: seq<Step>)
    requires Inv(t, s) && LegalRun(t, s, steps)
    ensures Inv(t, Run(t, s, steps))
    decreases |steps|
  {
    if steps != [] {
      StepKeepsInv(t, s, steps[0]);
      RunKeepsInv(t, Next(t, s, steps[0]), steps[1..]);
    }
  }
}
