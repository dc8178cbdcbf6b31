/**
 What every run of the aligned allocator guarantees, from any good starting state.
 */
module AllocRuns {
  import opened Bits
  import opened ByteMemory
  import opened Alignment
  import opened AlignedAlloc

  // ------------------------------------------------------------- one request

  /** A successful request: the least multiple above, a word below, the payload inside the block. */
  lemma AcceptedPointer(t: Target, s: State, size: nat, align: nat, ptr: nat, after: Memory)
    requires Inv(t, s) && Legal(t, s, MmMalloc(size, align, ptr, after))
    requires Returned(t, size, align, ptr) != 0
    ensures GoodPointer(t, align, ptr, Returned(t, size, align, ptr))
    ensures Returned(t, size, align, ptr) + size <= ptr + (size + Raised(t, align)) <= t.Limit()
  {
    BlockInSpace(t, s.blocks, size + Raised(t, align), ptr);
    PointerFacts(t, align, ptr);
  }

  lemma BlockInSpace(t: Target, blocks: map<nat, nat>, n: nat, ptr: nat)
    requires MayReply(t, blocks, n, ptr) && ptr != 0
    ensures ptr + n <= t.Limit()
  {
    assert ptr in blocks[ptr := n];
  }

  /** The pointer returned is not one that is still live. */
  lemma AcceptedIsNew(t: Target, s: State, size: nat, align: nat, ptr: nat, after: Memory)
    requires Inv(t, s) && Legal(t, s, MmMalloc(size, align, ptr, after))
    ensures Returned(t, size, align, ptr) !in s.live
  {
    assert forall q :: q in s.live ==> GoodGrant(t, s, q, s.live[q]) && q > 0;
    if Reaches(size, align) && ptr != 0 {
      RoomForWord(t, align, ptr);
      NewPointer(t, s, ptr, size + Raised(t, align), Above(ptr, Raised(t, align)));
    }
  }

  /** A refused or failed request changes no block, no grant and no byte of any block. */
  lemma RefusedChangesNothing(t: Target, s: State, size: nat, align: nat, ptr: nat, after: Memory)
    requires Inv(t, s) && Legal(t, s, MmMalloc(size, align, ptr, after))
    ensures var s' := Next(t, s, MmMalloc(size, align, ptr, after));
            && (Returned(t, size, align, ptr) == 0 <==> !AlignOk(align) || size == 0 || ptr == 0)
            && (Returned(t, size, align, ptr) == 0 ==>
                  s'.blocks == s.blocks && s'.live == s.live && Keeps(t, s.mem, s'.mem, s.blocks))
            && (!Reaches(size, align) ==> s'.mem == s.mem)
            && s'.errno == if AlignOk(align) then s.errno else EINVAL
  {
    if Reaches(size, align) && ptr != 0 { RoomForWord(t, align, ptr); }
  }

  lemma AddRemove<T>(m: map<nat, T>, k: nat, x: T)
    requires k !in m
    ensures m[k := x] - {k} == m
  {
  }

  /** Freeing what was just obtained gives `malloc` back exactly the blocks it had. */
  lemma MallocThenFree(t: Target, s: State, size: nat, align: nat, ptr: nat, after: Memory, after': Memory)
    requires Inv(t, s) && Legal(t, s, MmMalloc(size, align, ptr, after))
    requires var s1 := Next(t, s, MmMalloc(size, align, ptr, after));
             Legal(t, s1, MmFree(Returned(t, size, align, ptr), after'))
    ensures var s1 := Next(t, s, MmMalloc(size, align, ptr, after));
            var s2 := Next(t, s1, MmFree(Returned(t, size, align, ptr), after'));
            s2.blocks == s.blocks && s2.live == s.live
  {
    RefusedChangesNothing(t, s, size, align, ptr, after);
    if Returned(t, size, align, ptr) != 0 {
      AcceptedIsNew(t, s, size, align, ptr, after);
      AddRemove(s.blocks, ptr, size + Raised(t, align));
      AddRemove(s.live, Returned(t, size, align, ptr), Grant(size, Raised(t, align), ptr));
    }
  }

  // --------------------------------------------------------- every state

  /** The bytes of a grant: its hidden word and its payload. */
  ghost predicate InFootprint(t: Target, s: State, p: nat, a: int)
    requires p in s.live
  {
    p - t.Ptr() <= a < p + s.live[p].size
  }

  /** No byte belongs to two grants, nor to a grant and another user's block; each lies in its own block. */
  lemma FootprintsDisjoint(t: Target, s: State, p: nat, a: int)
    requires Inv(t, s) && p in s.live && InFootprint(t, s, p, a)
    ensures var g := s.live[p]; g.origin in s.blocks && g.origin - t.slack <= a < g.origin + s.blocks[g.origin]
    ensures forall q :: q in s.live && q != p ==> !InFootprint(t, s, q, a)
    ensures forall c: nat :: Foreign(s, c) ==> !(c <= a < c + s.blocks[c])
  {
    GrantInBlock(t, s, p);
    assert GoodGrant(t, s, p, s.live[p]);
    var o := s.live[p].origin;
    forall q | q in s.live && q != p
      ensures !InFootprint(t, s, q, a)
    {
      GrantInBlock(t, s, q);
      assert GoodGrant(t, s, q, s.live[q]);
      assert Apart(t, o, s.blocks[o], s.live[q].origin, s.blocks[s.live[q].origin]);
    }
    forall c: nat | Foreign(s, c)
      ensures !(c <= a < c + s.blocks[c])
    {
      assert Apart(t, o, s.blocks[o], c, s.blocks[c]);
    }
  }

  /** The word that `_mm_free(p)` reads names the block that backs `p`, which is live and backs nothing else. */
  lemma FreeGetsOwnBlock(t: Target, s: State, steps: seq<Step>, p: nat)
    requires Inv(t, s) && LegalRun(t, s, steps) && p in Run(t, s, steps).live
    ensures var s' := Run(t, s, steps);
            var word := Hidden(t, s'.mem, p);
            && word == s'.live[p].origin && word in s'.blocks
            && (forall q :: q in s'.live && q != p ==> s'.live[q].origin != word)
  {
    RunKeepsInv(t, s, steps);
    var s' := Run(t, s, steps);
    assert GoodGrant(t, s', p, s'.live[p]);
  }

  /** `p` was live at the start, or the pointer now hidden below it is what `malloc` answered when `p` was made. */
  ghost predicate From(t: Target, s: State, steps: seq<Step>, p: nat, g: Grant) {
    (p in s.live && s.live[p] == g && forall i :: 0 <= i < |steps| ==> !IsFree(steps[i], p))
    || exists j :: MadeAt(t, steps, j, p, g)
  }

  ghost predicate IsFree(step: Step, p: nat) {
    step.MmFree? && step.p == p
  }

  ghost predicate MadeAt(t: Target, steps: seq<Step>, j: int, p: nat, g: Grant) {
    && 0 <= j < |steps| && steps[j].MmMalloc?
    && Returned(t, steps[j].size, steps[j].align, steps[j].ptr) == p != 0
    && g == Grant(steps[j].size, Raised(t, steps[j].align), steps[j].ptr)
    && GoodPointer(t, steps[j].align, steps[j].ptr, p)
    && forall i :: j < i < |steps| ==> !IsFree(steps[i], p)
  }

  /** Each live pointer comes from one `_mm_malloc` of the run that has not been freed since, or was there before. */
  lemma {:induction false} Provenance(t: Target, s: State, steps: seq<Step>, p: nat)
    requires Inv(t, s) && LegalRun(t, s, steps) && p in Run(t, s, steps).live
    ensures From(t, s, steps, p, Run(t, s, steps).live[p])
    decreases |steps|
  {
    if steps != [] {
      var s1, rest, g := Next(t, s, steps[0]), steps[1..], Run(t, s, steps).live[p];
      StepKeepsInv(t, s, steps[0]);
      Provenance(t, s1, rest, p);
      if j :| MadeAt(t, rest, j, p, g) {
        forall i | j + 1 < i < |steps|
          ensures !IsFree(steps[i], p)
        {
          assert !IsFree(rest[i - 1], p);
        }
        assert MadeAt(t, steps, j + 1, p, g);
      } else {
        forall i | 1 <= i < |steps|
          ensures !IsFree(steps[i], p)
        {
          assert !IsFree(rest[i - 1], p);
        }
        if !(p in s.live && s.live[p] == g) {
          MadeByStep(t, s, steps[0], p);
          assert MadeAt(t, steps, 0, p, g);
        }
      }
    }
  }

  lemma MadeByStep(t: Target, s: State, step: Step, p: nat)
    requires Inv(t, s) && Legal(t, s, step)
    requires var s' := Next(t, s, step); p in s'.live && !(p in s.live && s.live[p] == s'.live[p])
    ensures step.MmMalloc? && Returned(t, step.size, step.align, step.ptr) == p != 0
    ensures Next(t, s, step).live[p] == Grant(step.size, Raised(t, step.align), step.ptr)
    ensures GoodPointer(t, step.align, step.ptr, p)
  {
    match step
    case MmMalloc(size, align, ptr, after) =>
      RefusedChangesNothing(t, s, size, align, ptr, after);
      AcceptedPointer(t, s, size, align, ptr, after);
    case MmFree(q, after) =>
    case Write(a, b) =>
    case PlainMalloc(n, ptr, after) =>
    case PlainFree(block, after) =>
  }

  // ------------------------------------------------------------ conservation

  /** The pointer that a step obtains from `malloc`. */
  ghost function Obtained(step: Step): multiset<nat> {
    match step
    case MmMalloc(size, align, ptr, after) =>
      if Reaches(size, align) && ptr != 0 then multiset{ptr} else multiset{}
    case PlainMalloc(n, ptr, after) => if ptr != 0 then multiset{ptr} else multiset{}
    case _ => multiset{}
  }

  /** The pointer that a step passes to `free`: for `_mm_free`, the word it reads from memory. */
  ghost function Freed(t: Target, s: State, step: Step): multiset<nat> {
    match step
    case MmFree(p, after) => if p != 0 then multiset{Hidden(t, s.mem, p)} else multiset{}
    case PlainFree(block, after) => multiset{block}
    case _ => multiset{}
  }

  ghost function AllObtained(steps: seq<Step>): multiset<nat> {
    if steps == [] then multiset{} else Obtained(steps[0]) + AllObtained(steps[1..])
  }

  ghost function AllFreed(t: Target, s: State, steps: seq<Step>): multiset<nat>
    requires LegalRun(t, s, steps)
    decreases |steps|
  {
    if steps == [] then multiset{} else Freed(t, s, steps[0]) + AllFreed(t, Next(t, s, steps[0]), steps[1..])
  }

  lemma StepBalances(t: Target, s: State, step: Step)
    requires Inv(t, s) && Legal(t, s, step)
    ensures multiset(s.blocks.Keys) + Obtained(step) == multiset(Next(t, s, step).blocks.Keys) + Freed(t, s, step)
  {
    var s' := Next(t, s, step);
    match step
    case MmMalloc(size, align, ptr, after) =>
      if Reaches(size, align) && ptr != 0 { KeyAdded(s.blocks, ptr, size + Raised(t, align)); }
    case MmFree(p, after) =>
      if p != 0 {
        assert GoodGrant(t, s, p, s.live[p]);
        KeyRemoved(s.blocks, s.live[p].origin);
      }
    case Write(a, b) =>
    case PlainMalloc(n, ptr, after) => if ptr != 0 { KeyAdded(s.blocks, ptr, n); }
    case PlainFree(block, after) => KeyRemoved(s.blocks, block);
  }

  lemma KeyAdded(blocks: map<nat, nat>, b: nat, n: nat)
    requires b !in blocks
    ensures multiset(blocks[b := n].Keys) == multiset(blocks.Keys) + multiset{b}
  {
    assert blocks[b := n].Keys == blocks.Keys + {b};
  }

  lemma KeyRemoved(blocks: map<nat, nat>, b: nat)
    requires b in blocks
    ensures multiset(blocks.Keys) == multiset((blocks - {b}).Keys) + multiset{b}
  {
    assert (blocks - {b}).Keys == blocks.Keys - {b};
  }

  /** Over any run, what was live plus what was obtained is what is live plus what was freed: no block is lost or freed twice. */
  lemma {:induction false} Ledger(t: Target, s: State, steps: seq<Step>)
    requires Inv(t, s) && LegalRun(t, s, steps)
    ensures multiset(s.blocks.Keys) + AllObtained(steps)
         == multiset(Run(t, s, steps).blocks.Keys) + AllFreed(t, s, steps)
    decreases |steps|
  {
    if steps != [] {
      var s1, end := Next(t, s, steps[0]), Run(t, s, steps);
      StepBalances(t, s, steps[0]);
      StepKeepsInv(t, s, steps[0]);
      Ledger(t, s1, steps[1..]);
      AddBalances(multiset(s.blocks.Keys), Obtained(steps[0]), multiset(s1.blocks.Keys), Freed(t, s, steps[0]),
                  AllObtained(steps[1..]), multiset(end.blocks.Keys), AllFreed(t, s1, steps[1..]));
    }
  }

  lemma AddBalances(k0: multiset<nat>, o: multiset<nat>, k1: multiset<nat>, f: multiset<nat>,
                    o': multiset<nat>, k2: multiset<nat>, f': multiset<nat>)
    requires k0 + o == k1 + f && k1 + o' == k2 + f'
    ensures k0 + (o + o') == k2 + (f + f')
  {
    assert k0 + (o + o') == (k0 + o) + o';
    assert (k1 + f) + o' == (k1 + o') + f;
    assert (k2 + f') + f == k2 + (f + f');
  }

  /** The blocks that other users of `malloc` hold. */
  ghost function ForeignBlocks(s: State): map<nat, nat> {
    map b | b in s.blocks && Foreign(s, b) :: s.blocks[b]
  }

  /** No other user calls `malloc` or `free` during the run. */
  ghost predicate AlignedOnly(steps: seq<Step>) {
    forall i :: 0 <= i < |steps| ==> !steps[i].PlainMalloc? && !steps[i].PlainFree?
  }

  lemma StepKeepsForeign(t: Target, s: State, step: Step)
    requires Inv(t, s) && Legal(t, s, step) && !step.PlainMalloc? && !step.PlainFree?
    ensures ForeignBlocks(Next(t, s, step)) == ForeignBlocks(s)
  {
    forall b: nat
      ensures ForeignAlike(s, Next(t, s, step), b)
    {
      StepForeign(t, s, step, b);
    }
    AlikeBlocks(s, Next(t, s, step));
  }

  ghost predicate ForeignAlike(s: State, s': State, b: nat) {
    (Foreign(s', b) <==> Foreign(s, b)) && (Foreign(s, b) ==> s'.blocks[b] == s.blocks[b])
  }

  lemma AlikeBlocks(s: State, s': State)
    requires forall b: nat :: ForeignAlike(s, s', b)
    ensures ForeignBlocks(s') == ForeignBlocks(s)
  {
    forall b: nat
      ensures b in ForeignBlocks(s') <==> b in ForeignBlocks(s)
      ensures b in ForeignBlocks(s) ==> ForeignBlocks(s')[b] == ForeignBlocks(s)[b]
    {
      assert ForeignAlike(s, s', b);
    }
  }

  lemma StepForeign(t: Target, s: State, step: Step, b: nat)
    requires Inv(t, s) && Legal(t, s, step) && !step.PlainMalloc? && !step.PlainFree?
    ensures ForeignAlike(s, Next(t, s, step), b)
  {
    match step
    case MmMalloc(size, align, ptr, after) =>
      RefusedChangesNothing(t, s, size, align, ptr, after);
      AcceptedIsNew(t, s, size, align, ptr, after);
      if Reaches(size, align) && ptr != 0 {
        var up := Raised(t, align);
        GrantAdded(s, Next(t, s, step), Above(ptr, up), Grant(size, up, ptr), size + up, b);
      }
    case MmFree(p, after) =>
      if p != 0 {
        assert GoodGrant(t, s, p, s.live[p]);
        GrantRemoved(s, Next(t, s, step), p, b);
      }
    case Write(a, c) =>
  }

  lemma GrantAdded(s: State, s': State, p: nat, g: Grant, n: nat, b: nat)
    requires p !in s.live && g.origin !in s.blocks && s'.live == s.live[p := g]
    requires s'.blocks == s.blocks[g.origin := n]
    ensures Foreign(s', b) <==> Foreign(s, b)
    ensures Foreign(s, b) ==> s'.blocks[b] == s.blocks[b]
  {
    assert s'.live[p] == g;
    assert forall q :: q in s.live ==> q in s'.live && s'.live[q] == s.live[q];
    assert forall q :: q in s'.live ==> q == p || q in s.live;
  }

  lemma GrantRemoved(s: State, s': State, p: nat, b: nat)
    requires p in s.live && s'.live == s.live - {p} && s'.blocks == s.blocks - {s.live[p].origin}
    ensures Foreign(s', b) <==> Foreign(s, b)
    ensures Foreign(s, b) ==> s'.blocks[b] == s.blocks[b]
  {
    assert forall q :: q in s'.live ==> q in s.live && s'.live[q] == s.live[q];
    assert forall q :: q in s.live && q != p ==> q in s'.live;
  }

  /** When every aligned pointer has been freed, `malloc`'s live set is what other users held at the start. */
  lemma {:induction false} FreeingAllRestores(t: Target, s: State, steps: seq<Step>)
    requires Inv(t, s) && LegalRun(t, s, steps) && AlignedOnly(steps)
    ensures ForeignBlocks(Run(t, s, steps)) == ForeignBlocks(s)
    ensures Run(t, s, steps).live == map[] ==> Run(t, s, steps).blocks == ForeignBlocks(s)
    decreases |steps|
  {
    if steps == [] {
      if s.live == map[] { assert forall b :: b in s.blocks ==> Foreign(s, b); }
    } else {
      StepKeepsForeign(t, s, steps[0]);
      StepKeepsInv(t, s, steps[0]);
      FreeingAllRestores(t, Next(t, s, steps[0]), steps[1..]);
    }
  }

  /** The blocks behind the live aligned pointers. */
  ghost function Origins(s: State): set<nat> {
    set p | p in s.live.Keys :: s.live[p].origin
  }

  /** Live aligned pointers and the blocks that are not other users' correspond one to one. */
  lemma OneToOne(t: Target, s: State)
    requires Inv(t, s)
    ensures Origins(s) == s.blocks.Keys - ForeignBlocks(s).Keys
    ensures forall p, q :: p in s.live && q in s.live && s.live[p].origin == s.live[q].origin ==> p == q
    ensures |s.blocks| == |s.live| + |ForeignBlocks(s)|
  {
    var foreign := ForeignBlocks(s).Keys;
    OriginsAre(t, s);
    OriginsCount(s.live, s.live.Keys);
    UnionCount(Origins(s), foreign, s.blocks.Keys);
    assert |foreign| == |ForeignBlocks(s)|;
  }

  lemma OriginsAre(t: Target, s: State)
    requires Inv(t, s)
    ensures Origins(s) == s.blocks.Keys - ForeignBlocks(s).Keys
  {
    forall b: nat
      ensures b in Origins(s) <==> b in s.blocks && !Foreign(s, b)
    {
      if b in Origins(s) {
        var p :| p in s.live && s.live[p].origin == b;
        assert GoodGrant(t, s, p, s.live[p]);
      }
    }
  }

  lemma UnionCount(x: set<nat>, y: set<nat>, z: set<nat>)
    requires forall b: nat :: b in z <==> b in x || b in y
    requires forall b: nat :: !(b in x && b in y)
    ensures |z| == |x| + |y|
  {
    assert z == x + y && x !! y;
  }

  lemma {:induction false} OriginsCount(live: map<nat, Grant>, ps: set<nat>)
    requires ps <= live.Keys
    requires forall p, q :: p in live && q in live && p != q ==> live[p].origin != live[q].origin
    ensures |set p | p in ps :: live[p].origin| == |ps|
  {
    if ps != {} {
      var p :| p in ps;
      OriginsCount(live, ps - {p});
      assert (set q | q in ps :: live[q].origin) == (set q | q in ps - {p} :: live[q].origin) + {live[p].origin};
    }
  }

  // -------------------------------------------------------------- client data

  /** Nothing but a client's own write changes a payload byte of a pointer that stays live. */
  lemma StepKeepsPayload(t: Target, s: State, step: Step, p: nat, a: nat)
    requires Inv(t, s) && Legal(t, s, step) && p in s.live && p <= a < p + s.live[p].size
    requires !IsFree(step, p) && !(step.Write? && step.a == a)
    ensures var s' := Next(t, s, step); p in s'.live && s'.live[p] == s.live[p] && s'.mem(a) == s.mem(a)
  {
    if step.MmMalloc? {
      MallocKeepsPayload(t, s, step.size, step.align, step.ptr, step.after, p, a);
    } else {
      OtherStepKeepsPayload(t, s, step, p, a);
    }
  }

  lemma OtherStepKeepsPayload(t: Target, s: State, step: Step, p: nat, a: nat)
    requires Inv(t, s) && Legal(t, s, step) && p in s.live && p <= a < p + s.live[p].size
    requires !step.MmMalloc? && !IsFree(step, p) && !(step.Write? && step.a == a)
    ensures var s' := Next(t, s, step); p in s'.live && s'.live[p] == s.live[p] && s'.mem(a) == s.mem(a)
  {
    assert GoodGrant(t, s, p, s.live[p]);
    match step
    case MmFree(q, after) => if q != 0 { KeptByte(t, s, s.blocks - {s.live[q].origin}, after, p, a); }
    case Write(c, b) =>
    case PlainMalloc(n, ptr, after) => KeptByte(t, s, s.blocks, after, p, a);
    case PlainFree(block, after) => KeptByte(t, s, s.blocks - {block}, after, p, a);
  }

  /** A byte of a live payload is kept as long as its block is. */
  lemma KeptByte(t: Target, s: State, kept: map<nat, nat>, after: Memory, p: nat, a: nat)
    requires Inv(t, s) && p in s.live && p <= a < p + s.live[p].size
    requires s.live[p].origin in kept && kept[s.live[p].origin] == s.blocks[s.live[p].origin]
    requires Keeps(t, s.mem, after, kept)
    ensures after(a) == s.mem(a)
  {
    GrantInBlock(t, s, p);
    var o := s.live[p].origin;
    assert Same(s.mem, after, o - t.slack, o + kept[o]);
  }

  lemma MallocKeepsPayload(t: Target, s: State, size: nat, align: nat, ptr: nat, after: Memory, p: nat, a: nat)
    requires Inv(t, s) && Legal(t, s, MmMalloc(size, align, ptr, after))
    requires p in s.live && p <= a < p + s.live[p].size
    ensures var s' := Next(t, s, MmMalloc(size, align, ptr, after));
            p in s'.live && s'.live[p] == s.live[p] && s'.mem(a) == s.mem(a)
  {
    if Reaches(size, align) && ptr != 0 {
      AcceptedIsNew(t, s, size, align, ptr, after);
      RoomForWord(t, align, ptr);
      OldByteKept(t, s, size + Raised(t, align), ptr, after, Above(ptr, Raised(t, align)), p, a);
    }
  }

  /** A byte of a live payload is kept by `malloc`, and by a word written in the new block or its slack. */
  lemma OldByteKept(t: Target, s: State, n: nat, ptr: nat, after: Memory, p': nat, p: nat, a: nat)
    requires Inv(t, s) && MayReply(t, s.blocks, n, ptr) && ptr != 0 && Keeps(t, s.mem, after, s.blocks)
    requires p in s.live && p <= a < p + s.live[p].size
    requires ptr + t.Ptr() <= p' + t.slack && p' <= ptr + n
    ensures Store(after, p' - t.Ptr(), t.Ptr(), ptr)(a) == s.mem(a)
  {
    GrantInBlock(t, s, p);
    assert GoodGrant(t, s, p, s.live[p]);
    var o, blocks := s.live[p].origin, s.blocks[ptr := n];
    assert Apart(t, ptr, blocks[ptr], o, blocks[o]);
    StoreMisses(after, p' - t.Ptr(), t.Ptr(), ptr, a);
  }

  lemma StoreMisses(m: Memory, at: int, n: nat, v: nat, a: int)
    requires !(at <= a < at + n)
    ensures Store(m, at, n, v)(a) == m(a)
  {
  }

  /** Over any run: bytes that the client does not write, of a pointer it does not free, keep their values. */
  lemma {:induction false} DataSurvives(t: Target, s: State, steps: seq<Step>, p: nat, a: nat)
    requires Inv(t, s) && LegalRun(t, s, steps) && p in s.live && p <= a < p + s.live[p].size
    requires forall i :: 0 <= i < |steps| ==> !IsFree(steps[i], p) && !(steps[i].Write? && steps[i].a == a)
    ensures p in Run(t, s, steps).live && Run(t, s, steps).mem(a) == s.mem(a)
    decreases |steps|
  {
    if steps != [] {
      StepKeepsPayload(t, s, steps[0], p, a);
      StepKeepsInv(t, s, steps[0]);
      DataSurvives(t, Next(t, s, steps[0]), steps[1..], p, a);
    }
  }

  /** A byte written into a live payload is read back after any such run, and the write itself changes nothing else. */
  lemma WrittenIsRead(t: Target, s: State, steps: seq<Step>, p: nat, a: nat, b: u8)
    requires Inv(t, s) && p in s.live && p <= a < p + s.live[p].size
    requires Legal(t, s, Write(a, b)) && LegalRun(t, Next(t, s, Write(a, b)), steps)
    requires forall i :: 0 <= i < |steps| ==> !IsFree(steps[i], p) && !(steps[i].Write? && steps[i].a == a)
    ensures Run(t, Next(t, s, Write(a, b)), steps).mem(a) == b
    ensures forall x :: x != a ==> Next(t, s, Write(a, b)).mem(x) == s.mem(x)
  {
    StepKeepsInv(t, s, Write(a, b));
    DataSurvives(t, Next(t, s, Write(a, b)), steps, p, a);
  }

  /** Over any run `errno` becomes `EINVAL` if some request has a bad alignment, and changes for nothing else. */
  lemma {:induction false} ErrnoOverRuns(t: Target, s: State, steps: seq<Step>)
    requires LegalRun(t, s, steps)
    ensures Run(t, s, steps).errno ==
            if exists i :: 0 <= i < |steps| && BadAlign(steps[i]) then EINVAL else s.errno
    decreases |steps|
  {
    if steps != [] {
      var rest := steps[1..];
      ErrnoOverRuns(t, Next(t, s, steps[0]), rest);
      assert forall i :: 0 <= i < |rest| ==> rest[i] == steps[i + 1];
      assert forall i :: 0 < i < |steps| ==> steps[i] == rest[i - 1];
    }
  }

  ghost predicate BadAlign(step: Step) {
    step.MmMalloc? && !AlignOk(step.align)
  }
}
