/**
 One heap of libc/stdlib_memory.c as a list of blocks: each a 20-byte control
 block followed by its bytes, filling the heap from end to end.
 */
module HeapChain {
  import opened Bits

  /** `sizeof (MM_CONTROL_BLOCK)`: four words, a one-byte flag and three bytes of padding. */
  const MCB: nat := 20

  datatype Block = Block(size: nat, free: bool)

  // ------------------------------------------------------------- the layout

  function Span(bs: seq<Block>): nat {
    if bs == [] then 0 else MCB + bs[0].size + Span(bs[1..])
  }

  /** Which control blocks some memory holds: at address `h`, one that describes `b`. */
  type Mark = (nat, Block) -> bool

  /** The control blocks of `bs` are there, one after the other from `a` on. */
  ghost predicate LaidBy(mark: Mark, a: nat, bs: seq<Block>)
    decreases |bs|
  {
    bs == [] || (mark(a, bs[0]) && LaidBy(mark, a + MCB + bs[0].size, bs[1..]))
  }

  /** In a heap at `a`, some block in use has its `n` bytes at `p`. */
  ghost predicate LiveIn(a: nat, bs: seq<Block>, p: nat, n: nat)
    decreases |bs|
  {
    bs != [] &&
    ((!bs[0].free && p == a + MCB && n == bs[0].size) || LiveIn(a + MCB + bs[0].size, bs[1..], p, n))
  }

  /** No block in use is empty. */
  ghost predicate NoneEmpty(bs: seq<Block>) {
    bs == [] || ((bs[0].free || bs[0].size > 0) && NoneEmpty(bs[1..]))
  }

  ghost predicate AllFree(bs: seq<Block>) {
    bs == [] || (bs[0].free && AllFree(bs[1..]))
  }

  lemma {:induction false} NoneEmptyApp(xs: seq<Block>, ys: seq<Block>)
    ensures NoneEmpty(xs + ys) <==> NoneEmpty(xs) && NoneEmpty(ys)
  {
    if xs == [] {
      assert xs + ys == ys;
    } else {
      assert (xs + ys)[1..] == xs[1..] + ys;
      NoneEmptyApp(xs[1..], ys);
    }
  }

  lemma {:induction false} AllFreeApp(xs: seq<Block>, ys: seq<Block>)
    ensures AllFree(xs + ys) <==> AllFree(xs) && AllFree(ys)
  {
    if xs == [] {
      assert xs + ys == ys;
    } else {
      assert (xs + ys)[1..] == xs[1..] + ys;
      AllFreeApp(xs[1..], ys);
    }
  }

  lemma NoneEmptyParts(pre: seq<Block>, b: Block, post: seq<Block>)
    ensures NoneEmpty(pre + ([b] + post)) <==> NoneEmpty(pre) && (b.free || b.size > 0) && NoneEmpty(post)
  {
    NoneEmptyApp(pre, [b] + post);
    assert ([b] + post)[1..] == post;
  }

  lemma {:induction false} SpanApp(xs: seq<Block>, ys: seq<Block>)
    ensures Span(xs + ys) == Span(xs) + Span(ys)
  {
    if xs == [] {
      assert xs + ys == ys;
    } else {
      assert (xs + ys)[1..] == xs[1..] + ys;
      SpanApp(xs[1..], ys);
    }
  }

  lemma {:induction false} LaidApp(mark: Mark, a: nat, xs: seq<Block>, ys: seq<Block>)
    ensures LaidBy(mark, a, xs + ys) <==> LaidBy(mark, a, xs) && LaidBy(mark, a + Span(xs), ys)
    decreases |xs|
  {
    if xs == [] {
      assert xs + ys == ys;
    } else {
      assert (xs + ys)[1..] == xs[1..] + ys;
      LaidApp(mark, a + MCB + xs[0].size, xs[1..], ys);
    }
  }

  lemma {:induction false} LiveApp(a: nat, xs: seq<Block>, ys: seq<Block>, p: nat, n: nat)
    ensures LiveIn(a, xs + ys, p, n) <==> LiveIn(a, xs, p, n) || LiveIn(a + Span(xs), ys, p, n)
    decreases |xs|
  {
    if xs == [] {
      assert xs + ys == ys;
    } else {
      assert (xs + ys)[1..] == xs[1..] + ys;
      LiveApp(a + MCB + xs[0].size, xs[1..], ys, p, n);
    }
  }

  /** Control blocks that lie wholly between `lo` and `hi` stay. */
  ghost predicate Preserves(mark: Mark, mark': Mark, lo: nat, hi: nat) {
    forall h: nat, b :: mark(h, b) && lo <= h && h + MCB <= hi ==> mark'(h, b)
  }

  lemma {:induction false} LaidKept(mark: Mark, mark': Mark, a: nat, bs: seq<Block>)
    requires LaidBy(mark, a, bs) && Preserves(mark, mark', a, a + Span(bs))
    ensures LaidBy(mark', a, bs)
    decreases |bs|
  {
    if bs != [] { LaidKept(mark, mark', a + MCB + bs[0].size, bs[1..]); }
  }

  /** A heap is laid out when its three parts are. */
  lemma LaidParts(mark: Mark, a: nat, pre: seq<Block>, mid: seq<Block>, post: seq<Block>)
    ensures LaidBy(mark, a, pre + mid + post) <==>
            LaidBy(mark, a, pre) && LaidBy(mark, a + Span(pre), mid) && LaidBy(mark, a + Span(pre) + Span(mid), post)
  {
    LaidApp(mark, a, pre + mid, post);
    LaidApp(mark, a, pre, mid);
    SpanApp(pre, mid);
  }

  /** Replacing the middle part by blocks over the same bytes. */
  lemma ReplaceLaidBy(mark: Mark, mark': Mark, a: nat, pre: seq<Block>, was: seq<Block>, mid: seq<Block>, post: seq<Block>)
    requires LaidBy(mark, a, pre + was + post) && Span(mid) == Span(was)
    requires LaidBy(mark', a + Span(pre), mid)
    requires Preserves(mark, mark', a, a + Span(pre))
    requires Preserves(mark, mark', a + Span(pre) + Span(was), a + Span(pre) + Span(was) + Span(post))
    ensures LaidBy(mark', a, pre + mid + post)
  {
    LaidParts(mark, a, pre, was, post);
    LaidKept(mark, mark', a, pre);
    LaidKept(mark, mark', a + Span(pre) + Span(was), post);
    LaidParts(mark', a, pre, mid, post);
  }

  lemma LaidByOne(mark: Mark, a: nat, b: Block)
    ensures LaidBy(mark, a, [b]) <==> mark(a, b)
  {
    assert [b][1..] == [];
  }

  lemma LaidByTwo(mark: Mark, a: nat, b: Block, c: Block)
    requires mark(a, b) && mark(a + MCB + b.size, c)
    ensures LaidBy(mark, a, [b, c])
  {
    LaidByOne(mark, a + MCB + b.size, c);
    assert [b, c][1..] == [c];
  }

  lemma SpanOne(b: Block)
    ensures Span([b]) == MCB + b.size
  {
    assert [b][1..] == [];
  }

  lemma {:induction false} LiveBounds(a: nat, bs: seq<Block>, p: nat, n: nat)
    requires LiveIn(a, bs, p, n)
    ensures a + MCB <= p && p + n <= a + Span(bs)
    decreases |bs|
  {
    if !(!bs[0].free && p == a + MCB && n == bs[0].size) {
      LiveBounds(a + MCB + bs[0].size, bs[1..], p, n);
    }
  }

  /** Two blocks in use are apart, with the control block of the later one between them. */
  lemma {:induction false} LiveApart(a: nat, bs: seq<Block>, p: nat, n: nat, q: nat, m: nat)
    requires LiveIn(a, bs, p, n) && LiveIn(a, bs, q, m)
    ensures p == q ==> n == m
    ensures p != q ==> p + n + MCB <= q || q + m + MCB <= p
    decreases |bs|
  {
    var next, rest := a + MCB + bs[0].size, bs[1..];
    if LiveIn(next, rest, p, n) { LiveBounds(next, rest, p, n); }
    if LiveIn(next, rest, q, m) { LiveBounds(next, rest, q, m); }
    if LiveIn(next, rest, p, n) && LiveIn(next, rest, q, m) { LiveApart(next, rest, p, n, q, m); }
  }

  // ------------------------------------------------------------- allocation

  /** A free block with room for `n` bytes and another control block. */
  predicate Fits(b: Block, n: nat) {
    b.free && b.size >= n + MCB
  }

  /** `size + sizeof (MM_CONTROL_BLOCK)`, as the 32-bit sum of the search's test. */
  function Need(n: nat): nat
    requires n < LIMIT
  {
    if n + MCB < LIMIT then n + MCB else n + MCB - LIMIT
  }

  /** The test of the search. */
  predicate Passes(b: Block, n: nat)
    requires n < LIMIT
  {
    b.free && b.size >= Need(n)
  }

  ghost predicate NonePasses(bs: seq<Block>, n: nat)
    requires n < LIMIT
  {
    bs == [] || (!Passes(bs[0], n) && NonePasses(bs[1..], n))
  }

  /**
   A block that passes the test has room for the bytes asked for if and only if the sum did not
   wrap.  It is never of exactly that size.
   */
  lemma PassesMeansFitsIff(b: Block, n: nat)
    requires 0 < n < LIMIT && b.size + MCB < LIMIT
    ensures Fits(b, n) ==> Passes(b, n)
    ensures Passes(b, n) ==> (Fits(b, n) <==> n + MCB < LIMIT) && (n <= b.size <==> n + MCB < LIMIT) && n != b.size
  {
  }

  lemma {:induction false} NonePassesApp(xs: seq<Block>, ys: seq<Block>, n: nat)
    requires n < LIMIT
    ensures NonePasses(xs + ys, n) <==> NonePasses(xs, n) && NonePasses(ys, n)
  {
    if xs == [] {
      assert xs + ys == ys;
    } else {
      assert (xs + ys)[1..] == xs[1..] + ys;
      NonePassesApp(xs[1..], ys, n);
    }
  }

  lemma {:induction false} NonePassesIff(bs: seq<Block>, n: nat)
    requires n < LIMIT
    ensures NonePasses(bs, n) <==> forall b :: b in bs ==> !Passes(b, n)
  {
    if bs != [] {
      NonePassesIff(bs[1..], n);
      assert bs == bs[..1] + bs[1..];
    }
  }

  /** What a block leaves when `n` bytes are cut from it. */
  function Halves(b: Block, n: nat): seq<Block>
    requires Fits(b, n)
  {
    [Block(n, false), Block(b.size - n - MCB, true)]
  }

  datatype Carved = NoRoom | Carved(blocks: seq<Block>, off: nat)

  /** The first block that fits is cut in two; `off` is where the bytes obtained start. */
  function Alloc(bs: seq<Block>, n: nat): Carved {
    if bs == [] then NoRoom
    else if Fits(bs[0], n) then Carved(Halves(bs[0], n) + bs[1..], MCB)
    else Beyond(bs[..1], Alloc(bs[1..], n))
  }

  /** A result found beyond the blocks `pre`. */
  function Beyond(pre: seq<Block>, r: Carved): Carved {
    match r
    case NoRoom => NoRoom
    case Carved(blocks, off) => Carved(pre + blocks, Span(pre) + off)
  }

  /** Taking the next block off `rest` and onto `pre`. */
  lemma TakeNext(pre: seq<Block>, rest: seq<Block>)
    requires rest != []
    ensures pre + rest == pre + ([rest[0]] + rest[1..]) == (pre + [rest[0]]) + rest[1..]
    ensures [rest[0]] + rest[1..] == rest
    ensures Span(pre + [rest[0]]) == Span(pre) + MCB + rest[0].size
  {
    assert rest == [rest[0]] + rest[1..];
    SpanApp(pre, [rest[0]]);
    SpanOne(rest[0]);
  }

  /** A block that does not fit is passed over. */
  lemma AllocPast(b: Block, rest: seq<Block>, n: nat)
    requires !Fits(b, n)
    ensures Alloc([b] + rest, n) == match Alloc(rest, n)
                                    case NoRoom => NoRoom
                                    case Carved(blocks, off) => Carved([b] + blocks, MCB + b.size + off)
  {
    assert ([b] + rest)[..1] == [b] && ([b] + rest)[1..] == rest;
    SpanOne(b);
  }

  /** The block at which the search stops. */
  lemma AllocHere(b: Block, rest: seq<Block>, n: nat)
    requires Fits(b, n)
    ensures Alloc([b] + rest, n) == Carved(Halves(b, n) + rest, MCB)
  {
    assert ([b] + rest)[1..] == rest;
  }

  /** Where the bytes of the first block that passes the test start. */
  ghost function PassAt(bs: seq<Block>, n: nat): nat
    requires n < LIMIT && !NonePasses(bs, n)
  {
    if Passes(bs[0], n) then MCB else MCB + bs[0].size + PassAt(bs[1..], n)
  }

  lemma {:induction false} PassAtFirst(pre: seq<Block>, b: Block, post: seq<Block>, n: nat)
    requires n < LIMIT && NonePasses(pre, n) && Passes(b, n)
    ensures !NonePasses(pre + ([b] + post), n) && PassAt(pre + ([b] + post), n) == Span(pre) + MCB
  {
    var tail := [b] + post;
    if pre == [] {
      assert pre + tail == tail;
    } else {
      assert (pre + tail)[1..] == pre[1..] + tail;
      PassAtFirst(pre[1..], b, post, n);
    }
  }

  lemma {:induction false} AllocAtPass(bs: seq<Block>, n: nat)
    requires n + MCB < LIMIT && !NonePasses(bs, n)
    ensures Alloc(bs, n).Carved? && Alloc(bs, n).off == PassAt(bs, n)
  {
    if !Passes(bs[0], n) {
      AllocAtPass(bs[1..], n);
      assert Span(bs[..1]) == MCB + bs[0].size by { assert bs[..1][1..] == []; }
    }
  }

  /** Unless the sum wraps, there is no room exactly when no block passes the test of the search. */
  lemma {:induction false} NoRoomIff(bs: seq<Block>, n: nat)
    requires n + MCB < LIMIT
    ensures Alloc(bs, n).NoRoom? <==> NonePasses(bs, n)
    ensures Alloc(bs, n).NoRoom? <==> forall b :: b in bs ==> !Passes(b, n)
  {
    NonePassesIff(bs, n);
    if bs != [] { NoRoomIff(bs[1..], n); }
  }

  /** The first block that passes the test is the one that is cut. */
  lemma {:induction false} FirstIsCut(pre: seq<Block>, b: Block, post: seq<Block>, n: nat)
    requires n + MCB < LIMIT && NonePasses(pre, n) && Passes(b, n)
    ensures Fits(b, n) && Alloc(pre + ([b] + post), n) == Carved(pre + (Halves(b, n) + post), Span(pre) + MCB)
  {
    var tail := [b] + post;
    if pre == [] {
      assert pre + tail == tail && pre + (Halves(b, n) + post) == Halves(b, n) + post;
      AllocHere(b, post, n);
    } else {
      var more := pre[1..];
      assert pre + tail == [pre[0]] + (more + tail);
      assert pre + (Halves(b, n) + post) == [pre[0]] + (more + (Halves(b, n) + post));
      FirstIsCut(more, b, post, n);
      AllocPast(pre[0], more + tail, n);
    }
  }

  lemma HalvesSpan(b: Block, n: nat)
    requires Fits(b, n)
    ensures Span(Halves(b, n)) == Span([b])
  {
    var left := [Block(b.size - n - MCB, true)];
    assert Halves(b, n)[1..] == left;
    assert Span(left) == MCB + left[0].size by { assert left[1..] == []; }
    assert [b][1..] == [];
  }

  lemma {:induction false} AllocSpan(bs: seq<Block>, n: nat)
    requires Alloc(bs, n).Carved?
    ensures Span(Alloc(bs, n).blocks) == Span(bs)
  {
    if Fits(bs[0], n) {
      HalvesSpan(bs[0], n);
      SpanApp(Halves(bs[0], n), bs[1..]);
    } else {
      AllocSpan(bs[1..], n);
      SpanApp(bs[..1], Alloc(bs[1..], n).blocks);
    }
  }

  /** Allocation adds exactly the block obtained to those in use. */
  lemma {:induction false} AllocLive(a: nat, bs: seq<Block>, n: nat, p: nat, m: nat)
    requires Alloc(bs, n).Carved?
    ensures LiveIn(a, Alloc(bs, n).blocks, p, m)
       <==> LiveIn(a, bs, p, m) || (p == a + Alloc(bs, n).off && m == n)
    decreases |bs|
  {
    if Fits(bs[0], n) {
      var two := Halves(bs[0], n);
      HalvesSpan(bs[0], n);
      LiveApp(a, two, bs[1..], p, m);
      assert two[1..][1..] == [];
    } else {
      var next := a + MCB + bs[0].size;
      AllocLive(next, bs[1..], n, p, m);
      LiveApp(a, bs[..1], Alloc(bs[1..], n).blocks, p, m);
      assert bs[..1][1..] == [];
    }
  }

  /** The address obtained was not one already in use. */
  lemma {:induction false} AllocFresh(a: nat, bs: seq<Block>, n: nat, m: nat)
    requires Alloc(bs, n).Carved?
    ensures Alloc(bs, n).off >= MCB && !LiveIn(a, bs, a + Alloc(bs, n).off, m)
    decreases |bs|
  {
    var next := a + MCB + bs[0].size;
    var p := a + Alloc(bs, n).off;
    if LiveIn(next, bs[1..], p, m) { LiveBounds(next, bs[1..], p, m); }
    if !Fits(bs[0], n) {
      SpanOne(bs[0]);
      assert bs[..1] == [bs[0]];
      AllocFresh(next, bs[1..], n, m);
    }
  }

  // ---------------------------------------------------------------- freeing

  /** The blocks from the first that is in use. */
  function DropFree(bs: seq<Block>): (r: seq<Block>)
    ensures Span(r) <= Span(bs)
  {
    if bs != [] && bs[0].free then DropFree(bs[1..]) else bs
  }

  /** One free block over the block whose bytes start at `off` and the free blocks that follow it. */
  function Release(bs: seq<Block>, off: nat): seq<Block> {
    if bs == [] then []
    else if off == MCB then
      [Block(bs[0].size + (Span(bs[1..]) - Span(DropFree(bs[1..]))), true)] + DropFree(bs[1..])
    else if off < MCB + bs[0].size then bs
    else bs[..1] + Release(bs[1..], off - MCB - bs[0].size)
  }

  lemma {:induction false} DropRun(run: seq<Block>, post: seq<Block>)
    requires AllFree(run) && (post == [] || !post[0].free)
    ensures DropFree(run + post) == post
    decreases |run|
  {
    if run == [] {
      assert run + post == post;
    } else {
      assert (run + post)[1..] == run[1..] + post;
      DropRun(run[1..], post);
    }
  }

  /** Freeing the block after `pre`, when `run` are the free blocks that follow it. */
  lemma {:induction false} ReleaseHere(pre: seq<Block>, b: Block, run: seq<Block>, post: seq<Block>)
    requires AllFree(run) && (post == [] || !post[0].free)
    ensures Release(pre + ([b] + (run + post)), Span(pre) + MCB)
         == pre + ([Block(b.size + Span(run), true)] + post)
    decreases |pre|
  {
    var tail, one := [b] + (run + post), [Block(b.size + Span(run), true)];
    if pre == [] {
      assert pre + tail == tail && pre + (one + post) == one + post;
      ReleaseFirst(b, run, post);
    } else {
      var more := pre[1..];
      assert pre + tail == [pre[0]] + (more + tail);
      assert pre + (one + post) == [pre[0]] + (more + (one + post));
      ReleaseHere(more, b, run, post);
      ReleaseBeyond(pre[0], more + tail, Span(more) + MCB);
    }
  }

  lemma ReleaseFirst(b: Block, run: seq<Block>, post: seq<Block>)
    requires AllFree(run) && (post == [] || !post[0].free)
    ensures Release([b] + (run + post), MCB) == [Block(b.size + Span(run), true)] + post
  {
    assert ([b] + (run + post))[1..] == run + post;
    DropRun(run, post);
    SpanApp(run, post);
  }

  lemma ReleaseBeyond(x: Block, rest: seq<Block>, off: nat)
    requires off >= MCB
    ensures Release([x] + rest, MCB + x.size + off) == [x] + Release(rest, off)
  {
    assert ([x] + rest)[1..] == rest && ([x] + rest)[..1] == [x];
  }

  /** The block in use whose bytes are at `p`, and the blocks on either side of it. */
  lemma {:induction false} FindLive(a: nat, bs: seq<Block>, p: nat, n: nat)
      returns (pre: seq<Block>, b: Block, post: seq<Block>)
    requires LiveIn(a, bs, p, n)
    ensures bs == pre + ([b] + post) && b == Block(n, false) && p == a + Span(pre) + MCB
    decreases |bs|
  {
    if !bs[0].free && p == a + MCB && n == bs[0].size {
      pre, b, post := [], bs[0], bs[1..];
    } else {
      pre, b, post := FindLive(a + MCB + bs[0].size, bs[1..], p, n);
      var all := bs[..1] + pre;
      assert all[1..] == pre;
      pre := all;
    }
  }

  lemma {:induction false} ReleaseSpan(bs: seq<Block>, off: nat)
    ensures Span(Release(bs, off)) == Span(bs)
  {
    if bs != [] && off != MCB && off >= MCB + bs[0].size {
      ReleaseSpan(bs[1..], off - MCB - bs[0].size);
      SpanApp(bs[..1], Release(bs[1..], off - MCB - bs[0].size));
    }
  }

  lemma {:induction false} DropFreeLive(a: nat, bs: seq<Block>, p: nat, m: nat)
    ensures LiveIn(a + (Span(bs) - Span(DropFree(bs))), DropFree(bs), p, m) <==> LiveIn(a, bs, p, m)
    decreases |bs|
  {
    if bs != [] && bs[0].free { DropFreeLive(a + MCB + bs[0].size, bs[1..], p, m); }
  }

  /** Freeing removes exactly the block freed from those in use. */
  lemma {:induction false} ReleaseLive(a: nat, bs: seq<Block>, off: nat, n: nat, p: nat, m: nat)
    requires LiveIn(a, bs, a + off, n)
    ensures LiveIn(a, Release(bs, off), p, m) <==> LiveIn(a, bs, p, m) && p != a + off
    decreases |bs|
  {
    var next, rest := a + MCB + bs[0].size, bs[1..];
    if LiveIn(next, rest, p, m) { LiveBounds(next, rest, p, m); }
    if LiveIn(next, rest, a + off, n) { LiveBounds(next, rest, a + off, n); }
    if off == MCB {
      DropFreeLive(next, rest, p, m);
      var r := Release(bs, off);
      assert r[1..] == DropFree(rest);
    } else {
      ReleaseLive(next, rest, off - MCB - bs[0].size, n, p, m);
      LiveApp(a, bs[..1], Release(rest, off - MCB - bs[0].size), p, m);
      assert bs[..1][1..] == [];
    }
  }

  // ---------------------------------------------- the effect on callers' blocks

  /** From `bs` to `bs'` exactly the `n0` bytes at `p0` come into use. */
  ghost predicate Adds(a: nat, bs: seq<Block>, bs': seq<Block>, p0: nat, n0: nat) {
    forall p: nat, n: nat {:trigger LiveIn(a, bs, p, n)} {:trigger LiveIn(a, bs', p, n)} ::
      (LiveIn(a, bs', p, n) <==> LiveIn(a, bs, p, n) || (p == p0 && n == n0)) && (p == p0 ==> !LiveIn(a, bs, p, n))
  }

  /** From `bs` to `bs'` exactly the block at `p0` goes out of use. */
  ghost predicate Removes(a: nat, bs: seq<Block>, bs': seq<Block>, p0: nat) {
    forall p: nat, n: nat :: LiveIn(a, bs', p, n) <==> LiveIn(a, bs, p, n) && p != p0
  }

  lemma AllocAdds(a: nat, bs: seq<Block>, n: nat)
    requires Alloc(bs, n).Carved?
    ensures Adds(a, bs, Alloc(bs, n).blocks, a + Alloc(bs, n).off, n)
  {
    forall p: nat, m: nat
      ensures LiveIn(a, Alloc(bs, n).blocks, p, m)
         <==> LiveIn(a, bs, p, m) || (p == a + Alloc(bs, n).off && m == n)
      ensures p == a + Alloc(bs, n).off ==> !LiveIn(a, bs, p, m)
    {
      AllocLive(a, bs, n, p, m);
      AllocFresh(a, bs, n, m);
    }
  }

  lemma ReleaseRemoves(a: nat, bs: seq<Block>, off: nat, n: nat)
    requires LiveIn(a, bs, a + off, n)
    ensures Removes(a, bs, Release(bs, off), a + off)
  {
    forall p: nat, m: nat
      ensures LiveIn(a, Release(bs, off), p, m) <==> LiveIn(a, bs, p, m) && p != a + off
    {
      ReleaseLive(a, bs, off, n, p, m);
    }
  }

  // -------------------------------------------------------------- round trip

  /** The block that allocation would cut is not followed by another free one. */
  ghost predicate NoFreeAfterFit(bs: seq<Block>, n: nat)
    decreases |bs|
  {
    bs != [] && if Fits(bs[0], n) then |bs| == 1 || !bs[1].free else NoFreeAfterFit(bs[1..], n)
  }

  /** Freeing what was just obtained gives back the very same blocks if and only if no free block follows the one cut. */
  lemma {:induction false} AllocThenRelease(bs: seq<Block>, n: nat)
    requires Alloc(bs, n).Carved? && n > 0
    ensures Release(Alloc(bs, n).blocks, Alloc(bs, n).off) == bs <==> NoFreeAfterFit(bs, n)
  {
    var r := Alloc(bs, n);
    if Fits(bs[0], n) {
      var rest := r.blocks[1..];
      assert rest == [Block(bs[0].size - n - MCB, true)] + bs[1..];
      assert rest[1..] == bs[1..];
      assert DropFree(rest) == DropFree(bs[1..]);
      DropFreeIs(bs[1..]);
    } else {
      var tail := Alloc(bs[1..], n);
      AllocThenRelease(bs[1..], n);
      AllocOff(bs[1..], n);
      assert r.blocks[..1] == bs[..1] && r.blocks[1..] == tail.blocks;
      assert bs == bs[..1] + bs[1..];
      assert Span(bs[..1]) == MCB + bs[0].size by { assert bs[..1][1..] == []; }
      var back := Release(tail.blocks, tail.off);
      assert Release(r.blocks, r.off) == bs[..1] + back;
      assert (bs[..1] + back)[1..] == back;
    }
  }

  lemma {:induction false} AllocOff(bs: seq<Block>, n: nat)
    requires Alloc(bs, n).Carved?
    ensures Alloc(bs, n).off >= MCB
  {
  }

  lemma DropFreeIs(bs: seq<Block>)
    ensures DropFree(bs) == bs <==> bs == [] || !bs[0].free
  {
    if bs != [] && bs[0].free { DropFreeShorter(bs[1..]); }
  }

  lemma {:induction false} DropFreeShorter(bs: seq<Block>)
    ensures |DropFree(bs)| <= |bs|
  {
    if bs != [] && bs[0].free { DropFreeShorter(bs[1..]); }
  }

  // ------------------------------------------------- are pointers word aligned?

  /** Every block of a heap at `a` has its bytes at a multiple of a pointer's size. */
  ghost predicate PointersAligned(a: nat, bs: seq<Block>)
    decreases |bs|
  {
    bs == [] || ((a + MCB) % 4 == 0 && PointersAligned(a + MCB + bs[0].size, bs[1..]))
  }

  /** `malloc` does not round sizes: a request keeps all pointers aligned if and only if it is for whole words. */
  lemma {:induction false} AllocKeepsAlignmentIff(a: nat, bs: seq<Block>, n: nat)
    requires PointersAligned(a, bs) && Alloc(bs, n).Carved?
    ensures PointersAligned(a, Alloc(bs, n).blocks) <==> n % 4 == 0
    decreases |bs|
  {
    var next, rest, r := a + MCB + bs[0].size, bs[1..], Alloc(bs, n);
    if Fits(bs[0], n) {
      var tail := [Block(bs[0].size - n - MCB, true)] + rest;
      assert r.blocks[1..] == tail && tail[1..] == rest;
      assert PointersAligned(a + MCB + n, tail) <==> (a + MCB + n + MCB) % 4 == 0 && PointersAligned(next, rest);
    } else {
      AllocKeepsAlignmentIff(next, rest, n);
      assert r.blocks[1..] == Alloc(rest, n).blocks;
    }
  }

  /** `free` keeps them aligned whatever the sizes. */
  lemma {:induction false} ReleaseKeepsAlignment(a: nat, bs: seq<Block>, off: nat)
    requires PointersAligned(a, bs)
    ensures PointersAligned(a, Release(bs, off))
    decreases |bs|
  {
    if bs != [] {
      var next, rest, r := a + MCB + bs[0].size, bs[1..], Release(bs, off);
      if off == MCB {
        DropFreeAligned(next, rest);
        assert r[1..] == DropFree(rest);
      } else if off >= MCB + bs[0].size {
        ReleaseKeepsAlignment(next, rest, off - MCB - bs[0].size);
        assert r[1..] == Release(rest, off - MCB - bs[0].size);
      }
    }
  }

  lemma {:induction false} DropFreeAligned(a: nat, bs: seq<Block>)
    requires PointersAligned(a, bs)
    ensures PointersAligned(a + (Span(bs) - Span(DropFree(bs))), DropFree(bs))
    decreases |bs|
  {
    if bs != [] && bs[0].free { DropFreeAligned(a + MCB + bs[0].size, bs[1..]); }
  }

  /** In an aligned heap the pointer obtained is aligned. */
  lemma {:induction false} AllocAligned(a: nat, bs: seq<Block>, n: nat)
    requires PointersAligned(a, bs) && Alloc(bs, n).Carved?
    ensures (a + Alloc(bs, n).off) % 4 == 0
    decreases |bs|
  {
    if !Fits(bs[0], n) {
      AllocAligned(a + MCB + bs[0].size, bs[1..], n);
      assert Span(bs[..1]) == MCB + bs[0].size by { assert bs[..1][1..] == []; }
    }
  }

  /** The first two answers in a new heap: the second is out of line by as much as the first size is. */
  lemma SecondAnswer(a: nat, size: nat, n: nat, k: nat)
    requires a % 4 == 0 && size >= n + k + 2 * MCB
    ensures var first := Alloc([Block(size, true)], n);
            first.Carved? && first.off == 20 &&
            var second := Alloc(first.blocks, k);
            second.Carved? && second.off == 40 + n && (a + second.off) % 4 == n % 4
  {
    var b, left := Block(size, true), Block(size - n - MCB, true);
    AllocHere(b, [], n);
    assert [b] + [] == [b];
    assert Halves(b, n) + [] == [Block(n, false)] + ([left] + []);
    AllocHere(left, [], k);
    AllocPast(Block(n, false), [left] + [], k);
  }

  /** A request for 1 byte and then one for 4: the second pointer is not word-aligned. */
  lemma UnalignedAnswer(a: nat, size: nat)
    requires a % 4 == 0 && size >= 5 + 2 * MCB
    ensures var first := Alloc([Block(size, true)], 1);
            first.Carved? && var second := Alloc(first.blocks, 4); second.Carved? && (a + second.off) % 4 == 1
  {
    SecondAnswer(a, size, 1, 4);
  }
}
