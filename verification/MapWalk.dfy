/**
 The memory-map loop of kernel.c as arithmetic on a cursor.

 The loop depends on memory only through the size field it reads at the cursor,
 so the memory is abstracted here to a function from addresses to size fields.
 */
module MapWalk {
  import opened Bits

  type u32 = x: nat | x < LIMIT

  /** The size field at each address. */
  type Sizes = u32 -> u32

  /** Unsigned 32-bit addition. */
  function Plus(x: u32, y: u32): u32 {
    if x + y < LIMIT then x + y else x + y - LIMIT
  }

  /** One pass of the loop: past as many bytes as the size field says and past the field itself. */
  function Next(z: Sizes, c: u32): u32 {
    Plus(Plus(c, z(c)), 4)
  }

  /** The cursor after `k` tests of the loop condition; it stays put once the loop has exited. */
  function Cursor(z: Sizes, start: u32, end: u32, k: nat): u32 {
    if k == 0 then start
    else
      var c := Cursor(z, start, end, k - 1);
      if c < end then Next(z, c) else c
  }

  /** No pass of the loop overflows its 32-bit addition. */
  ghost predicate NoWrap(z: Sizes, start: u32, end: u32) {
    forall k: nat :: var c := Cursor(z, start, end, k); c < end ==> c + z(c) + 4 < LIMIT
  }

  /** `n` is the number of passes that the loop makes. */
  ghost predicate Passes(z: Sizes, start: u32, end: u32, n: nat) {
    && (forall k: nat :: k < n ==> Cursor(z, start, end, k) < end)
    && Cursor(z, start, end, n) >= end
  }

  /** `s` lists the cursor at each of the first passes. */
  ghost predicate Trace(z: Sizes, start: u32, end: u32, s: seq<u32>) {
    forall k :: 0 <= k < |s| ==> s[k] == Cursor(z, start, end, k) && s[k] < end
  }

  lemma TraceGrows(z: Sizes, start: u32, end: u32, s: seq<u32>, c: u32)
    requires Trace(z, start, end, s) && c == Cursor(z, start, end, |s|) < end
    ensures Trace(z, start, end, s + [c])
  {
  }

  // ------------------------------------------------------------ termination

  /** The pass that starts at `c` moves forward. */
  ghost predicate Advances(z: Sizes, c: u32) {
    0 < Plus(z(c), 4) && c + Plus(z(c), 4) < LIMIT
  }

  /** It does so exactly when the bytes to pass, themselves a wrapping sum, are neither none nor beyond the last address. */
  lemma AdvancesIff(z: Sizes, c: u32)
    ensures Next(z, c) > c <==> Advances(z, c)
  {
  }

  /** Every pass of the loop moves forward. */
  ghost predicate Forward(z: Sizes, start: u32, end: u32) {
    forall k: nat :: var c := Cursor(z, start, end, k); c < end ==> Advances(z, c)
  }

  /** When every pass moves forward, wrapping or not, the loop ends within as many passes as there are bytes. */
  lemma ForwardTerminates(z: Sizes, start: u32, end: u32) returns (n: nat)
    requires Forward(z, start, end)
    ensures Passes(z, start, end, n)
    ensures if start < end then n <= end - start else n == 0
  {
    n := 0;
    while Cursor(z, start, end, n) < end
      invariant forall k: nat :: k < n ==> Cursor(z, start, end, k) < end
      invariant Cursor(z, start, end, n) >= start + n && (n > 0 ==> start + n <= end)
      decreases LIMIT - n
    {
      AdvancesIff(z, Cursor(z, start, end, n));
      n := n + 1;
    }
  }

  /** The remaining distance falls by at least 4 a pass. */
  lemma {:induction false} DistanceFalls(z: Sizes, start: u32, end: u32, k: nat)
    requires NoWrap(z, start, end)
    ensures Cursor(z, start, end, k) >= end || Cursor(z, start, end, k) >= start + 4 * k
    ensures Cursor(z, start, end, k) >= start
  {
    if k > 0 { DistanceFalls(z, start, end, k - 1); }
  }

  /** The loop body runs for the `k`th time only while `4 * k` is less than the length of the map. */
  lemma WalkBound(z: Sizes, start: u32, length: u32, k: nat)
    requires NoWrap(z, start, Plus(start, length))
    requires Cursor(z, start, Plus(start, length), k) < Plus(start, length)
    ensures 4 * k < length
  {
    DistanceFalls(z, start, Plus(start, length), k);
  }

  /** On any memory, unless an addition wraps, the loop ends within ceil(distance / 4) passes. */
  lemma WalkTerminates(z: Sizes, start: u32, end: u32) returns (n: nat)
    requires NoWrap(z, start, end)
    ensures Passes(z, start, end, n)
    ensures start < end ==> n <= (end - start + 3) / 4
    ensures start >= end ==> n == 0
  {
    n := 0;
    while Cursor(z, start, end, n) < end
      invariant forall k: nat :: k < n ==> Cursor(z, start, end, k) < end
      invariant start < end ==> n <= (end - start + 3) / 4
      invariant start >= end ==> n == 0
      decreases (end - start + 3) / 4 - n
    {
      assert Cursor(z, start, end, 0) == start;
      DistanceFalls(z, start, end, n);
      n := n + 1;
    }
  }

  /** A size field of -4 holds the cursor in place for ever: without `NoWrap` the loop need not end. */
  lemma {:induction false} WrapCanLoop(z: Sizes, start: u32, end: u32, k: nat)
    requires start < end && z(start) == LIMIT - 4
    ensures Cursor(z, start, end, k) == start
  {
    if k > 0 { WrapCanLoop(z, start, end, k - 1); }
  }

  /** The loop comes to its end. */
  ghost predicate Ends(z: Sizes, start: u32, end: u32) {
    exists n: nat :: Passes(z, start, end, n)
  }

  /** The loop is at one place below the end at two different times. */
  ghost predicate Repeats(z: Sizes, start: u32, end: u32) {
    exists i: nat, j: nat :: i < j && Cursor(z, start, end, i) == Cursor(z, start, end, j) < end
  }

  /** On any memory, the loop ends if and only if it never comes back to a place. */
  lemma EndsIff(z: Sizes, start: u32, end: u32)
    ensures Ends(z, start, end) <==> !Repeats(z, start, end)
  {
    if Ends(z, start, end) && Repeats(z, start, end) {
      var n: nat :| Passes(z, start, end, n);
      var i: nat, j: nat :| i < j && Cursor(z, start, end, i) == Cursor(z, start, end, j) < end;
      StaysBelow(z, start, end, i, j, n);
      assert false;
    }
    if !Ends(z, start, end) && !Repeats(z, start, end) {
      AllBelow(z, start, end, end + 1);
      var seen := Seen(z, start, end, end + 1);
      SeenBelow(seen, end);
      assert false;
    }
  }

  lemma {:induction false} SameFrom(z: Sizes, start: u32, end: u32, i: nat, j: nat, k: nat)
    requires Cursor(z, start, end, i) == Cursor(z, start, end, j)
    ensures Cursor(z, start, end, i + k) == Cursor(z, start, end, j + k)
  {
    if k > 0 { SameFrom(z, start, end, i, j, k - 1); }
  }

  /** Once the loop is at or past the end it stays there. */
  lemma {:induction false} EndStays(z: Sizes, start: u32, end: u32, n: nat, k: nat)
    requires n <= k && Cursor(z, start, end, n) >= end
    ensures Cursor(z, start, end, k) == Cursor(z, start, end, n)
  {
    if n < k { EndStays(z, start, end, n, k - 1); }
  }

  /** A loop that comes back is below the end at every later time. */
  lemma {:induction false} StaysBelow(z: Sizes, start: u32, end: u32, i: nat, j: nat, n: nat)
    requires i < j && Cursor(z, start, end, i) == Cursor(z, start, end, j) < end
    ensures Cursor(z, start, end, n) < end
    decreases n
  {
    if n < j {
      if Cursor(z, start, end, n) >= end { EndStays(z, start, end, n, j); }
    } else {
      SameFrom(z, start, end, i, j, n - j);
      StaysBelow(z, start, end, i, j, i + (n - j));
    }
  }

  lemma {:induction false} AllBelow(z: Sizes, start: u32, end: u32, n: nat)
    requires !Ends(z, start, end)
    ensures forall k: nat :: k < n ==> Cursor(z, start, end, k) < end
  {
    if n > 0 {
      AllBelow(z, start, end, n - 1);
      assert !Passes(z, start, end, n - 1);
    }
  }

  ghost predicate CursorBy(z: Sizes, start: u32, end: u32, n: nat, x: nat) {
    exists k: nat :: k < n && Cursor(z, start, end, k) == x
  }

  /** The first `n` cursors, when none comes back. */
  lemma {:induction false} Seen(z: Sizes, start: u32, end: u32, n: nat) returns (s: set<nat>)
    requires !Repeats(z, start, end) && forall k: nat :: k < n ==> Cursor(z, start, end, k) < end
    ensures |s| == n && forall x :: x in s ==> x < end && CursorBy(z, start, end, n, x)
  {
    if n == 0 {
      s := {};
    } else {
      var before := Seen(z, start, end, n - 1);
      var c := Cursor(z, start, end, n - 1);
      assert !CursorBy(z, start, end, n - 1, c);
      s := before + {c};
      assert CursorBy(z, start, end, n, c);
      forall x | x in before
        ensures CursorBy(z, start, end, n, x)
      {
        var k: nat :| k < n - 1 && Cursor(z, start, end, k) == x;
      }
    }
  }

  lemma {:induction false} SeenBelow(s: set<nat>, end: nat)
    requires forall x :: x in s ==> x < end
    ensures |s| <= end
  {
    if end > 0 {
      SeenBelow(s - {end - 1}, end - 1);
    } else {
      assert s == {};
    }
  }

  // ----------------------------------------------------------------- chains

  /** The walk from the second cursor is the rest of the walk from the first. */
  lemma {:induction false} CursorFrom(z: Sizes, start: u32, end: u32, k: nat)
    requires start < end
    ensures Cursor(z, start, end, k + 1) == Cursor(z, Next(z, start), end, k)
  {
    if k > 0 { CursorFrom(z, start, end, k - 1); }
  }

  /** From `a` to `end`, the size fields are the given lengths, each followed by the next. */
  ghost predicate Chained(z: Sizes, a: nat, end: u32, lengths: seq<nat>)
    decreases |lengths|
  {
    if lengths == [] then a == end
    else a < end && z(a) == lengths[0] && Chained(z, a + 4 + lengths[0], end, lengths[1..])
  }

  /** The address of each record of a map at `a`, given the record lengths. */
  function Starts(a: nat, lengths: seq<nat>): (s: seq<nat>)
    ensures |s| == |lengths|
    decreases |lengths|
  {
    if lengths == [] then [] else [a] + Starts(a + 4 + lengths[0], lengths[1..])
  }

  /** On a chain the cursor visits the record starts in order, and leaves exactly at the end. */
  lemma {:induction false} CursorOnChain(z: Sizes, a: u32, end: u32, lengths: seq<nat>, k: nat)
    requires Chained(z, a, end, lengths)
    ensures Cursor(z, a, end, k) == if k < |lengths| then Starts(a, lengths)[k] else end
    ensures k < |lengths| ==>
              Starts(a, lengths)[k] < end && Starts(a, lengths)[k] + lengths[k] + 4 <= end &&
              z(Starts(a, lengths)[k]) == lengths[k]
    decreases k
  {
    if lengths == [] {
      if k > 0 { CursorOnChain(z, a, end, lengths, k - 1); }
    } else {
      var next := a + 4 + lengths[0];
      assert next <= end;
      if k > 0 {
        CursorFrom(z, a, end, k - 1);
        CursorOnChain(z, next, end, lengths[1..], k - 1);
      }
    }
  }

  lemma ChainWalk(z: Sizes, a: u32, end: u32, lengths: seq<nat>)
    requires Chained(z, a, end, lengths)
    ensures NoWrap(z, a, end) && Passes(z, a, end, |lengths|)
  {
    forall k: nat
      ensures Cursor(z, a, end, k) < end ==> Cursor(z, a, end, k) + z(Cursor(z, a, end, k)) + 4 < LIMIT
      ensures k < |lengths| ==> Cursor(z, a, end, k) < end
      ensures k >= |lengths| ==> Cursor(z, a, end, k) >= end
    {
      CursorOnChain(z, a, end, lengths, k);
    }
  }

  /** A walk that leaves exactly at the end has passed over a chain. */
  lemma {:induction false} ExactExitGivesChain(z: Sizes, a: u32, end: u32, k: nat) returns (lengths: seq<nat>)
    requires NoWrap(z, a, end) && a <= end && Cursor(z, a, end, k) == end
    ensures Chained(z, a, end, lengths)
    decreases k
  {
    if a == end {
      lengths := [];
    } else {
      FirstPass(z, a, end, k);
      var rest := ExactExitGivesChain(z, a + 4 + z(a), end, k - 1);
      lengths := [z(a)] + rest;
      assert lengths[1..] == rest;
    }
  }

  lemma FirstPass(z: Sizes, a: u32, end: u32, k: nat)
    requires NoWrap(z, a, end) && a < end && Cursor(z, a, end, k) == end
    ensures k > 0 && Next(z, a) == a + 4 + z(a) <= end
    ensures NoWrap(z, Next(z, a), end) && Cursor(z, Next(z, a), end, k - 1) == end
  {
    var c := Cursor(z, a, end, 0);
    assert c == a && c + z(c) + 4 < LIMIT;
    assert NoWrap(z, Next(z, a), end) by { NoWrapFrom(z, a, end); }
    assert Cursor(z, Next(z, a), end, k - 1) == end by { CursorFrom(z, a, end, k - 1); }
    DistanceFalls(z, Next(z, a), end, k - 1);
  }

  lemma NoWrapFrom(z: Sizes, a: u32, end: u32)
    requires a < end && NoWrap(z, a, end)
    ensures NoWrap(z, Next(z, a), end)
  {
    forall k: nat
      ensures var c := Cursor(z, Next(z, a), end, k); c < end ==> c + z(c) + 4 < LIMIT
    {
      CursorFrom(z, a, end, k);
      var d := Cursor(z, a, end, k + 1);
      assert d < end ==> d + z(d) + 4 < LIMIT;
    }
  }

  /** The loop never wraps, and leaves with the cursor exactly at the end. */
  ghost predicate ExitsAtEnd(z: Sizes, a: u32, end: u32) {
    NoWrap(z, a, end) && exists n: nat :: Passes(z, a, end, n) && Cursor(z, a, end, n) == end
  }

  /** It does so if and only if what it walked was a chain of records. */
  lemma ExactExitIffChain(z: Sizes, a: u32, end: u32)
    requires a <= end
    ensures ExitsAtEnd(z, a, end) <==> exists lengths :: Chained(z, a, end, lengths)
  {
    if ExitsAtEnd(z, a, end) {
      var n: nat :| Passes(z, a, end, n) && Cursor(z, a, end, n) == end;
      var lengths := ExactExitGivesChain(z, a, end, n);
      assert exists l :: Chained(z, a, end, l) by { assert Chained(z, a, end, lengths); }
    }
    forall lengths | Chained(z, a, end, lengths)
      ensures ExitsAtEnd(z, a, end)
    {
      ChainExits(z, a, end, lengths);
    }
  }

  lemma ChainExits(z: Sizes, a: u32, end: u32, lengths: seq<nat>)
    requires Chained(z, a, end, lengths)
    ensures ExitsAtEnd(z, a, end)
  {
    ChainWalk(z, a, end, lengths);
    CursorOnChain(z, a, end, lengths, |lengths|);
  }

  // ------------------------------------------------ the walk moved by an offset

  /** One pass from matching cursors ends at matching cursors exactly when it reads the same size and does not outrun the offset. */
  lemma StepInStepIff(p: Sizes, v: Sizes, offset: u32, c: u32)
    requires c + offset < LIMIT
    ensures Next(v, c + offset) == Next(p, c) + offset <==> v(c + offset) == p(c) && Next(p, c) + offset < LIMIT
  {
  }

  ghost predicate InStepAt(p: Sizes, v: Sizes, offset: u32, start: u32, end: u32, k: nat)
    requires start + offset < LIMIT && end + offset < LIMIT
  {
    Cursor(v, start + offset, end + offset, k) == Cursor(p, start, end, k) + offset
  }

  ghost predicate RoomAt(p: Sizes, offset: u32, start: u32, end: u32, k: nat) {
    Cursor(p, start, end, k) + offset < LIMIT
  }

  /** The pass from the `k`th cursor, if there is one, reads the same size in both walks. */
  ghost predicate ReadsAlike(p: Sizes, v: Sizes, offset: u32, start: u32, end: u32, k: nat) {
    var c := Cursor(p, start, end, k);
    c < end && c + offset < LIMIT ==> v(c + offset) == p(c)
  }

  /** In step at every pass up to the `n`th. */
  ghost predicate InStepTo(p: Sizes, v: Sizes, offset: u32, start: u32, end: u32, n: nat)
    requires start + offset < LIMIT && end + offset < LIMIT
  {
    forall k: nat :: k <= n ==> InStepAt(p, v, offset, start, end, k)
  }

  /** What the original walk must do for that. */
  ghost predicate MatchedTo(p: Sizes, v: Sizes, offset: u32, start: u32, end: u32, n: nat) {
    && (forall k: nat :: k <= n ==> RoomAt(p, offset, start, end, k))
    && (forall k: nat :: k < n ==> ReadsAlike(p, v, offset, start, end, k))
  }

  /**
   Through the first `n` passes the moved walk is the original one, moved, if and
   only if every pass reads the same size in both and no size has carried the
   original cursor within `offset` of the top of the address space.
   */
  lemma {:induction false} SimulationIff(p: Sizes, v: Sizes, offset: u32, start: u32, end: u32, n: nat)
    requires start + offset < LIMIT && end + offset < LIMIT
    ensures InStepTo(p, v, offset, start, end, n) <==> MatchedTo(p, v, offset, start, end, n)
  {
    if n == 0 {
      AtStart(p, v, offset, start, end);
    } else {
      SimulationIff(p, v, offset, start, end, n - 1);
      OneMore(p, v, offset, start, end, n - 1);
      OneMoreIff(p, v, offset, start, end, n - 1);
    }
  }

  lemma AtStart(p: Sizes, v: Sizes, offset: u32, start: u32, end: u32)
    requires start + offset < LIMIT && end + offset < LIMIT
    ensures InStepTo(p, v, offset, start, end, 0) && MatchedTo(p, v, offset, start, end, 0)
  {
  }

  lemma OneMoreIff(p: Sizes, v: Sizes, offset: u32, start: u32, end: u32, n: nat)
    requires start + offset < LIMIT && end + offset < LIMIT
    ensures InStepTo(p, v, offset, start, end, n) ==>
              (InStepAt(p, v, offset, start, end, n + 1) <==>
               ReadsAlike(p, v, offset, start, end, n) && RoomAt(p, offset, start, end, n + 1))
  {
    if InStepTo(p, v, offset, start, end, n) {
      LastInStep(p, v, offset, start, end, n);
      OnePassIff(p, v, offset, start, end, n);
    }
  }

  lemma OneMore(p: Sizes, v: Sizes, offset: u32, start: u32, end: u32, n: nat)
    requires start + offset < LIMIT && end + offset < LIMIT
    ensures InStepTo(p, v, offset, start, end, n + 1) <==>
            InStepTo(p, v, offset, start, end, n) && InStepAt(p, v, offset, start, end, n + 1)
    ensures MatchedTo(p, v, offset, start, end, n + 1) <==>
            MatchedTo(p, v, offset, start, end, n) &&
            ReadsAlike(p, v, offset, start, end, n) && RoomAt(p, offset, start, end, n + 1)
  {
  }

  lemma LastInStep(p: Sizes, v: Sizes, offset: u32, start: u32, end: u32, n: nat)
    requires start + offset < LIMIT && end + offset < LIMIT
    requires InStepTo(p, v, offset, start, end, n)
    ensures InStepAt(p, v, offset, start, end, n) && RoomAt(p, offset, start, end, n)
  {
  }

  lemma OnePassIff(p: Sizes, v: Sizes, offset: u32, start: u32, end: u32, k: nat)
    requires start + offset < LIMIT && end + offset < LIMIT
    requires InStepAt(p, v, offset, start, end, k) && RoomAt(p, offset, start, end, k)
    ensures InStepAt(p, v, offset, start, end, k + 1) <==>
            ReadsAlike(p, v, offset, start, end, k) && RoomAt(p, offset, start, end, k + 1)
  {
    var c := Cursor(p, start, end, k);
    if c < end { StepInStepIff(p, v, offset, c); }
  }

  lemma {:induction false} StartsMoved(a: nat, offset: nat, lengths: seq<nat>, k: nat)
    requires k < |lengths|
    ensures Starts(a + offset, lengths)[k] == Starts(a, lengths)[k] + offset
    decreases k
  {
    if k > 0 { StartsMoved(a + 4 + lengths[0], offset, lengths[1..], k - 1); }
  }

  /** Two chains of the same lengths, an offset apart, are walked in step. */
  lemma ChainsInStep(p: Sizes, v: Sizes, offset: u32, start: u32, end: u32, lengths: seq<nat>, k: nat)
    requires start + offset < LIMIT && end + offset < LIMIT
    requires Chained(p, start, end, lengths) && Chained(v, start + offset, end + offset, lengths)
    ensures InStepAt(p, v, offset, start, end, k)
  {
    CursorOnChain(p, start, end, lengths, k);
    CursorOnChain(v, start + offset, end + offset, lengths, k);
    if k < |lengths| { StartsMoved(start, offset, lengths, k); }
  }
}
