/**
 The Multiboot memory map of kernel.c, as bytes in memory.

 A map is a run of records, each a 4-byte size followed by that many bytes.  The
 boot loader gives its physical address; `correct_mbt_info` moves the address to
 the higher half, and `kernel_main` follows the size fields from record to record.
 */
module MemoryMap {
  import opened Bits
  import opened ByteMemory
  import opened MapWalk

  /** Where the higher half starts. */
  const HIGHER_HALF: u32 := 0xC000_0000

  /** The low 4 MB of physical memory, which the higher half shows. */
  const LOW_REGION: u32 := 0x40_0000

  /** The size field of the record at `c`. */
  function SizeAt(m: Memory, c: int): u32 {
    LoadBound(m, c, 4);
    Pow32();
    Load(m, c, 4)
  }

  /** The size fields that a walk of `m` reads. */
  function SizesIn(m: Memory): Sizes {
    c => SizeAt(m, c)
  }

  // --------------------------------------------------- the kernel's methods

  /** The two fields of `multiboot_info_t` that the kernel uses. */
  class MultibootInfo {
    var mmapAddr: u32
    var mmapLength: u32

    /**
     Moves the map's address to the higher half, where any bytes that it has in the low region
     are read as well.  The address is moved up, and not round, exactly when it is below 1 GB.
     */
    method CorrectMbtInfo()
      modifies this`mmapAddr
      ensures mmapAddr == Plus(old(mmapAddr), HIGHER_HALF)
      ensures mmapAddr == old(mmapAddr) + HIGHER_HALF <==> old(mmapAddr) < 0x4000_0000
      ensures forall p: Memory, v: Memory, n: nat :: Mapped(p, v) && old(mmapAddr) + n <= LOW_REGION ==>
                Fetch(v, mmapAddr, n) == Fetch(p, old(mmapAddr), n)
    {
      mmapAddr := Plus(mmapAddr, HIGHER_HALF);
      ghost var was := old(mmapAddr);
      forall p: Memory, v: Memory, n: nat | Mapped(p, v) && was + n <= LOW_REGION
        ensures Fetch(v, mmapAddr, n) == Fetch(p, was, n)
      {
        MappedFetch(p, v, was, n);
      }
    }

    /**
     The part of `kernel_main` that walks the map in memory `v`; `visited` lists the
     cursor at each pass.  The loop must come to its end (see `MapWalk.EndsIff`).
     */
    method KernelMain(v: Memory) returns (visited: seq<u32>)
      requires var start := Plus(mmapAddr, HIGHER_HALF); Ends(SizesIn(v), start, Plus(start, mmapLength))
      modifies this`mmapAddr
      ensures mmapAddr == Plus(old(mmapAddr), HIGHER_HALF)
      ensures Passes(SizesIn(v), mmapAddr, Plus(mmapAddr, mmapLength), |visited|)
      ensures Trace(SizesIn(v), mmapAddr, Plus(mmapAddr, mmapLength), visited)
      ensures NoWrap(SizesIn(v), mmapAddr, Plus(mmapAddr, mmapLength)) && |visited| > 0 ==>
                4 * (|visited| - 1) < mmapLength
    {
      CorrectMbtInfo();
      ghost var z, start, length := SizesIn(v), mmapAddr, mmapLength;
      ghost var end := Plus(start, length);
      ghost var n: nat :| Passes(z, start, end, n);
      var mmap := mmapAddr;
      visited := [];
      while mmap < Plus(mmapAddr, mmapLength)
        invariant mmapAddr == start && mmapLength == length
        invariant mmap == Cursor(z, start, end, |visited|) && |visited| <= n
        invariant Trace(z, start, end, visited)
        decreases n - |visited|
      {
        ghost var k := |visited|;
        WalkStep(v, z, start, end, k, mmap);
        TraceGrows(z, start, end, visited, mmap);
        visited := visited + [mmap];
        mmap := Plus(Plus(mmap, SizeAt(v, mmap)), 4);
        assert |visited| == k + 1;
      }
      if NoWrap(z, start, end) && |visited| > 0 { WalkBound(z, start, length, |visited| - 1); }
    }
  }

  lemma WalkStep(m: Memory, z: Sizes, start: u32, end: u32, k: nat, c: u32)
    requires z == SizesIn(m) && c == Cursor(z, start, end, k) < end
    ensures Cursor(z, start, end, k + 1) == Plus(Plus(c, SizeAt(m, c)), 4)
  {
  }

  // ---------------------------------------------------- well-formed records

  /** The bytes of a list of records laid end to end. */
  function Encode(records: seq<seq<u8>>): seq<u8> {
    if records == [] then [] else Bytes(|records[0]|, 4) + records[0] + Encode(records[1..])
  }

  function Lengths(records: seq<seq<u8>>): (s: seq<nat>)
    ensures |s| == |records|
  {
    if records == [] then [] else [|records[0]|] + Lengths(records[1..])
  }

  /** Memory at `a` up to `end` is the map of `records`. */
  ghost predicate IsMap(m: Memory, a: u32, end: u32, records: seq<seq<u8>>) {
    a <= end && Fetch(m, a, end - a) == Encode(records)
  }

  /** The first record of a map, and what lies after it. */
  lemma FirstRecord(m: Memory, a: u32, end: u32, records: seq<seq<u8>>)
    requires IsMap(m, a, end, records) && records != []
    ensures var next := a + 4 + |records[0]|;
            next <= end && RecordAt(m, a, records[0]) && IsMap(m, next, end, records[1..])
  {
    var n := |records[0]|;
    var head, rest := Bytes(n, 4), Encode(records[1..]);
    assert Encode(records) == head + records[0] + rest;
    FetchSplit(m, a, end - a, 4);
    FetchSplit(m, a + 4, end - a - 4, n);
    assert Encode(records)[..4] == head && Encode(records)[4..4 + n] == records[0] && Encode(records)[4 + n..] == rest;
    assert Fetch(m, a, 4) == head;
    SizeOfBytes(n);
  }

  lemma SizeOfBytes(n: u32)
    ensures Value(Bytes(n, 4)) == n
  {
    ValueOfBytes(n, 4);
    Pow32();
    Reduced(n, LIMIT);
  }

  /** Memory holds `record` at `c`: its length, then its bytes. */
  ghost predicate RecordAt(m: Memory, c: int, record: seq<u8>) {
    SizeAt(m, c) == |record| && Fetch(m, c + 4, |record|) == record
  }

  /** A map of records is a chain of their lengths. */
  lemma {:induction false} MapIsChain(m: Memory, a: u32, end: u32, records: seq<seq<u8>>)
    requires IsMap(m, a, end, records)
    ensures Chained(SizesIn(m), a, end, Lengths(records))
    decreases |records|
  {
    if records != [] {
      FirstRecord(m, a, end, records);
      MapIsChain(m, a + 4 + |records[0]|, end, records[1..]);
      assert Lengths(records)[1..] == Lengths(records[1..]);
    }
  }

  /** A chain of size fields cuts memory into records. */
  lemma {:induction false} ChainIsMap(m: Memory, a: u32, end: u32, lengths: seq<nat>) returns (records: seq<seq<u8>>)
    requires Chained(SizesIn(m), a, end, lengths)
    ensures IsMap(m, a, end, records)
    decreases |lengths|
  {
    if lengths == [] {
      records := [];
    } else {
      var n := lengths[0];
      var next := a + 4 + n;
      var rest := ChainIsMap(m, next, end, lengths[1..]);
      records := [Fetch(m, a + 4, n)] + rest;
      assert records[1..] == rest;
      FetchSplit(m, a, end - a, 4);
      FetchSplit(m, a + 4, end - a - 4, n);
      assert SizesIn(m)(a) == SizeAt(m, a);
      BytesOfValue(Fetch(m, a, 4));
    }
  }

  // ------------------------------------------------------------ main results

  /** On a map of records the loop visits each record start in turn, reads each record, and leaves at the end. */
  lemma WalkVisitsRecords(m: Memory, a: u32, end: u32, records: seq<seq<u8>>)
    requires IsMap(m, a, end, records)
    ensures NoWrap(SizesIn(m), a, end) && Passes(SizesIn(m), a, end, |records|)
    ensures Cursor(SizesIn(m), a, end, |records|) == end
    ensures forall k :: 0 <= k < |records| ==>
              Cursor(SizesIn(m), a, end, k) == Starts(a, Lengths(records))[k]
  {
    var z, lengths := SizesIn(m), Lengths(records);
    MapIsChain(m, a, end, records);
    ChainWalk(z, a, end, lengths);
    forall k: nat
      ensures Cursor(z, a, end, k) == if k < |lengths| then Starts(a, lengths)[k] else end
    {
      CursorOnChain(z, a, end, lengths, k);
    }
  }

  /** What lies at record start `k` is record `k`: its length, then its bytes. */
  lemma {:induction false} RecordAtStart(m: Memory, a: u32, end: u32, records: seq<seq<u8>>, k: nat)
    requires IsMap(m, a, end, records) && k < |records|
    ensures var c := Starts(a, Lengths(records))[k];
            a <= c && c + 4 + |records[k]| <= end && RecordAt(m, c, records[k])
    decreases k
  {
    FirstRecord(m, a, end, records);
    if k > 0 { RecordAtStart(m, a + 4 + |records[0]|, end, records[1..], k - 1); }
  }

  /** The loop leaves exactly at the end, without wrapping, if and only if memory holds a map of records there. */
  lemma ExactExitIffMap(m: Memory, a: u32, end: u32)
    requires a <= end
    ensures ExitsAtEnd(SizesIn(m), a, end) <==> exists records :: IsMap(m, a, end, records)
  {
    ExactExitIffChain(SizesIn(m), a, end);
    if lengths :| Chained(SizesIn(m), a, end, lengths) {
      var records := ChainIsMap(m, a, end, lengths);
    }
    if records :| IsMap(m, a, end, records) {
      MapIsChain(m, a, end, records);
      assert exists lengths :: Chained(SizesIn(m), a, end, lengths) by {
        assert Chained(SizesIn(m), a, end, Lengths(records));
      }
    }
  }

  /** Memory holds at most one map between two addresses. */
  lemma {:induction false} MapUnique(m: Memory, a: u32, end: u32, r: seq<seq<u8>>, r': seq<seq<u8>>)
    requires IsMap(m, a, end, r) && IsMap(m, a, end, r')
    ensures r == r'
    decreases |r|
  {
    if r != [] && r' != [] {
      FirstRecord(m, a, end, r);
      FirstRecord(m, a, end, r');
      MapUnique(m, a + 4 + |r[0]|, end, r[1..], r'[1..]);
      assert r == [r[0]] + r[1..] && r' == [r'[0]] + r'[1..];
    } else {
      EmptyEncode(r);
      EmptyEncode(r');
    }
  }

  lemma EmptyEncode(r: seq<seq<u8>>)
    ensures Encode(r) == [] <==> r == []
  {
  }

  // -------------------------------------- physical and higher-half memory

  /** The higher half of `v` shows the low region of physical memory `p`. */
  ghost predicate Mapped(p: Memory, v: Memory) {
    forall a :: 0 <= a < LOW_REGION ==> v(a + HIGHER_HALF) == p(a)
  }

  lemma MappedFetch(p: Memory, v: Memory, a: nat, n: nat)
    requires Mapped(p, v) && a + n <= LOW_REGION
    ensures Fetch(v, a + HIGHER_HALF, n) == Fetch(p, a, n)
  {
    forall i | 0 <= i < n
      ensures Fetch(v, a + HIGHER_HALF, n)[i] == Fetch(p, a, n)[i]
    {
      assert v((a + i) + HIGHER_HALF) == p(a + i);
    }
  }

  /** In the first `n` passes, a size field that lies across the upper edge of the low region reads the same in both. */
  ghost predicate EdgeAlike(p: Memory, v: Memory, start: u32, end: u32, n: nat) {
    forall k: nat :: k < n && Cursor(SizesIn(p), start, end, k) + 4 > LOW_REGION ==>
      ReadsAlike(SizesIn(p), SizesIn(v), HIGHER_HALF, start, end, k)
  }

  lemma MappedReadsAlike(p: Memory, v: Memory, start: u32, end: u32, k: nat)
    requires Mapped(p, v) && Cursor(SizesIn(p), start, end, k) + 4 <= LOW_REGION
    ensures ReadsAlike(SizesIn(p), SizesIn(v), HIGHER_HALF, start, end, k)
  {
    MappedFetch(p, v, Cursor(SizesIn(p), start, end, k), 4);
  }

  /** The cursor stays below 1 GB. */
  ghost predicate RoomTo(p: Memory, start: u32, end: u32, n: nat) {
    forall k: nat :: k <= n ==> RoomAt(SizesIn(p), HIGHER_HALF, start, end, k)
  }

  /**
   For any contents of memory: through any number of passes, the walk after
   `correct_mbt_info` is the physical walk moved to the higher half if and only if
   no size field has carried the physical cursor to 1 GB or beyond, and none that
   lies across the edge of the mapped 4 MB is continued differently beyond it.
   */
  lemma HigherHalfSimulation(p: Memory, v: Memory, start: u32, end: u32, n: nat)
    requires Mapped(p, v) && start <= end <= LOW_REGION
    ensures InStepTo(SizesIn(p), SizesIn(v), HIGHER_HALF, start, end, n) <==>
            RoomTo(p, start, end, n) && EdgeAlike(p, v, start, end, n)
  {
    var zp, zv := SizesIn(p), SizesIn(v);
    SimulationIff(zp, zv, HIGHER_HALF, start, end, n);
    forall k: nat | k < n && EdgeAlike(p, v, start, end, n)
      ensures ReadsAlike(zp, zv, HIGHER_HALF, start, end, k)
    {
      if Cursor(zp, start, end, k) + 4 <= LOW_REGION { MappedReadsAlike(p, v, start, end, k); }
    }
  }

  /** A map that ends at least three bytes below the edge has no such size field. */
  lemma InsideEdge(p: Memory, v: Memory, start: u32, end: u32, n: nat)
    requires Mapped(p, v) && start <= end && end + 3 <= 0x40_0000
    ensures EdgeAlike(p, v, start, end, n)
    ensures InStepTo(SizesIn(p), SizesIn(v), HIGHER_HALF, start, end, n) <==> RoomTo(p, start, end, n)
  {
    HigherHalfSimulation(p, v, start, end, n);
  }

  /** A map of records in the low region is seen as the same map in the higher half. */
  lemma MapSeenHigher(p: Memory, v: Memory, start: u32, end: u32, records: seq<seq<u8>>)
    requires Mapped(p, v) && IsMap(p, start, end, records) && end <= LOW_REGION
    ensures IsMap(v, start + HIGHER_HALF, end + HIGHER_HALF, records)
  {
    MappedFetch(p, v, start, end - start);
  }

  /** For a map of records in the low region the two walks are in step at every pass. */
  lemma RecordsInStep(p: Memory, v: Memory, start: u32, end: u32, records: seq<seq<u8>>, k: nat)
    requires Mapped(p, v) && IsMap(p, start, end, records) && end <= LOW_REGION
    ensures InStepAt(SizesIn(p), SizesIn(v), HIGHER_HALF, start, end, k)
  {
    MapSeenHigher(p, v, start, end, records);
    MapIsChain(p, start, end, records);
    MapIsChain(v, start + HIGHER_HALF, end + HIGHER_HALF, records);
    ChainsInStep(SizesIn(p), SizesIn(v), HIGHER_HALF, start, end, Lengths(records), k);
  }

  /** A first size field of 1 GB: the physical walk is over, the higher-half walk has wrapped to low addresses. */
  lemma OvershootDiverges(p: Memory, v: Memory)
    requires Mapped(p, v) && SizeAt(p, 0) == 0x4000_0000
    ensures Cursor(SizesIn(p), 0, 8, 1) >= 8
    ensures Cursor(SizesIn(v), HIGHER_HALF, 8 + HIGHER_HALF, 1) == 4
  {
    MappedFetch(p, v, 0, 4);
    assert Cursor(SizesIn(p), 0, 8, 0) == 0;
    assert Cursor(SizesIn(v), HIGHER_HALF, 8 + HIGHER_HALF, 0) == HIGHER_HALF;
  }

  /** What the kernel sees: handed a map of records in low memory, it visits every record, moved to the higher half. */
  method WalkLowMap(info: MultibootInfo, ghost p: Memory, v: Memory, ghost records: seq<seq<u8>>)
      returns (visited: seq<u32>)
    requires info.mmapAddr + info.mmapLength <= LOW_REGION && Mapped(p, v)
    requires IsMap(p, info.mmapAddr, info.mmapAddr + info.mmapLength, records)
    modifies info`mmapAddr
    ensures |visited| == |records|
    ensures forall k :: 0 <= k < |records| ==>
              visited[k] == Starts(old(info.mmapAddr), Lengths(records))[k] + HIGHER_HALF &&
              RecordAt(v, visited[k], records[k])
  {
    ghost var a, end := info.mmapAddr, info.mmapAddr + info.mmapLength;
    ghost var a', end' := Plus(a, HIGHER_HALF), Plus(Plus(a, HIGHER_HALF), info.mmapLength);
    assert a' == a + HIGHER_HALF && end' == end + HIGHER_HALF;
    RecordsSeenHigher(p, v, a, end, records);
    visited := info.KernelMain(v);
    PassesUnique(SizesIn(v), a', end', |visited|, |records|);
  }

  lemma RecordsSeenHigher(p: Memory, v: Memory, a: u32, end: u32, records: seq<seq<u8>>)
    requires Mapped(p, v) && IsMap(p, a, end, records) && end <= LOW_REGION
    ensures NoWrap(SizesIn(v), a + HIGHER_HALF, end + HIGHER_HALF)
    ensures Passes(SizesIn(v), a + HIGHER_HALF, end + HIGHER_HALF, |records|)
    ensures forall k :: 0 <= k < |records| ==>
              Cursor(SizesIn(v), a + HIGHER_HALF, end + HIGHER_HALF, k) == Starts(a, Lengths(records))[k] + HIGHER_HALF &&
              RecordAt(v, Starts(a, Lengths(records))[k] + HIGHER_HALF, records[k])
  {
    var a', end' := a + HIGHER_HALF, end + HIGHER_HALF;
    MapSeenHigher(p, v, a, end, records);
    WalkVisitsRecords(v, a', end', records);
    forall k | 0 <= k < |records|
      ensures Cursor(SizesIn(v), a', end', k) == Starts(a, Lengths(records))[k] + HIGHER_HALF
      ensures RecordAt(v, Starts(a, Lengths(records))[k] + HIGHER_HALF, records[k])
    {
      StartsMoved(a, HIGHER_HALF, Lengths(records), k);
      RecordAtStart(v, a', end', records, k);
    }
  }

  lemma PassesUnique(z: Sizes, a: u32, end: u32, n: nat, n': nat)
    requires Passes(z, a, end, n) && Passes(z, a, end, n')
    ensures n == n'
  {
    assert n < n' ==> Cursor(z, a, end, n) < end;
    assert n' < n ==> Cursor(z, a, end, n') < end;
  }
}
