/**
 The 256-bit integer lane functions of include/std/avxintrin.h.

 A vector is its bytes, lowest address first.  The functions reach a lane in two
 steps, a 128-bit half and a lane inside it; the lemmas show that this is plain
 indexing into one flat array of lanes, at each of the three lane widths.
 */
module Avx {
  import opened Bits
  import opened ByteMemory

  ghost predicate Vec256(x: seq<u8>) { |x| == 32 }

  ghost predicate Vec128(y: seq<u8>) { |y| == 16 }

  // ---------------------------------------------- the compiler's primitives

  /** A C integer stored in a lane of `k` bytes: two's complement, reduced to the lane. */
  function Trunc(k: nat, d: int): (r: nat)
    ensures r < Pow2(8 * k)
  {
    d % Pow2(8 * k)
  }

  /** A lane read back as a signed C integer. */
  function Signed(k: nat, v: nat): int
    requires k > 0
  {
    if v < Pow2(8 * k - 1) then v else v - Pow2(8 * k)
  }

  /** `__builtin_ia32_vextractf128_si256` */
  function Half(x: seq<u8>, h: nat): (y: seq<u8>)
    requires Vec256(x) && h < 2
    ensures Vec128(y)
  {
    if h == 0 then x[..16] else x[16..]
  }

  /** `__builtin_ia32_vinsertf128_si256` */
  function WithHalf(x: seq<u8>, y: seq<u8>, h: nat): (r: seq<u8>)
    requires Vec256(x) && Vec128(y) && h < 2
    ensures Vec256(r)
  {
    if h == 0 then y + x[16..] else x[..16] + y
  }

  /** `s` with lane `i` of `k` bytes replaced: `__builtin_ia32_vec_set_*` when `s` is a half. */
  function Put(k: nat, s: seq<u8>, d: int, i: nat): (r: seq<u8>)
    requires k * i + k <= |s|
    ensures |r| == |s|
  {
    s[..k * i] + Bytes(Trunc(k, d), k) + s[k * i + k..]
  }

  /** The unsigned value of lane `i` of `k` bytes: `__builtin_ia32_vec_ext_*`. */
  function Get(k: nat, s: seq<u8>, i: nat): nat
    requires k * i + k <= |s|
  {
    Value(s[k * i..k * i + k])
  }

  // ------------------------------------------------------ the header's code

  function InsertEpi32(x: seq<u8>, d: int, n: nat): (r: seq<u8>)
    requires Vec256(x) && n < 8
    ensures Vec256(r)
  {
    var y := Half(x, n / 4);
    var y' := Put(4, y, d, n % 4);
    WithHalf(x, y', n / 4)
  }

  function InsertEpi16(x: seq<u8>, d: int, n: nat): (r: seq<u8>)
    requires Vec256(x) && n < 16
    ensures Vec256(r)
  {
    var y := Half(x, n / 8);
    var y' := Put(2, y, d, n % 8);
    WithHalf(x, y', n / 8)
  }

  function InsertEpi8(x: seq<u8>, d: int, n: nat): (r: seq<u8>)
    requires Vec256(x) && n < 32
    ensures Vec256(r)
  {
    var y := Half(x, n / 16);
    var y' := Put(1, y, d, n % 16);
    WithHalf(x, y', n / 16)
  }

  /** 32-bit lanes come back as `int`, the narrower ones zero-extended. */
  function ExtractEpi32(x: seq<u8>, n: nat): int
    requires Vec256(x) && n < 8
  {
    var y := Half(x, n / 4);
    Signed(4, Get(4, y, n % 4))
  }

  function ExtractEpi16(x: seq<u8>, n: nat): int
    requires Vec256(x) && n < 16
  {
    var y := Half(x, n / 8);
    Get(2, y, n % 8)
  }

  function ExtractEpi8(x: seq<u8>, n: nat): int
    requires Vec256(x) && n < 32
  {
    var y := Half(x, n / 16);
    Get(1, y, n % 16)
  }

  /** A vector literal: lane 0 first. */
  function Literal(k: nat, lanes: seq<int>): (r: seq<u8>)
    ensures |r| == k * |lanes|
  {
    if lanes == [] then [] else
      assert k * |lanes| == k + k * (|lanes| - 1);
      Bytes(Trunc(k, lanes[0]), k) + Literal(k, lanes[1..])
  }

  function SetEpi32(a: int, b: int, c: int, d: int, e: int, f: int, g: int, h: int): (r: seq<u8>)
    ensures Vec256(r)
  {
    Literal(4, [h, g, f, e, d, c, b, a])
  }

  function SetrEpi32(a: int, b: int, c: int, d: int, e: int, f: int, g: int, h: int): (r: seq<u8>)
    ensures Vec256(r)
  {
    SetEpi32(h, g, f, e, d, c, b, a)
  }

  function SetEpi16(q15: int, q14: int, q13: int, q12: int, q11: int, q10: int, q09: int, q08: int,
                    q07: int, q06: int, q05: int, q04: int, q03: int, q02: int, q01: int, q00: int)
    : (r: seq<u8>)
    ensures Vec256(r)
  {
    Literal(2, [q00, q01, q02, q03, q04, q05, q06, q07, q08, q09, q10, q11, q12, q13, q14, q15])
  }

  function SetrEpi16(q15: int, q14: int, q13: int, q12: int, q11: int, q10: int, q09: int, q08: int,
                     q07: int, q06: int, q05: int, q04: int, q03: int, q02: int, q01: int, q00: int)
    : (r: seq<u8>)
    ensures Vec256(r)
  {
    SetEpi16(q00, q01, q02, q03, q04, q05, q06, q07, q08, q09, q10, q11, q12, q13, q14, q15)
  }

  function SetEpi8(q31: int, q30: int, q29: int, q28: int, q27: int, q26: int, q25: int, q24: int,
                   q23: int, q22: int, q21: int, q20: int, q19: int, q18: int, q17: int, q16: int,
                   q15: int, q14: int, q13: int, q12: int, q11: int, q10: int, q09: int, q08: int,
                   q07: int, q06: int, q05: int, q04: int, q03: int, q02: int, q01: int, q00: int)
    : (r: seq<u8>)
    ensures Vec256(r)
  {
    Literal(1, [q00, q01, q02, q03, q04, q05, q06, q07, q08, q09, q10, q11, q12, q13, q14, q15,
                q16, q17, q18, q19, q20, q21, q22, q23, q24, q25, q26, q27, q28, q29, q30, q31])
  }

  function SetrEpi8(q31: int, q30: int, q29: int, q28: int, q27: int, q26: int, q25: int, q24: int,
                    q23: int, q22: int, q21: int, q20: int, q19: int, q18: int, q17: int, q16: int,
                    q15: int, q14: int, q13: int, q12: int, q11: int, q10: int, q09: int, q08: int,
                    q07: int, q06: int, q05: int, q04: int, q03: int, q02: int, q01: int, q00: int)
    : (r: seq<u8>)
    ensures Vec256(r)
  {
    SetEpi8(q00, q01, q02, q03, q04, q05, q06, q07, q08, q09, q10, q11, q12, q13, q14, q15,
            q16, q17, q18, q19, q20, q21, q22, q23, q24, q25, q26, q27, q28, q29, q30, q31)
  }

  // --------------------------------------------- one name for each family

  datatype Width = W8 | W16 | W32 {
    /** Bytes in a lane. */
    function Size(): nat { match this case W8 => 1 case W16 => 2 case W32 => 4 }

    /** Lanes in a 256-bit vector. */
    function Count(): nat { match this case W8 => 32 case W16 => 16 case W32 => 8 }
  }

  function Insert(w: Width, x: seq<u8>, d: int, n: nat): (r: seq<u8>)
    requires Vec256(x) && n < w.Count()
    ensures Vec256(r)
  {
    match w
    case W8 => InsertEpi8(x, d, n)
    case W16 => InsertEpi16(x, d, n)
    case W32 => InsertEpi32(x, d, n)
  }

  function Extract(w: Width, x: seq<u8>, n: nat): int
    requires Vec256(x) && n < w.Count()
  {
    match w
    case W8 => ExtractEpi8(x, n)
    case W16 => ExtractEpi16(x, n)
    case W32 => ExtractEpi32(x, n)
  }

  /** The `_mm256_setr_*` function of the width, applied to `v[0], v[1], ...` in that order. */
  function Setr(w: Width, v: seq<int>): (r: seq<u8>)
    requires |v| == w.Count()
    ensures Vec256(r)
  {
    match w
    case W8 =>
      SetrEpi8(v[0], v[1], v[2], v[3], v[4], v[5], v[6], v[7],
               v[8], v[9], v[10], v[11], v[12], v[13], v[14], v[15],
               v[16], v[17], v[18], v[19], v[20], v[21], v[22], v[23],
               v[24], v[25], v[26], v[27], v[28], v[29], v[30], v[31])
    case W16 =>
      SetrEpi16(v[0], v[1], v[2], v[3], v[4], v[5], v[6], v[7],
                v[8], v[9], v[10], v[11], v[12], v[13], v[14], v[15])
    case W32 => SetrEpi32(v[0], v[1], v[2], v[3], v[4], v[5], v[6], v[7])
  }

  /** What extracting a lane holding `v` returns. */
  function Widen(w: Width, v: nat): int {
    if w == W32 then Signed(4, v) else v
  }

  // -------------------------------------------------------- the flat array

  /** The vector as a flat array of unsigned lanes. */
  function Lanes(w: Width, x: seq<u8>): (r: seq<nat>)
    requires Vec256(x)
    ensures |r| == w.Count()
  {
    seq(w.Count(), (i: nat) requires i < w.Count() && Vec256(x) => Get(w.Size(), x, i))
  }

  lemma PutInHalf(k: nat, x: seq<u8>, d: int, h: nat, i: nat, n: nat)
    requires Vec256(x) && h < 2 && k * i + k <= 16 && k * n == 16 * h + k * i
    ensures WithHalf(x, Put(k, Half(x, h), d, i), h) == Put(k, x, d, n)
  {
    HalfSpliced(x, Bytes(Trunc(k, d), k), h, k * i, k);
  }

  lemma HalfSpliced(x: seq<u8>, lane: seq<u8>, h: nat, a: nat, k: nat)
    requires Vec256(x) && h < 2 && a + k <= 16 && |lane| == k
    ensures var y := Half(x, h)[..a] + lane + Half(x, h)[a + k..];
            WithHalf(x, y, h) == x[..16 * h + a] + lane + x[16 * h + a + k..]
  {
    if h == 0 {
      assert x[..16][..a] + lane + x[..16][a + k..] + x[16..] == x[..a] + lane + x[a + k..];
    } else {
      assert x[..16] + (x[16..][..a] + lane + x[16..][a + k..]) == x[..16 + a] + lane + x[16 + a + k..];
    }
  }

  /** Two steps through a half are one step in the whole vector. */
  lemma InsertIsPut(w: Width, x: seq<u8>, d: int, n: nat)
    requires Vec256(x) && n < w.Count()
    ensures w.Size() * n + w.Size() <= 32
    ensures Insert(w, x, d, n) == Put(w.Size(), x, d, n)
  {
    match w
    case W8 => PutInHalf(1, x, d, n / 16, n % 16, n);
    case W16 => PutInHalf(2, x, d, n / 8, n % 8, n);
    case W32 => PutInHalf(4, x, d, n / 4, n % 4, n);
  }

  lemma ExtractIsGet(w: Width, x: seq<u8>, n: nat)
    requires Vec256(x) && n < w.Count()
    ensures Extract(w, x, n) == Widen(w, Lanes(w, x)[n])
  {
    match w
    case W8 => GetInHalf(1, x, n / 16, n % 16, n);
    case W16 => GetInHalf(2, x, n / 8, n % 8, n);
    case W32 => GetInHalf(4, x, n / 4, n % 4, n);
  }

  lemma GetInHalf(k: nat, x: seq<u8>, h: nat, i: nat, n: nat)
    requires Vec256(x) && h < 2 && k * i + k <= 16 && k * n == 16 * h + k * i
    ensures Get(k, Half(x, h), i) == Get(k, x, n)
  {
    var a := k * i;
    if h == 0 {
      assert x[..16][a..a + k] == x[a..a + k];
    } else {
      assert x[16..][a..a + k] == x[16 + a..16 + a + k];
    }
  }

  lemma GetPut(k: nat, x: seq<u8>, d: int, n: nat, j: nat)
    requires k * n + k <= |x| && k * j + k <= |x|
    ensures Get(k, Put(k, x, d, n), j) == if j == n then Trunc(k, d) else Get(k, x, j)
  {
    var r := Put(k, x, d, n);
    if j == n {
      assert r[k * n..k * n + k] == Bytes(Trunc(k, d), k);
      ValueOfBytes(Trunc(k, d), k);
      Reduced(Trunc(k, d), Pow2(8 * k));
    } else {
      LanesApart(k, j, n);
      PutSlice(k, x, d, n, k * j, k);
    }
  }

  lemma LanesApart(k: nat, j: nat, n: nat)
    requires j != n
    ensures k * j + k <= k * n || k * n + k <= k * j
  {
    if j < n { MulStep(k, j, n); } else { MulStep(k, n, j); }
  }

  lemma MulStep(k: nat, a: nat, b: nat)
    requires a < b
    ensures k * a + k <= k * b
  {
    ProductBound(b - a, k);
    assert k * b == k * a + (b - a) * k;
  }

  // ------------------------------------------------------------ main results

  /** Insert is one update of the flat array of lanes. */
  lemma InsertUpdatesLane(w: Width, x: seq<u8>, d: int, n: nat)
    requires Vec256(x) && n < w.Count()
    ensures Lanes(w, Insert(w, x, d, n)) == Lanes(w, x)[n := Trunc(w.Size(), d)]
  {
    var after := Lanes(w, x)[n := Trunc(w.Size(), d)];
    forall j: nat | j < w.Count()
      ensures Lanes(w, Insert(w, x, d, n))[j] == after[j]
    {
      LaneAfterInsert(w, x, d, n, j);
    }
  }

  lemma LaneAfterInsert(w: Width, x: seq<u8>, d: int, n: nat, j: nat)
    requires Vec256(x) && n < w.Count() && j < w.Count()
    ensures Lanes(w, Insert(w, x, d, n))[j] == if j == n then Trunc(w.Size(), d) else Lanes(w, x)[j]
  {
    var k := w.Size();
    InsertIsPut(w, x, d, n);
    LaneIs(w, x, j);
    LaneIs(w, Put(k, x, d, n), j);
    GetPut(k, x, d, n, j);
  }

  /** A vector is determined by its lanes at any one width. */
  lemma LanesDetermine(w: Width, x: seq<u8>, x': seq<u8>)
    requires Vec256(x) && Vec256(x') && Lanes(w, x) == Lanes(w, x')
    ensures x == x'
  {
    forall b: nat | b < 32
      ensures x[b] == x'[b]
    {
      var j := LaneOfByte(w, b);
      LaneIs(w, x, j);
      LaneIs(w, x', j);
      SameLaneBytes(w.Size(), x, x', w.Size() * j, b);
    }
  }

  lemma LaneIs(w: Width, x: seq<u8>, i: nat)
    requires Vec256(x) && i < w.Count()
    ensures w.Size() * i + w.Size() <= 32
    ensures Lanes(w, x)[i] == Get(w.Size(), x, i)
  {
  }

  lemma LaneOfByte(w: Width, b: nat) returns (j: nat)
    requires b < 32
    ensures j < w.Count() && w.Size() * j <= b < w.Size() * j + w.Size()
  {
    match w
    case W8 => j := b;
    case W16 => j := b / 2;
    case W32 => j := b / 4;
  }

  lemma SameLaneBytes(k: nat, x: seq<u8>, x': seq<u8>, a: nat, b: nat)
    requires |x| == |x'| && a <= b < a + k <= |x| && Value(x[a..a + k]) == Value(x'[a..a + k])
    ensures x[b] == x'[b]
  {
    var s, s' := x[a..a + k], x'[a..a + k];
    BytesOfValue(s);
    BytesOfValue(s');
    assert s[b - a] == x[b] && s'[b - a] == x'[b];
  }

  /** Reading back what was inserted gives it reduced to the lane; every other lane reads as before. */
  lemma GetAfterPut(w: Width, x: seq<u8>, d: int, n: nat, m: nat)
    requires Vec256(x) && n < w.Count() && m < w.Count()
    ensures Extract(w, Insert(w, x, d, n), m)
         == if m == n then Widen(w, Trunc(w.Size(), d)) else Extract(w, x, m)
  {
    InsertUpdatesLane(w, x, d, n);
    ExtractIsGet(w, Insert(w, x, d, n), m);
    ExtractIsGet(w, x, m);
  }

  /** A later insert at the same lane wins. */
  lemma PutAfterPut(w: Width, x: seq<u8>, d: int, e: int, n: nat)
    requires Vec256(x) && n < w.Count()
    ensures Insert(w, Insert(w, x, d, n), e, n) == Insert(w, x, e, n)
  {
    InsertUpdatesLane(w, x, d, n);
    InsertUpdatesLane(w, Insert(w, x, d, n), e, n);
    InsertUpdatesLane(w, x, e, n);
    LanesDetermine(w, Insert(w, Insert(w, x, d, n), e, n), Insert(w, x, e, n));
  }

  /** Inserts at different lanes can be swapped. */
  lemma PutsCommute(w: Width, x: seq<u8>, d: int, n: nat, e: int, m: nat)
    requires Vec256(x) && n < w.Count() && m < w.Count() && n != m
    ensures Insert(w, Insert(w, x, d, n), e, m) == Insert(w, Insert(w, x, e, m), d, n)
  {
    InsertUpdatesLane(w, x, d, n);
    InsertUpdatesLane(w, Insert(w, x, d, n), e, m);
    InsertUpdatesLane(w, x, e, m);
    InsertUpdatesLane(w, Insert(w, x, e, m), d, n);
    LanesDetermine(w, Insert(w, Insert(w, x, d, n), e, m), Insert(w, Insert(w, x, e, m), d, n));
  }

  /** Putting back what was read changes nothing. */
  lemma PutAfterGet(w: Width, x: seq<u8>, n: nat)
    requires Vec256(x) && n < w.Count()
    ensures Insert(w, x, Extract(w, x, n), n) == x
  {
    var v, d := Lanes(w, x)[n], Extract(w, x, n);
    assert Trunc(w.Size(), d) == v by {
      ExtractIsGet(w, x, n);
      LaneBound(w, x, n);
      WidenTrunc(w, v);
    }
    InsertUpdatesLane(w, x, d, n);
    LanesDetermine(w, Insert(w, x, d, n), x);
  }

  lemma LaneBound(w: Width, x: seq<u8>, n: nat)
    requires Vec256(x) && n < w.Count()
    ensures Lanes(w, x)[n] < Pow2(8 * w.Size())
  {
    var k := w.Size();
    LaneIs(w, x, n);
    ValueBound(x[k * n..k * n + k]);
  }

  lemma WidenTrunc(w: Width, v: nat)
    requires v < Pow2(8 * w.Size())
    ensures Trunc(w.Size(), Widen(w, v)) == v
  {
    var m := Pow2(8 * w.Size());
    if Widen(w, v) == v {
      Reduced(v, m);
    } else {
      assert Widen(w, v) == v - m;
      DivModUnique(v - m, m, -1, v);
    }
  }

  /** For a value already in the range of `int`, a 32-bit lane returns the value itself. */
  lemma Int32RoundTrip(x: seq<u8>, d: int, n: nat)
    requires Vec256(x) && n < 8 && -0x8000_0000 <= d < 0x8000_0000
    ensures ExtractEpi32(InsertEpi32(x, d, n), n) == d
  {
    GetAfterPut(W32, x, d, n, n);
    Pow32();
    if d >= 0 { Reduced(d, Pow2(32)); } else { DivModUnique(d, Pow2(32), -1, d + Pow2(32)); }
  }

  /** Any `int` inserted in an 8-bit lane comes back as its low byte, zero-extended. */
  lemma Int8RoundTrip(x: seq<u8>, d: int, n: nat)
    requires Vec256(x) && n < 32
    ensures ExtractEpi8(InsertEpi8(x, d, n), n) == d % 0x100
  {
    GetAfterPut(W8, x, d, n, n);
    assert Pow2(8) == 0x100 by { PowAdd(4, 4); }
  }

  /** And in a 16-bit lane as its low two bytes. */
  lemma Int16RoundTrip(x: seq<u8>, d: int, n: nat)
    requires Vec256(x) && n < 16
    ensures ExtractEpi16(InsertEpi16(x, d, n), n) == d % 0x1_0000
  {
    GetAfterPut(W16, x, d, n, n);
    assert Pow2(16) == 0x1_0000 by { PowAdd(8, 8); PowAdd(4, 4); }
  }

  /** The bytes of the vector that each extract reads, the least significant first. */
  lemma ExtractBytes(x: seq<u8>, n: nat)
    requires Vec256(x) && n < 32
    ensures ExtractEpi8(x, n) == x[n]
    ensures n < 16 ==> ExtractEpi16(x, n) == Quad(x[2 * n], x[2 * n + 1], 0, 0)
    ensures n < 8 ==>
              var v := Quad(x[4 * n], x[4 * n + 1], x[4 * n + 2], x[4 * n + 3]);
              ExtractEpi32(x, n) == if v < 0x8000_0000 then v else v - 0x1_0000_0000
  {
    ExtractIsGet(W8, x, n);
    ValueOne(x[n..n + 1]);
    if n < 16 { PairBytes(x, n); }
    if n < 8 { QuadBytes(x, n); }
  }

  lemma PairBytes(x: seq<u8>, n: nat)
    requires Vec256(x) && n < 16
    ensures ExtractEpi16(x, n) == Quad(x[2 * n], x[2 * n + 1], 0, 0)
  {
    ExtractIsGet(W16, x, n);
    ValueTwo(x[2 * n..2 * n + 2]);
  }

  lemma QuadBytes(x: seq<u8>, n: nat)
    requires Vec256(x) && n < 8
    ensures var v := Quad(x[4 * n], x[4 * n + 1], x[4 * n + 2], x[4 * n + 3]);
            ExtractEpi32(x, n) == if v < 0x8000_0000 then v else v - 0x1_0000_0000
  {
    ExtractIsGet(W32, x, n);
    ValueFour(x[4 * n..4 * n + 4]);
    Pow32();
  }

  // --------------------------------------------------------- runs of inserts

  datatype Write = Write(lane: nat, value: int)

  ghost predicate InRange(w: Width, ops: seq<Write>) {
    forall i :: 0 <= i < |ops| ==> ops[i].lane < w.Count()
  }

  /** The inserts of `ops`, in order. */
  function InsertRun(w: Width, x: seq<u8>, ops: seq<Write>): (r: seq<u8>)
    requires Vec256(x) && InRange(w, ops)
    ensures Vec256(r)
    decreases |ops|
  {
    if ops == [] then x
    else InsertRun(w, Insert(w, x, ops[0].value, ops[0].lane), ops[1..])
  }

  /** The same run on a flat array of lanes. */
  function UpdateRun(w: Width, a: seq<nat>, ops: seq<Write>): (r: seq<nat>)
    requires |a| == w.Count() && InRange(w, ops)
    ensures |r| == |a|
    decreases |ops|
  {
    if ops == [] then a
    else UpdateRun(w, a[ops[0].lane := Trunc(w.Size(), ops[0].value)], ops[1..])
  }

  /** Any run of two-level inserts refines the run of plain updates of the flat array. */
  lemma {:induction false} RunRefinesFlat(w: Width, x: seq<u8>, ops: seq<Write>)
    requires Vec256(x) && InRange(w, ops)
    ensures Lanes(w, InsertRun(w, x, ops)) == UpdateRun(w, Lanes(w, x), ops)
    decreases |ops|
  {
    if ops != [] {
      InsertUpdatesLane(w, x, ops[0].value, ops[0].lane);
      RunRefinesFlat(w, Insert(w, x, ops[0].value, ops[0].lane), ops[1..]);
    }
  }

  /** Every write of `ops` stores `f(lane)`, so that order and repetition cannot matter. */
  ghost predicate Follows(ops: seq<Write>, f: nat -> int) {
    forall i :: 0 <= i < |ops| ==> ops[i].value == f(ops[i].lane)
  }

  ghost predicate Writes(ops: seq<Write>, n: nat) {
    exists i :: 0 <= i < |ops| && ops[i].lane == n
  }

  lemma {:induction false} UpdateRunLane(w: Width, a: seq<nat>, ops: seq<Write>, f: nat -> int, n: nat)
    requires |a| == w.Count() && InRange(w, ops) && Follows(ops, f) && n < w.Count()
    ensures UpdateRun(w, a, ops)[n] == if Writes(ops, n) then Trunc(w.Size(), f(n)) else a[n]
    decreases |ops|
  {
    if ops != [] {
      var a' := a[ops[0].lane := Trunc(w.Size(), ops[0].value)];
      UpdateRunLane(w, a', ops[1..], f, n);
      if Writes(ops, n) {
        var i :| 0 <= i < |ops| && ops[i].lane == n;
        if i > 0 { assert ops[1..][i - 1].lane == n; }
      }
      if Writes(ops[1..], n) {
        var i :| 0 <= i < |ops[1..]| && ops[1..][i].lane == n;
        assert ops[i + 1].lane == n;
      }
    }
  }

  /** The lanes of a vector literal. */
  lemma {:induction false} LiteralLane(k: nat, lanes: seq<int>, i: nat)
    requires i < |lanes|
    ensures k * i + k <= |Literal(k, lanes)|
    ensures Get(k, Literal(k, lanes), i) == Trunc(k, lanes[i])
    decreases |lanes|
  {
    var x, rest := Literal(k, lanes), Literal(k, lanes[1..]);
    MulStep(k, i, |lanes|);
    if i == 0 {
      FirstLane(k, lanes[0], rest);
    } else {
      LiteralLane(k, lanes[1..], i - 1);
      LaterLane(k, lanes[0], rest, i);
    }
  }

  lemma FirstLane(k: nat, d: int, rest: seq<u8>)
    ensures Get(k, Bytes(Trunc(k, d), k) + rest, 0) == Trunc(k, d)
  {
    assert (Bytes(Trunc(k, d), k) + rest)[..k] == Bytes(Trunc(k, d), k);
    ValueOfBytes(Trunc(k, d), k);
    Reduced(Trunc(k, d), Pow2(8 * k));
  }

  lemma LaterLane(k: nat, d: int, rest: seq<u8>, i: nat)
    requires 0 < i && k * (i - 1) + k <= |rest| && k * i + k <= k + |rest|
    ensures Get(k, Bytes(Trunc(k, d), k) + rest, i) == Get(k, rest, i - 1)
  {
    var first, a := Bytes(Trunc(k, d), k), k * (i - 1);
    assert k * i == k + a;
    assert (first + rest)[k + a..k + a + k] == rest[a..a + k];
  }

  lemma List8(v: seq<int>)
    requires |v| == 8
    ensures [v[0], v[1], v[2], v[3], v[4], v[5], v[6], v[7]] == v
  {
  }

  lemma List16(v: seq<int>)
    requires |v| == 16
    ensures [v[0], v[1], v[2], v[3], v[4], v[5], v[6], v[7],
             v[8], v[9], v[10], v[11], v[12], v[13], v[14], v[15]] == v
  {
    List8(v[..8]);
    List8(v[8..]);
    assert [v[0], v[1], v[2], v[3], v[4], v[5], v[6], v[7],
            v[8], v[9], v[10], v[11], v[12], v[13], v[14], v[15]]
        == [v[0], v[1], v[2], v[3], v[4], v[5], v[6], v[7]] + [v[8], v[9], v[10], v[11], v[12], v[13], v[14], v[15]];
  }

  lemma List32(v: seq<int>)
    requires |v| == 32
    ensures [v[0], v[1], v[2], v[3], v[4], v[5], v[6], v[7],
             v[8], v[9], v[10], v[11], v[12], v[13], v[14], v[15],
             v[16], v[17], v[18], v[19], v[20], v[21], v[22], v[23],
             v[24], v[25], v[26], v[27], v[28], v[29], v[30], v[31]] == v
  {
    List16(v[..16]);
    List16(v[16..]);
    assert [v[0], v[1], v[2], v[3], v[4], v[5], v[6], v[7],
            v[8], v[9], v[10], v[11], v[12], v[13], v[14], v[15],
            v[16], v[17], v[18], v[19], v[20], v[21], v[22], v[23],
            v[24], v[25], v[26], v[27], v[28], v[29], v[30], v[31]]
        == [v[0], v[1], v[2], v[3], v[4], v[5], v[6], v[7],
            v[8], v[9], v[10], v[11], v[12], v[13], v[14], v[15]]
         + [v[16], v[17], v[18], v[19], v[20], v[21], v[22], v[23],
            v[24], v[25], v[26], v[27], v[28], v[29], v[30], v[31]];
  }

  /** `setr` lists its arguments from lane 0 upwards. */
  lemma SetrIsLiteral(w: Width, v: seq<int>)
    requires |v| == w.Count()
    ensures Setr(w, v) == Literal(w.Size(), v)
  {
    match w
    case W8 => List32(v);
    case W16 => List16(v);
    case W32 => List8(v);
  }

  /** Lane `i` of a `setr` vector is argument `i`. */
  lemma SetrLane(w: Width, vals: seq<int>, i: nat)
    requires |vals| == w.Count() && i < w.Count()
    ensures Lanes(w, Setr(w, vals))[i] == Trunc(w.Size(), vals[i])
  {
    SetrIsLiteral(w, vals);
    LiteralLane(w.Size(), vals, i);
  }

  /** The `_mm256_set_*` function of the width, applied to `v[0], v[1], ...` in that order. */
  function SetOf(w: Width, v: seq<int>): (r: seq<u8>)
    requires |v| == w.Count()
    ensures Vec256(r)
  {
    match w
    case W8 =>
      SetEpi8(v[0], v[1], v[2], v[3], v[4], v[5], v[6], v[7],
              v[8], v[9], v[10], v[11], v[12], v[13], v[14], v[15],
              v[16], v[17], v[18], v[19], v[20], v[21], v[22], v[23],
              v[24], v[25], v[26], v[27], v[28], v[29], v[30], v[31])
    case W16 =>
      SetEpi16(v[0], v[1], v[2], v[3], v[4], v[5], v[6], v[7],
               v[8], v[9], v[10], v[11], v[12], v[13], v[14], v[15])
    case W32 => SetEpi32(v[0], v[1], v[2], v[3], v[4], v[5], v[6], v[7])
  }

  /** `set` lists its arguments from the highest lane downwards. */
  lemma SetLane(w: Width, vals: seq<int>, i: nat)
    requires |vals| == w.Count() && i < w.Count()
    ensures Lanes(w, SetOf(w, vals))[i] == Trunc(w.Size(), vals[w.Count() - 1 - i])
  {
    var rev := seq(w.Count(), (j: nat) requires j < w.Count() == |vals| => vals[w.Count() - 1 - j]);
    match w
    case W8 => assert SetOf(W8, vals) == Setr(W8, rev); SetrLane(W8, rev, i);
    case W16 => assert SetOf(W16, vals) == Setr(W16, rev); SetrLane(W16, rev, i);
    case W32 => assert SetOf(W32, vals) == Setr(W32, rev); SetrLane(W32, rev, i);
  }

  /** Writing every lane, in any order and from any vector, builds the `setr` vector. */
  lemma AnyOrderBuildsSetr(w: Width, x: seq<u8>, ops: seq<Write>, vals: seq<int>)
    requires Vec256(x) && |vals| == w.Count() && InRange(w, ops)
    requires forall i :: 0 <= i < |ops| ==> ops[i].value == vals[ops[i].lane]
    requires forall n: nat :: n < w.Count() ==> Writes(ops, n)
    ensures InsertRun(w, x, ops) == Setr(w, vals)
  {
    var f := (n: nat) => if n < |vals| then vals[n] else 0;
    RunRefinesFlat(w, x, ops);
    forall n: nat | n < w.Count()
      ensures Lanes(w, InsertRun(w, x, ops))[n] == Lanes(w, Setr(w, vals))[n]
    {
      UpdateRunLane(w, Lanes(w, x), ops, f, n);
      SetrLane(w, vals, n);
    }
    LanesDetermine(w, InsertRun(w, x, ops), Setr(w, vals));
  }

  // ---------------------------------------------------- agreement of widths

  /** Narrow lanes in a wide one. */
  function Ratio(wide: Width, narrow: Width): nat
    requires wide.Size() > narrow.Size()
  {
    wide.Size() / narrow.Size()
  }

  /** Narrow piece `j` of a wide lane holding `d`, the least significant first. */
  function Piece(wide: Width, narrow: Width, d: int, j: nat): nat {
    Shr(Trunc(wide.Size(), d), 8 * narrow.Size() * j) % Pow2(8 * narrow.Size())
  }

  lemma PieceBytes(wide: Width, narrow: Width, d: int, j: nat)
    requires wide.Size() > narrow.Size() && j < Ratio(wide, narrow)
    ensures var k' := narrow.Size();
            k' * j + k' <= wide.Size() &&
            Value(Bytes(Trunc(wide.Size(), d), wide.Size())[k' * j..k' * j + k']) == Piece(wide, narrow, d, j)
  {
    var k, k' := wide.Size(), narrow.Size();
    var v := Trunc(k, d);
    assert k' * j + k' <= k;
    var u := Shr(v, 8 * (k' * j));
    BytesSplit(v, k, k' * j);
    BytesSplit(u, k - k' * j, k');
    assert Bytes(v, k)[k' * j..k' * j + k'] == Bytes(v, k)[k' * j..][..k'] == Bytes(u, k');
    ValueOfBytes(u, k');
    assert 8 * (k' * j) == 8 * k' * j;
  }

  /** Where narrow lane `i` lies relative to wide lane `n`. */
  lemma NarrowInWide(wide: Width, narrow: Width, n: nat, i: nat)
    requires wide.Size() > narrow.Size() && n < wide.Count() && i < narrow.Count()
    ensures wide.Size() * n + wide.Size() <= 32 && narrow.Size() * i + narrow.Size() <= 32
    ensures var k, k', r := wide.Size(), narrow.Size(), Ratio(wide, narrow);
            if r * n <= i < r * n + r
            then k * n <= k' * i && k' * i + k' <= k * n + k && k' * i - k * n == k' * (i - r * n)
            else k' * i + k' <= k * n || k * n + k <= k' * i
  {
    match (wide, narrow)
    case (W32, W16) =>
    case (W32, W8) =>
    case (W16, W8) =>
  }

  lemma NarrowLaneOfPut(k: nat, k': nat, x: seq<u8>, d: int, n: nat, i: nat, j: nat)
    requires k * n + k <= |x| && k' * j + k' <= k && k' * i == k * n + k' * j
    ensures k' * i + k' <= |x|
    ensures Get(k', Put(k, x, d, n), i) == Value(Bytes(Trunc(k, d), k)[k' * j..k' * j + k'])
  {
    PutWithin(k, x, d, n, k' * j, k');
  }

  lemma PutWithin(k: nat, x: seq<u8>, d: int, n: nat, e: nat, len: nat)
    requires k * n + k <= |x| && e + len <= k
    ensures var a := k * n + e; Put(k, x, d, n)[a..a + len] == Bytes(Trunc(k, d), k)[e..e + len]
  {
  }

  /** The narrow lanes of a vector after a wide insert. */
  lemma NarrowLaneOfInsert(wide: Width, narrow: Width, x: seq<u8>, d: int, n: nat, i: nat)
    requires Vec256(x) && wide.Size() > narrow.Size() && n < wide.Count() && i < narrow.Count()
    ensures var r := Ratio(wide, narrow);
            Lanes(narrow, Insert(wide, x, d, n))[i]
            == if r * n <= i < r * n + r then Piece(wide, narrow, d, i - r * n) else Lanes(narrow, x)[i]
  {
    var base, r := Ratio(wide, narrow) * n, Ratio(wide, narrow);
    if base <= i < base + r { PieceLane(wide, narrow, x, d, n, i, i - base); } else { KeptLane(wide, narrow, x, d, n, i); }
  }

  lemma PieceLane(wide: Width, narrow: Width, x: seq<u8>, d: int, n: nat, i: nat, j: nat)
    requires Vec256(x) && wide.Size() > narrow.Size() && n < wide.Count() && i < narrow.Count()
    requires j < Ratio(wide, narrow) && i == Ratio(wide, narrow) * n + j
    ensures Lanes(narrow, Insert(wide, x, d, n))[i] == Piece(wide, narrow, d, j)
  {
    InsertIsPut(wide, x, d, n);
    NarrowInWide(wide, narrow, n, i);
    LaneIs(narrow, Put(wide.Size(), x, d, n), i);
    PieceBytes(wide, narrow, d, j);
    NarrowLaneOfPut(wide.Size(), narrow.Size(), x, d, n, i, j);
  }

  lemma KeptLane(wide: Width, narrow: Width, x: seq<u8>, d: int, n: nat, i: nat)
    requires Vec256(x) && wide.Size() > narrow.Size() && n < wide.Count() && i < narrow.Count()
    requires var base, r := Ratio(wide, narrow) * n, Ratio(wide, narrow); !(base <= i < base + r)
    ensures Lanes(narrow, Insert(wide, x, d, n))[i] == Lanes(narrow, x)[i]
  {
    InsertIsPut(wide, x, d, n);
    NarrowInWide(wide, narrow, n, i);
    LaneIs(narrow, Put(wide.Size(), x, d, n), i);
    LaneIs(narrow, x, i);
    OtherNarrowLane(wide.Size(), narrow.Size(), x, d, n, i);
  }

  lemma OtherNarrowLane(k: nat, k': nat, x: seq<u8>, d: int, n: nat, i: nat)
    requires k * n + k <= |x| && k' * i + k' <= |x| && (k' * i + k' <= k * n || k * n + k <= k' * i)
    ensures Get(k', Put(k, x, d, n), i) == Get(k', x, i)
  {
    PutSlice(k, x, d, n, k' * i, k');
  }

  /** The bytes outside lane `n` are kept. */
  lemma PutSlice(k: nat, x: seq<u8>, d: int, n: nat, a: nat, len: nat)
    requires k * n + k <= |x| && a + len <= |x| && (a + len <= k * n || k * n + k <= a)
    ensures Put(k, x, d, n)[a..a + len] == x[a..a + len]
  {
  }

  lemma PieceFits(wide: Width, narrow: Width, d: int, j: nat)
    ensures Trunc(narrow.Size(), Piece(wide, narrow, d, j)) == Piece(wide, narrow, d, j)
  {
    var m := Pow2(8 * narrow.Size());
    Reduced(Shr(Trunc(wide.Size(), d), 8 * narrow.Size() * j), m);
    Reduced(Piece(wide, narrow, d, j), m);
  }

  /** `ops` writes each narrow piece of `d` into wide lane `n`, in any order, and nothing else. */
  ghost predicate WritesPieces(wide: Width, narrow: Width, d: int, n: nat, ops: seq<Write>)
    requires wide.Size() > narrow.Size()
  {
    var r := Ratio(wide, narrow);
    && (forall i :: 0 <= i < |ops| ==> r * n <= ops[i].lane < r * n + r)
    && (forall i :: 0 <= i < |ops| && ops[i].lane >= r * n ==>
          ops[i].value == Piece(wide, narrow, d, ops[i].lane - r * n))
    && (forall j: nat :: r * n <= j < r * n + r ==> Writes(ops, j))
  }

  lemma NarrowLanesAgree(wide: Width, narrow: Width, x: seq<u8>, d: int, n: nat,
                         ops: seq<Write>, f: nat -> int, i: nat)
    requires Vec256(x) && wide.Size() > narrow.Size() && n < wide.Count() && i < narrow.Count()
    requires InRange(narrow, ops) && WritesPieces(wide, narrow, d, n, ops) && Follows(ops, f)
    ensures Lanes(narrow, InsertRun(narrow, x, ops))[i] == Lanes(narrow, Insert(wide, x, d, n))[i]
  {
    RunRefinesFlat(narrow, x, ops);
    UpdateRunLane(narrow, Lanes(narrow, x), ops, f, i);
    NarrowLaneOfInsert(wide, narrow, x, d, n, i);
    PieceWritten(wide, narrow, d, n, ops, f, i);
  }

  /** Which narrow lanes are written, and what. */
  lemma PieceWritten(wide: Width, narrow: Width, d: int, n: nat, ops: seq<Write>, f: nat -> int, i: nat)
    requires wide.Size() > narrow.Size() && WritesPieces(wide, narrow, d, n, ops) && Follows(ops, f)
    ensures var base, r := Ratio(wide, narrow) * n, Ratio(wide, narrow);
            && (Writes(ops, i) <==> base <= i < base + r)
            && (Writes(ops, i) ==> Trunc(narrow.Size(), f(i)) == Piece(wide, narrow, d, i - base))
  {
    if Writes(ops, i) {
      var o :| 0 <= o < |ops| && ops[o].lane == i;
      PieceFits(wide, narrow, d, i - Ratio(wide, narrow) * n);
    }
  }

  /** Inserting the pieces of `d` one by one, in any order, is inserting `d` at once. */
  lemma WidthsAgree(wide: Width, narrow: Width, x: seq<u8>, d: int, n: nat, ops: seq<Write>)
    requires Vec256(x) && wide.Size() > narrow.Size() && n < wide.Count()
    requires InRange(narrow, ops) && WritesPieces(wide, narrow, d, n, ops)
    ensures InsertRun(narrow, x, ops) == Insert(wide, x, d, n)
  {
    var base := Ratio(wide, narrow) * n;
    var f := (i: nat) => if i >= base then Piece(wide, narrow, d, i - base) else 0;
    forall i: nat | i < narrow.Count()
      ensures Lanes(narrow, InsertRun(narrow, x, ops))[i] == Lanes(narrow, Insert(wide, x, d, n))[i]
    {
      NarrowLanesAgree(wide, narrow, x, d, n, ops, f, i);
    }
    LanesDetermine(narrow, InsertRun(narrow, x, ops), Insert(wide, x, d, n));
  }

  /** Four byte inserts, or two 16-bit inserts, lowest part first, make one 32-bit insert. */
  lemma Epi32FromParts(x: seq<u8>, d: int, n: nat)
    requires Vec256(x) && n < 8
    ensures InsertRun(W8, x, [Write(4 * n, Piece(W32, W8, d, 0)), Write(4 * n + 1, Piece(W32, W8, d, 1)),
                              Write(4 * n + 2, Piece(W32, W8, d, 2)), Write(4 * n + 3, Piece(W32, W8, d, 3))])
         == InsertEpi32(x, d, n)
    ensures InsertRun(W16, x, [Write(2 * n, Piece(W32, W16, d, 0)), Write(2 * n + 1, Piece(W32, W16, d, 1))])
         == InsertEpi32(x, d, n)
  {
    PartsFour(x, d, n, Piece(W32, W8, d, 0), Piece(W32, W8, d, 1), Piece(W32, W8, d, 2), Piece(W32, W8, d, 3));
    PartsTwo(x, d, n, Piece(W32, W16, d, 0), Piece(W32, W16, d, 1));
  }

  lemma PartsFour(x: seq<u8>, d: int, n: nat, b0: nat, b1: nat, b2: nat, b3: nat)
    requires Vec256(x) && n < 8
    requires b0 == Piece(W32, W8, d, 0) && b1 == Piece(W32, W8, d, 1)
    requires b2 == Piece(W32, W8, d, 2) && b3 == Piece(W32, W8, d, 3)
    ensures InsertRun(W8, x, [Write(4 * n, b0), Write(4 * n + 1, b1), Write(4 * n + 2, b2), Write(4 * n + 3, b3)])
         == Insert(W32, x, d, n)
  {
    var ops := [Write(4 * n, b0), Write(4 * n + 1, b1), Write(4 * n + 2, b2), Write(4 * n + 3, b3)];
    forall j: nat | 4 * n <= j < 4 * n + 4
      ensures Writes(ops, j)
    {
      assert ops[j - 4 * n].lane == j;
    }
    WidthsAgree(W32, W8, x, d, n, ops);
  }

  lemma PartsTwo(x: seq<u8>, d: int, n: nat, h0: nat, h1: nat)
    requires Vec256(x) && n < 8
    requires h0 == Piece(W32, W16, d, 0) && h1 == Piece(W32, W16, d, 1)
    ensures InsertRun(W16, x, [Write(2 * n, h0), Write(2 * n + 1, h1)]) == Insert(W32, x, d, n)
  {
    var ops := [Write(2 * n, h0), Write(2 * n + 1, h1)];
    forall j: nat | 2 * n <= j < 2 * n + 2
      ensures Writes(ops, j)
    {
      assert ops[j - 2 * n].lane == j;
    }
    WidthsAgree(W32, W16, x, d, n, ops);
  }
}
