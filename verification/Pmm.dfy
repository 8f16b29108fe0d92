/** Word-level bit operations: BIT_SET, BIT_CLR, BIT_TST and __builtin_ctz on one 32-bit word,
    defined on the binary digits of the word. */
module Bits {
  import opened Base

  /** BIT_TST: (w >> i) & 1. */
  predicate Tst(w: nat, i: nat) {
    if i == 0 then w % 2 == 1 else Tst(w / 2, i - 1)
  }

  /** BIT_SET: w | (1 << i). */
  function SetBit(w: nat, i: nat): nat {
    if i == 0 then w / 2 * 2 + 1 else SetBit(w / 2, i - 1) * 2 + w % 2
  }

  /** BIT_CLR: w & ~(1 << i). */
  function ClrBit(w: nat, i: nat): nat {
    if i == 0 then w / 2 * 2 else ClrBit(w / 2, i - 1) * 2 + w % 2
  }

  /** __builtin_ctz: the index of the lowest set bit of a nonzero word. */
  function Ctz(w: nat): (i: nat)
    requires w > 0
    ensures Tst(w, i)
    ensures forall j: nat | j < i :: !Tst(w, j)
  {
    if w % 2 == 1 then 0 else 1 + Ctz(w / 2)
  }

  function Pow2(k: nat): nat {
    if k == 0 then 1 else 2 * Pow2(k - 1)
  }

  lemma {:induction false} SetBitSpec(w: nat, i: nat, j: nat)
    ensures Tst(SetBit(w, i), j) == (i == j || Tst(w, j))
  {
    if i > 0 && j > 0 { SetBitSpec(w / 2, i - 1, j - 1); }
  }

  lemma {:induction false} ClrBitSpec(w: nat, i: nat, j: nat)
    ensures Tst(ClrBit(w, i), j) == (i != j && Tst(w, j))
  {
    if i > 0 && j > 0 { ClrBitSpec(w / 2, i - 1, j - 1); }
  }

  lemma {:induction false} SetBitBound(w: nat, i: nat, k: nat)
    requires w < Pow2(k) && i < k
    ensures SetBit(w, i) < Pow2(k)
  {
    if i > 0 { SetBitBound(w / 2, i - 1, k - 1); }
  }

  lemma {:induction false} ClrBitBound(w: nat, i: nat)
    ensures ClrBit(w, i) <= w
  {
    if i > 0 { ClrBitBound(w / 2, i - 1); }
  }

  lemma {:induction false} HighBitsClear(w: nat, i: nat, k: nat)
    requires w < Pow2(k) && k <= i
    ensures !Tst(w, i)
  {
    if k > 0 { HighBitsClear(w / 2, i - 1, k - 1); }
    else { ZeroWord(i); }
  }

  lemma {:induction false} ZeroWord(i: nat)
    ensures !Tst(0, i)
  {
    if i > 0 { ZeroWord(i - 1); }
  }

  lemma Pow2Of32()
    ensures Pow2(32) == WORD_LIMIT
  {
    assert Pow2(8) == 256;
    assert Pow2(16) == 65536;
    assert Pow2(24) == 16777216;
  }
}

/** The physical page allocator: one bit per page, 1 = free. */
module Pmm {
  import opened Base
  import opened Bits

  const PAGES: nat := 262144
  const WORDS: nat := 8192

  /** The pages whose bit is set. */
  ghost function FreeOf(words: seq<u32>): set<nat> {
    set i: nat | i < 32 * |words| && Tst(words[i / 32], i % 32)
  }

  lemma FreeAfterSet(words: seq<u32>, i: nat)
    requires i < 32 * |words|
    ensures SetBit(words[i / 32], i % 32) < WORD_LIMIT
    ensures FreeOf(words[i / 32 := SetBit(words[i / 32], i % 32)]) == FreeOf(words) + {i}
  {
    Pow2Of32();
    SetBitBound(words[i / 32], i % 32, 32);
    var after := words[i / 32 := SetBit(words[i / 32], i % 32)];
    forall j: nat | j < 32 * |words|
      ensures Tst(after[j / 32], j % 32) == (j == i || Tst(words[j / 32], j % 32))
    {
      SetBitSpec(words[i / 32], i % 32, j % 32);
    }
  }

  lemma FreeAfterClr(words: seq<u32>, i: nat)
    requires i < 32 * |words|
    ensures ClrBit(words[i / 32], i % 32) < WORD_LIMIT
    ensures FreeOf(words[i / 32 := ClrBit(words[i / 32], i % 32)]) == FreeOf(words) - {i}
  {
    ClrBitBound(words[i / 32], i % 32);
    var after := words[i / 32 := ClrBit(words[i / 32], i % 32)];
    forall j: nat | j < 32 * |words|
      ensures Tst(after[j / 32], j % 32) == (j != i && Tst(words[j / 32], j % 32))
    {
      ClrBitSpec(words[i / 32], i % 32, j % 32);
    }
  }

  /** Every page of [start, start + n) is in the set. */
  ghost predicate Run(free: set<nat>, start: nat, n: nat) {
    forall i: nat | start <= i < start + n :: i in free
  }

  predicate Within(lo: nat, i: nat, hi: nat) { lo <= i < hi }

  ghost function Range(lo: nat, hi: nat): set<nat> {
    set i: nat | i < hi && Within(lo, i, hi)
  }

  lemma {:induction false} RangeSize(lo: nat, hi: nat)
    ensures |Range(lo, hi)| == if lo <= hi then hi - lo else 0
    decreases hi
  {
    if lo < hi {
      assert Range(lo, hi) == Range(lo, hi - 1) + {hi - 1};
      RangeSize(lo, hi - 1);
    } else {
      assert Range(lo, hi) == {};
    }
  }

  /** Removing or adding one more page extends the range by one. */
  lemma RangeStep(free: set<nat>, lo: nat, i: nat)
    requires lo <= i
    ensures free - Range(lo, i) - {i} == free - Range(lo, i + 1)
    ensures free + Range(lo, i) + {i} == free + Range(lo, i + 1)
  {
  }

  lemma RangeNone(free: set<nat>, lo: nat, hi: nat)
    ensures hi <= lo ==> Range(lo, hi) == {} && free + Range(lo, hi) == free == free - Range(lo, hi)
  {
  }

  lemma RangeEmpty(free: set<nat>, lo: nat)
    ensures free - Range(lo, lo) == free && free + Range(lo, lo) == free
  {
  }

  lemma RunSize(free: set<nat>, lo: nat, n: nat)
    requires Run(free, lo, n)
    ensures |free - Range(lo, lo + n)| == |free| - n
  {
    RangeSize(lo, lo + n);
    assert free == (free - Range(lo, lo + n)) + Range(lo, lo + n);
  }

  lemma RangeHas(lo: nat, i: nat, hi: nat)
    requires lo <= i < hi
    ensures i in Range(lo, hi)
  {
    assert Within(lo, i, hi);
  }

  /** One Multiboot2 memory-map entry. */
  datatype Region = Region(base: nat, len: nat, kind: nat)

  const MB2_MEM_AVAILABLE: nat := 1

  /** Page i lies wholly inside the available region e. */
  predicate Inside(e: Region, i: nat) {
    e.kind == MB2_MEM_AVAILABLE && e.base <= 4096 * i && 4096 * i + 4096 <= e.base + e.len
  }

  /** The tracked pages that lie wholly inside an available region. */
  ghost function RegionPages(e: Region): set<nat> {
    set i: nat | i < PAGES && Inside(e, i)
  }

  /** Below 4 GiB the conversion to uptr loses nothing. */
  lemma NoTruncation(e: Region)
    requires e.base <= 0xFFFF_F000 && e.base + e.len < WORD_LIMIT
    ensures (e.base + 4095) / 4096 * 4096 % WORD_LIMIT == 4096 * ((e.base + 4095) / 4096)
    ensures (e.base + e.len) / 4096 * 4096 % WORD_LIMIT == 4096 * ((e.base + e.len) / 4096)
  {
  }

  lemma RegionAsRange(e: Region)
    requires e.kind == MB2_MEM_AVAILABLE
    ensures RegionPages(e) == Range((e.base + 4095) / 4096, Min((e.base + e.len) / 4096, PAGES))
  {
    forall i: nat ensures Inside(e, i) <==> (e.base + 4095) / 4096 <= i < (e.base + e.len) / 4096 {
    }
  }

  ghost function AvailablePages(es: seq<Region>): set<nat> {
    if es == [] then {} else AvailablePages(es[..|es| - 1]) + RegionPages(es[|es| - 1])
  }

  ghost function CountedPages(es: seq<Region>): nat {
    if es == [] then 0 else CountedPages(es[..|es| - 1]) + |RegionPages(es[|es| - 1])|
  }

  /** No page lies in two entries of the map. */
  ghost predicate NoOverlap(es: seq<Region>) {
    forall i, j | 0 <= i < j < |es| :: RegionPages(es[i]) !! RegionPages(es[j])
  }

  lemma {:induction false} InAvailable(es: seq<Region>, p: nat)
    ensures p in AvailablePages(es) <==> exists i :: 0 <= i < |es| && p in RegionPages(es[i])
  {
    if es != [] {
      var front := es[..|es| - 1];
      InAvailable(front, p);
      if i :| 0 <= i < |es| && p in RegionPages(es[i]) {
        if i < |front| { assert front[i] == es[i]; }
      }
      if i :| 0 <= i < |front| && p in RegionPages(front[i]) { assert es[i] == front[i]; }
    }
  }

  /** The last entry overlaps none of the earlier ones iff it adds only new pages. */
  lemma NoOverlapSnoc(es: seq<Region>)
    requires es != []
    ensures var front := es[..|es| - 1];
            NoOverlap(es) <==> NoOverlap(front) && AvailablePages(front) !! RegionPages(es[|es| - 1])
  {
    var front, last := es[..|es| - 1], RegionPages(es[|es| - 1]);
    forall p: nat | p in last ensures p in AvailablePages(front) <==> exists i :: 0 <= i < |front| && p in RegionPages(front[i]) {
      InAvailable(front, p);
    }
    if NoOverlap(es) {
      assert forall i | 0 <= i < |front| :: front[i] == es[i];
    }
    if NoOverlap(front) && AvailablePages(front) !! last {
      forall i, j | 0 <= i < j < |es| ensures RegionPages(es[i]) !! RegionPages(es[j]) {
        assert front[i] == es[i];
        if j < |front| {
          assert front[j] == es[j];
        } else {
          forall p | p in RegionPages(es[i]) ensures p !in last { InAvailable(front, p); }
        }
      }
    }
  }

  /** Boot counts every page of every available entry, so the count equals the number of
      distinct pages exactly when no two entries share a page. */
  lemma {:induction false} CountExactIffNoOverlap(es: seq<Region>)
    ensures |AvailablePages(es)| <= CountedPages(es)
    ensures |AvailablePages(es)| == CountedPages(es) <==> NoOverlap(es)
  {
    if es != [] {
      var front, last := es[..|es| - 1], RegionPages(es[|es| - 1]);
      CountExactIffNoOverlap(front);
      NoOverlapSnoc(es);
      UnionSize(AvailablePages(front), last);
    }
  }

  lemma UnionSize(a: set<nat>, b: set<nat>)
    ensures |a + b| <= |a| + |b|
    ensures |a + b| == |a| + |b| <==> a !! b
  {
    assert a + b == a + (b - a);
    assert b == (b - a) + a * b;
    if a !! b { assert b - a == b; }
    else { var x :| x in a * b; assert |a * b| > 0; }
  }

  /** The lowest set bit of the first nonzero word is the lowest free page. */
  lemma LowestBit(words: seq<u32>, w: nat, bit: nat)
    requires w < |words| && bit < 32 && Tst(words[w], bit) && forall j: nat | j < bit :: !Tst(words[w], j)
    requires forall i: nat | i in FreeOf(words) :: 32 * w <= i
    ensures w * 32 + bit in FreeOf(words)
    ensures forall i: nat | i in FreeOf(words) :: w * 32 + bit <= i
  {
    var idx := w * 32 + bit;
    assert idx / 32 == w && idx % 32 == bit;
    forall i: nat | i in FreeOf(words) ensures idx <= i {
      if i / 32 == w { assert Tst(words[w], i % 32); }
    }
  }

  lemma SkipWord(words: seq<u32>, w: nat)
    requires w < |words| && words[w] == 0
    requires forall i: nat | i in FreeOf(words) :: 32 * w <= i
    ensures forall i: nat | i in FreeOf(words) :: 32 * (w + 1) <= i
  {
    forall i: nat | i in FreeOf(words) ensures 32 * (w + 1) <= i {
      if i / 32 == w { ZeroWord(i % 32); }
    }
  }

  lemma BitInWord(w: u32)
    requires w > 0
    ensures Ctz(w) < 32
  {
    Pow2Of32();
    if Ctz(w) >= 32 { HighBitsClear(w, Ctz(w), 32); }
  }

  class Allocator {
    var bitmap: array<u32>
    var totalPages: nat
    var freePages: nat

    /** The statically zeroed bitmap and counters. */
    constructor ()
      ensures Shape() && freePages == 0 && totalPages == 0 && fresh(bitmap)
    {
      bitmap := new u32[WORDS](_ => 0);
      totalPages, freePages := 0, 0;
    }

    ghost predicate Shape()
      reads this`bitmap
    {
      bitmap.Length == WORDS
    }

    ghost function Free(): (free: set<nat>)
      reads this`bitmap, bitmap
      ensures Shape() ==> forall i | i in free :: i < PAGES
    {
      FreeOf(bitmap[..])
    }

    /** The counter agrees with the bitmap and page 0 is never handed out. */
    ghost predicate Valid()
      reads this, bitmap
    {
      Shape() && freePages == |Free()| && 0 !in Free()
    }

    method SetFree(i: nat)
      requires Shape() && i < PAGES
      modifies bitmap
      ensures Shape() && Free() == old(Free()) + {i}
    {
      FreeAfterSet(bitmap[..], i);
      ghost var was := bitmap[..];
      bitmap[i / 32] := SetBit(bitmap[i / 32], i % 32);
      assert bitmap[..] == was[i / 32 := SetBit(was[i / 32], i % 32)];
    }

    method SetUsed(i: nat)
      requires Shape() && i < PAGES
      modifies bitmap
      ensures Shape() && Free() == old(Free()) - {i}
    {
      FreeAfterClr(bitmap[..], i);
      ghost var was := bitmap[..];
      bitmap[i / 32] := ClrBit(bitmap[i / 32], i % 32);
      assert bitmap[..] == was[i / 32 := ClrBit(was[i / 32], i % 32)];
    }

    method Test(i: nat) returns (b: bool)
      requires Shape() && i < PAGES
      ensures b == (i in Free())
    {
      b := Tst(bitmap[i / 32], i % 32);
    }

    /** pmm_mark_used: every tracked page touched by [start, end) becomes used. */
    method MarkUsed(start: nat, end: nat)
      requires Shape() && |Free()| <= freePages
      modifies bitmap, this`freePages
      ensures Shape()
      ensures Free() == old(Free()) - Range(start / 4096, (end + 4095) / 4096)
      ensures freePages - |Free()| == old(freePages - |Free()|)
    {
      hide *;
      var p := start / 4096 * 4096;
      var stop := (end + 4095) / 4096 * 4096;
      ghost var first, last := start / 4096, (end + 4095) / 4096;
      ghost var idx := first;
      RangeEmpty(Free(), first);
      RangeNone(Free(), first, last);
      while p < stop
        invariant p == 4096 * idx && stop == 4096 * last
        invariant first <= idx && Shape()
        invariant idx <= last || idx == first
        invariant Free() == old(Free()) - Range(first, idx)
        invariant freePages - |Free()| == old(freePages - |Free()|)
        decreases stop - p
      {
        RangeStep(old(Free()), first, idx);
        assert p / 4096 == idx;
        MarkPage(p / 4096);
        assert Free() == old(Free()) - Range(first, idx) - {idx};
        p := p + 4096;
        idx := idx + 1;
      }
    }

    /** One iteration of the pmm_mark_used loop. */
    method MarkPage(idx: nat)
      requires Shape() && |Free()| <= freePages
      modifies bitmap, this`freePages
      ensures Shape() && Free() == old(Free()) - {idx}
      ensures freePages - |Free()| == old(freePages - |Free()|)
    {
      hide FreeOf, Free;
      if idx < PAGES {
        var marked := Test(idx);
        if marked {
          SetUsed(idx);
          if freePages > 0 { freePages := freePages - 1; }
        }
      }
    }

    /** The page loop of pmm_init over one available entry. */
    method AddRegion(e: Region)
      requires Shape()
      requires e.base <= 0xFFFF_F000 && e.base + e.len < WORD_LIMIT
      modifies bitmap, this`freePages, this`totalPages
      ensures Shape() && Free() == old(Free()) + RegionPages(e)
      ensures freePages == old(freePages) + |RegionPages(e)|
      ensures totalPages == old(totalPages) + |RegionPages(e)|
    {
      if e.kind != 1 { assert RegionPages(e) == {}; return; }
      NoTruncation(e);
      RegionAsRange(e);
      ghost var first, last := (e.base + 4095) / 4096, (e.base + e.len) / 4096;
      AddSpan((e.base + 4095) / 4096 * 4096 % WORD_LIMIT, (e.base + e.len) / 4096 * 4096 % WORD_LIMIT, first, last);
    }

    /** The loop over page addresses: tracked pages are set and counted, the rest skipped. */
    method AddSpan(pageBase: nat, pageEnd: nat, ghost first: nat, ghost last: nat)
      requires Shape() && pageBase == 4096 * first && pageEnd == 4096 * last
      modifies bitmap, this`freePages, this`totalPages
      ensures Shape() && Free() == old(Free()) + Range(first, Min(last, PAGES))
      ensures freePages == old(freePages) + |Range(first, Min(last, PAGES))|
      ensures totalPages == old(totalPages) + |Range(first, Min(last, PAGES))|
    {
      hide FreeOf, Free, Range, Within;
      var p := pageBase;
      ghost var idx := first;
      RangeNone(Free(), first, Min(first, PAGES));
      RangeNone(Free(), first, Min(last, PAGES));
      while p < pageEnd
        invariant p == 4096 * idx && first <= idx && Shape()
        invariant idx <= last || idx == first
        invariant Free() == old(Free()) + Range(first, Min(idx, PAGES))
        invariant freePages == old(freePages) + |Range(first, Min(idx, PAGES))|
        invariant totalPages == old(totalPages) + |Range(first, Min(idx, PAGES))|
        decreases pageEnd - p
      {
        assert p / 4096 == idx;
        if p / 4096 < PAGES {
          RangeStep(old(Free()), first, idx);
          RangeSize(first, idx);
          RangeSize(first, idx + 1);
          SetFree(p / 4096);
          totalPages := totalPages + 1;
          freePages := freePages + 1;
        }
        p := p + 4096;
        idx := idx + 1;
      }
    }

    /** The part of pmm_init that makes pages available: the entries of the memory map, or
        1 MB .. 64 MB when there is no map. */
    method AddAvailable(haveMap: bool, entries: seq<Region>)
      requires Shape() && freePages == 0 && totalPages == 0
      requires forall e | e in entries :: e.base <= 0xFFFF_F000 && e.base + e.len < WORD_LIMIT
      modifies bitmap, this`freePages, this`totalPages
      ensures Shape() && Free() == if haveMap then AvailablePages(entries) else Range(256, 16384)
      ensures freePages == totalPages == if haveMap then CountedPages(entries) else |Range(256, 16384)|
    {
      hide FreeOf, Free, Range, Within, RegionPages, Inside;
      ClearAll();
      if haveMap {
        AddEntries(entries);
      } else {
        var low := Region(0x10_0000, 0x3F0_0000, MB2_MEM_AVAILABLE);
        RegionAsRange(low);
        AddRegion(low);
      }
    }

    /** The walk over the memory map. */
    method AddEntries(entries: seq<Region>)
      requires Shape() && Free() == {} && freePages == totalPages == 0
      requires forall e | e in entries :: e.base <= 0xFFFF_F000 && e.base + e.len < WORD_LIMIT
      modifies bitmap, this`freePages, this`totalPages
      ensures Shape() && Free() == AvailablePages(entries) && freePages == totalPages == CountedPages(entries)
    {
      hide FreeOf, Free, RegionPages, Inside;
      var k := 0;
      while k < |entries|
        invariant 0 <= k <= |entries| && Shape()
        invariant Free() == AvailablePages(entries[..k])
        invariant freePages == totalPages == CountedPages(entries[..k])
      {
        assert entries[..k + 1][..k] == entries[..k];
        AddRegion(entries[k]);
        k := k + 1;
      }
      assert entries[..k] == entries;
    }

    /** pmm_init. The image and 16 pages after it are withdrawn. The counter exceeds the number of
        free pages by what overlapping entries counted twice: it is exact iff entries share no page. */
    method Init(haveMap: bool, entries: seq<Region>, kernelEnd: nat)
      requires Shape() && freePages == 0 && totalPages == 0
      requires forall e | e in entries :: e.base <= 0xFFFF_F000 && e.base + e.len < WORD_LIMIT
      modifies bitmap, this`freePages, this`totalPages
      ensures Shape() && 0 !in Free()
      ensures Free() == (if haveMap then AvailablePages(entries) else Range(256, 16384))
                        - Range(0, (kernelEnd + 4095) / 4096 + 16)
      ensures haveMap ==> totalPages == CountedPages(entries)
      ensures Valid() <==> !haveMap || NoOverlap(entries)
    {
      hide Range, Within, AvailablePages, CountedPages, NoOverlap, FreeOf, Free;
      AddAvailable(haveMap, entries);
      if haveMap { CountExactIffNoOverlap(entries); }
      var kend := (kernelEnd + 4095) / 4096 * 4096;
      assert (kend + 4096 * 16 + 4095) / 4096 == (kernelEnd + 4095) / 4096 + 16;
      MarkUsed(0, kend + 4096 * 16);
      RangeHas(0, 0, (kernelEnd + 4095) / 4096 + 16);
      SetUsed(0);
    }

    /** memset(bitmap, 0, sizeof(bitmap)). */
    method ClearAll()
      requires Shape()
      modifies bitmap
      ensures Shape() && Free() == {}
    {
      var w := 0;
      while w < bitmap.Length
        invariant 0 <= w <= bitmap.Length
        invariant forall v | 0 <= v < w :: bitmap[v] == 0
      {
        bitmap[w] := 0;
        w := w + 1;
      }
      forall i: nat | i < PAGES ensures !Tst(bitmap[i / 32], i % 32) {
        ZeroWord(i % 32);
      }
    }

    /** pmm_alloc: the lowest free page, or 0 when none is free. */
    method Alloc() returns (phys: nat)
      requires Valid()
      modifies bitmap, this`freePages
      ensures Valid()
      ensures phys == 0 <==> old(Free()) == {}
      ensures phys == 0 ==> Free() == old(Free())
      ensures phys != 0 ==>
                && phys % 4096 == 0 && phys / 4096 in old(Free())
                && 0 < phys / 4096 < PAGES
                && Free() == old(Free()) - {phys / 4096}
                && forall i: nat | i in old(Free()) :: phys / 4096 <= i
    {
      hide FreeOf, Free;
      var found, idx := FirstFree();
      if !found { return 0; }
      phys := TakeLowest(idx);
    }

    /** The word scan of pmm_alloc. */
    method FirstFree() returns (found: bool, idx: nat)
      requires Shape()
      ensures found <==> Free() != {}
      ensures found ==> idx in Free() && forall i: nat | i in Free() :: idx <= i
    {
      var w := 0;
      while w < WORDS
        invariant w <= WORDS
        invariant forall i: nat | i in FreeOf(bitmap[..]) :: 32 * w <= i
      {
        if bitmap[w] != 0 {
          var bit := Ctz(bitmap[w]);
          BitInWord(bitmap[w]);
          assert bitmap[..][w] == bitmap[w];
          LowestBit(bitmap[..], w, bit);
          return true, w * 32 + bit;
        }
        assert bitmap[..][w] == 0;
        SkipWord(bitmap[..], w);
        w := w + 1;
      }
      assert forall i: nat | i in Free() :: 32 * WORDS <= i < PAGES;
      return false, 0;
    }

    /** BIT_CLR, the counter and the address once pmm_alloc has found its page. */
    method TakeLowest(idx: nat) returns (phys: nat)
      requires Valid() && idx in Free()
      modifies bitmap, this`freePages
      ensures Valid() && Free() == old(Free()) - {idx} && phys == idx * 4096 && 0 < idx < PAGES
    {
      hide FreeOf, Free;
      SetUsed(idx);
      freePages := freePages - 1;
      phys := idx * 4096;
    }

    /** The count is the size of the free set. */
    ghost predicate Counted()
      reads this, bitmap
    {
      Shape() && freePages == |Free()|
    }

    /** pmm_free: sets the bit of the page; null, out-of-range and already free pages are ignored. */
    method ReleaseAny(phys: nat)
      requires Counted()
      modifies bitmap, this`freePages
      ensures Counted()
      ensures Free() == if phys == 0 || phys >= 0x4000_0000 then old(Free()) else old(Free()) + {phys / 4096}
    {
      hide FreeOf, Free;
      if phys == 0 || phys >= 0x4000_0000 { return; }
      var idx := phys / 4096;
      var marked := Test(idx);
      if !marked {
        SetFree(idx);
        freePages := freePages + 1;
      }
    }

    /** pmm_free on a sound bitmap: page 0 stays used exactly when the address is not inside page 0. */
    method Release(phys: nat)
      requires Valid()
      modifies bitmap, this`freePages
      ensures Shape() && freePages == |Free()|
      ensures Free() == if phys == 0 || phys >= 0x4000_0000 then old(Free()) else old(Free()) + {phys / 4096}
      ensures Valid() <==> phys == 0 || phys >= 4096
    {
      hide FreeOf, Free;
      ReleaseAny(phys);
    }

    /** pmm_alloc_contiguous: the lowest run of n free pages, or 0 when there is none. */
    method AllocContiguous(n: nat) returns (phys: nat)
      requires Valid()
      modifies bitmap, this`freePages
      ensures Valid()
      ensures phys == 0 <==> n == 0 || forall s: nat :: !Run(old(Free()), s, n)
      ensures phys == 0 ==> Free() == old(Free())
      ensures phys != 0 ==>
                && phys % 4096 == 0
                && var first := phys / 4096;
                && first + n <= PAGES
                && Run(old(Free()), first, n)
                && (forall s: nat | Run(old(Free()), s, n) :: first <= s)
                && Free() == old(Free()) - Range(first, first + n)
    {
      hide FreeOf, Free, Range, Within;
      if n == 0 { return 0; }
      var found, start, i := 0, 0, 1;
      while i < PAGES
        invariant 1 <= i <= PAGES && found < n && found < i
        invariant Valid() && Free() == old(Free())
        invariant found > 0 ==> start == i - found
        invariant Run(Free(), i - found, found)
        invariant forall s: nat | Run(Free(), s, n) :: i - found <= s
      {
        var marked := Test(i);
        if marked {
          if found == 0 { start := i; }
          found := found + 1;
          if found == n {
            ClearRun(start, n);
            phys := start * 4096;
            return;
          }
        } else {
          RunAvoids(Free(), i, found, n);
          found := 0;
        }
        i := i + 1;
      }
      forall s: nat ensures !Run(Free(), s, n) {
        if i - found <= s { assert s + n - 1 !in Free(); }
      }
      phys := 0;
    }

    /** The inner clearing loop of pmm_alloc_contiguous with the counter update that follows it. */
    method ClearRun(start: nat, n: nat)
      requires Valid() && start + n <= PAGES && Run(Free(), start, n)
      modifies bitmap, this`freePages
      ensures Valid() && Free() == old(Free()) - Range(start, start + n)
    {
      hide FreeOf, Free, Range, Within;
      var j := start;
      RunSize(Free(), start, n);
      RangeEmpty(Free(), start);
      while j < start + n
        invariant start <= j <= start + n && Shape() && freePages == old(freePages)
        invariant Free() == old(Free()) - Range(start, j)
      {
        RangeStep(old(Free()), start, j);
        SetUsed(j);
        j := j + 1;
      }
      freePages := freePages - n;
    }

    /** pmm_free_contiguous, for any address and any number of pages. */
    method ReleaseContiguous(phys: u32, n: u32)
      requires Valid()
      modifies bitmap, this`freePages
      ensures Counted() && Free() == old(Free()) + FreedBy(phys, n)
      ensures Valid() <==> 0 !in FreedBy(phys, n)
    {
      hide FreeOf, Free, FreedBy;
      ghost var was := Free();
      FreesNothing(phys, was);
      var i := 0;
      while i < n
        invariant 0 <= i <= n && Counted() && Free() == was + FreedBy(phys, i)
      {
        FreedMore(phys, i, was);
        ReleaseAny((phys + 4096 * i) % 0x1_0000_0000);
        i := i + 1;
      }
    }

    /** pmm_free_contiguous undoes pmm_alloc_contiguous: the bitmap and the counter are restored. */
    method ContiguousRoundTrip(n: nat) returns (phys: nat)
      requires Valid()
      modifies bitmap, this`freePages
      ensures Valid() && Free() == old(Free()) && freePages == old(freePages)
    {
      phys := AllocContiguous(n);
      if phys != 0 {
        FreedRun(phys, n);
        ReleaseContiguous(phys, n);
      }
    }
  }

  /** The page that the i-th call of pmm_free_contiguous frees, if any; addresses wrap around 32 bits. */
  predicate FreesAt(phys: u32, i: nat, idx: nat) {
    var a := (phys + 4096 * i) % 0x1_0000_0000; a != 0 && a < 0x4000_0000 && a / 4096 == idx
  }

  ghost predicate FreesBefore(phys: u32, n: nat, idx: nat) { exists i: nat :: i < n && FreesAt(phys, i, idx) }

  ghost function FreedBy(phys: u32, n: nat): set<nat> {
    set idx: nat | idx < PAGES && FreesBefore(phys, n, idx)
  }

  lemma FreesNothing(phys: u32, free: set<nat>)
    ensures free + FreedBy(phys, 0) == free
  {
  }

  lemma FreedMore(phys: u32, i: nat, free: set<nat>)
    ensures var a := (phys + 4096 * i) % 0x1_0000_0000;
      free + FreedBy(phys, i + 1) == free + FreedBy(phys, i) + if a == 0 || a >= 0x4000_0000 then {} else {a / 4096}
  {
    var a := (phys + 4096 * i) % 0x1_0000_0000;
    forall idx: nat ensures FreesBefore(phys, i + 1, idx) <==> FreesBefore(phys, i, idx) || FreesAt(phys, i, idx) {
      if FreesBefore(phys, i + 1, idx) && !FreesAt(phys, i, idx) {
        var j: nat :| j < i + 1 && FreesAt(phys, j, idx);
        assert j < i;
      }
      if j: nat :| j < i && FreesAt(phys, j, idx) { assert j < i + 1; }
    }
  }

  /** For an aligned run above page 0 these are exactly its pages. */
  lemma FreedRun(phys: u32, n: nat)
    requires phys % 4096 == 0 && 0 < phys && phys + 4096 * n <= 0x4000_0000
    ensures FreedBy(phys, n) == Range(phys / 4096, phys / 4096 + n)
  {
    var first := phys / 4096;
    forall idx: nat ensures FreesBefore(phys, n, idx) <==> Within(first, idx, first + n) {
      if Within(first, idx, first + n) { assert FreesAt(phys, idx - first, idx); }
      if i: nat :| i < n && FreesAt(phys, i, idx) { assert idx == first + i; }
    }
  }

  /** A used page ends every run that could have started before it. */
  lemma RunAvoids(free: set<nat>, i: nat, found: nat, n: nat)
    requires i !in free && found < n && found <= i
    requires forall s: nat | Run(free, s, n) :: i - found <= s
    ensures forall s: nat | Run(free, s, n) :: i < s
  {
    forall s: nat | Run(free, s, n) ensures i < s {
      assert i < s + n;
    }
  }
}
