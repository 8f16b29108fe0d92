/** The kernel heap as a sequence of blocks in address order: first fit, splitting, extending and
    coalescing, and what every run of them keeps. */
module HeapBlocks {

  const HEAP_START: nat := 0xD000_0000

  datatype Block = Block(addr: nat, size: nat, used: bool) {
    function End(): nat { addr + 16 + size }
  }

  function EndOf(bs: seq<Block>, start: nat): nat {
    if bs == [] then start else bs[|bs| - 1].End()
  }

  /** The blocks tile [start, EndOf(bs, start)) without gap or overlap, everything a multiple of 8. */
  ghost predicate Tiles(bs: seq<Block>, start: nat) {
    && start % 8 == 0 && (bs != [] ==> bs[0].addr == start)
    && (forall i, j | 0 <= i && j == i + 1 && j < |bs| :: bs[j].addr == bs[i].addr + 16 + bs[i].size)
    && (forall i | 0 <= i < |bs| :: bs[i].size % 8 == 0)
  }

  lemma {:induction false} Follows(bs: seq<Block>, start: nat, i: nat)
    requires Tiles(bs, start) && i < |bs|
    ensures start <= bs[i].addr && bs[i].addr % 8 == 0
  {
    if i > 0 {
      Follows(bs, start, i - 1);
      assert bs[i].addr == bs[i - 1].addr + 16 + bs[i - 1].size;
    }
  }

  lemma {:induction false} After(bs: seq<Block>, start: nat, i: nat, j: nat)
    requires Tiles(bs, start) && i < j < |bs|
    ensures bs[i].End() <= bs[j].addr
  {
    assert bs[j].addr == bs[j - 1].addr + 16 + bs[j - 1].size;
    if i < j - 1 { After(bs, start, i, j - 1); }
  }

  /** Blocks are in address order; different blocks do not meet. */
  lemma Ordered(bs: seq<Block>, start: nat, i: nat, j: nat)
    requires Tiles(bs, start) && i <= j < |bs|
    ensures start <= bs[i].addr && bs[i].addr % 8 == 0
    ensures i < j ==> bs[i].End() <= bs[j].addr
    ensures bs[j].End() <= EndOf(bs, start)
  {
    Follows(bs, start, i);
    if i < j { After(bs, start, i, j); }
    if j < |bs| - 1 { After(bs, start, j, |bs| - 1); }
  }

  /** The sum of header and payload sizes. */
  ghost function Extent(bs: seq<Block>): nat {
    if bs == [] then 0 else Extent(bs[..|bs| - 1]) + 16 + bs[|bs| - 1].size
  }

  /** Header and payload sizes add up to the heap extent. */
  lemma {:induction false} ExtentIsHeap(bs: seq<Block>, start: nat)
    requires Tiles(bs, start)
    ensures start + Extent(bs) == EndOf(bs, start)
  {
    if bs != [] {
      var k := |bs| - 1;
      ExtentIsHeap(bs[..k], start);
      if k > 0 { assert bs[..k][k - 1] == bs[k - 1]; }
    }
  }

  // ---------------------------------------------------------------------------------------------
  // The operations
  // ---------------------------------------------------------------------------------------------

  predicate Fits(b: Block, n: nat) { !b.used && b.size >= n }

  /** The scan of kmalloc: the first free block that is large enough, or |bs|. */
  function FirstFit(bs: seq<Block>, n: nat): (k: nat)
    ensures k <= |bs| && (k < |bs| ==> Fits(bs[k], n))
    ensures forall i | 0 <= i < k :: !Fits(bs[i], n)
  {
    if bs == [] then 0 else if Fits(bs[0], n) then 0 else 1 + FirstFit(bs[1..], n)
  }

  /** split_block followed by the magic update: the tail is split off when at least a header and the
      minimum payload remain. */
  function Taken(b: Block, n: nat): seq<Block>
    requires Fits(b, n)
  {
    if b.size < n + 32 then [b.(used := true)]
    else [Block(b.addr, n, true), Block(b.addr + 16 + n, b.size - n - 16, false)]
  }

  /** Block k is taken for n bytes. */
  function Take(bs: seq<Block>, k: nat, n: nat): seq<Block>
    requires k < |bs| && Fits(bs[k], n)
  {
    bs[..k] + Taken(bs[k], n) + bs[k + 1..]
  }

  /** A free block appended at the end of the heap. */
  function Grow(bs: seq<Block>, start: nat, ext: nat): seq<Block>
    requires ext >= 16
  {
    bs + [Block(EndOf(bs, start), ext - 16, false)]
  }

  /** Blocks k and k+1 become one. */
  function Join(bs: seq<Block>, k: nat): seq<Block>
    requires k + 1 < |bs|
  {
    bs[..k] + [bs[k].(size := bs[k].size + 16 + bs[k + 1].size)] + bs[k + 2..]
  }

  function Mark(bs: seq<Block>, k: nat): seq<Block>
    requires k < |bs|
  {
    bs[k := bs[k].(used := false)]
  }

  function JoinNext(bs: seq<Block>, k: nat): seq<Block>
    requires k < |bs|
  {
    if k + 1 < |bs| && !bs[k + 1].used then Join(bs, k) else bs
  }

  function JoinPrev(bs: seq<Block>, k: nat): seq<Block>
    requires k < |bs|
  {
    if k > 0 && !bs[k - 1].used then Join(bs, k - 1) else bs
  }

  /** kfree of block k: mark it, coalesce with the next block, then with the previous one. */
  function Release(bs: seq<Block>, k: nat): seq<Block>
    requires k < |bs|
  {
    JoinPrev(JoinNext(Mark(bs, k), k), k)
  }

  // ---------------------------------------------------------------------------------------------
  // Tiling
  // ---------------------------------------------------------------------------------------------

  /** Replacing blocks [k, j) by others that cover the same addresses keeps the tiling. */
  lemma SpliceTiles(bs: seq<Block>, start: nat, k: nat, j: nat, mid: seq<Block>)
    requires Tiles(bs, start) && k < j <= |bs| && mid != []
    requires Tiles(mid, bs[k].addr) && mid[|mid| - 1].End() == bs[j - 1].End()
    ensures var t := bs[..k] + mid + bs[j..]; Tiles(t, start) && EndOf(t, start) == EndOf(bs, start)
  {
    var t := bs[..k] + mid + bs[j..];
    assert forall i | 0 <= i < k :: t[i] == bs[i];
    assert forall i | k <= i < k + |mid| :: t[i] == mid[i - k];
    assert forall i | k + |mid| <= i < |t| :: t[i] == bs[i - k - |mid| + j];
    forall i, i' | 0 <= i && i' == i + 1 && i' < |t| ensures t[i'].addr == t[i].addr + 16 + t[i].size {
      if i' < k { assert t[i'] == bs[i']; }
      else if i' == k { assert t[i'] == mid[0]; }
      else if i' < k + |mid| { assert t[i'] == mid[i' - k] && t[i] == mid[i - k]; }
      else if i' == k + |mid| { assert t[i] == mid[|mid| - 1] && t[i'] == bs[j] && bs[j].addr == bs[j - 1].addr + 16 + bs[j - 1].size; }
      else { assert t[i'] == bs[i' - k - |mid| + j] && t[i] == bs[i - k - |mid| + j]; }
    }
  }

  lemma TakeTiles(bs: seq<Block>, start: nat, k: nat, n: nat)
    requires Tiles(bs, start) && k < |bs| && Fits(bs[k], n) && n % 8 == 0
    ensures Tiles(Take(bs, k, n), start) && EndOf(Take(bs, k, n), start) == EndOf(bs, start)
    ensures k < |Take(bs, k, n)| && Take(bs, k, n)[k].addr == bs[k].addr
    ensures Take(bs, k, n)[k].used && Take(bs, k, n)[k].size >= n
  {
    Ordered(bs, start, k, k);
    TakenTiles(bs[k], n);
    assert Take(bs, k, n)[k] == Taken(bs[k], n)[0];
    hide Taken, Tiles, EndOf;
    SpliceTiles(bs, start, k, k + 1, Taken(bs[k], n));
  }

  lemma TakenTiles(b: Block, n: nat)
    requires Fits(b, n) && n % 8 == 0 && b.size % 8 == 0 && b.addr % 8 == 0
    ensures var t := Taken(b, n);
            && t != [] && Tiles(t, b.addr) && t[|t| - 1].End() == b.End()
            && t[0].addr == b.addr && t[0].used && t[0].size >= n
  {
    assert b.size >= n + 32 ==> (b.size - n - 16) % 8 == 0;
  }

  lemma GrowTiles(bs: seq<Block>, start: nat, ext: nat)
    requires Tiles(bs, start) && ext >= 16 && ext % 8 == 0
    ensures Tiles(Grow(bs, start, ext), start) && EndOf(Grow(bs, start, ext), start) == EndOf(bs, start) + ext
  {
    var t := Grow(bs, start, ext);
    assert forall i | 0 <= i < |bs| :: t[i] == bs[i];
  }

  lemma JoinTiles(bs: seq<Block>, start: nat, k: nat)
    requires Tiles(bs, start) && k + 1 < |bs|
    ensures Tiles(Join(bs, k), start) && EndOf(Join(bs, k), start) == EndOf(bs, start)
  {
    Ordered(bs, start, k, k);
    SpliceTiles(bs, start, k, k + 2, [bs[k].(size := bs[k].size + 16 + bs[k + 1].size)]);
  }

  lemma ReleaseTiles(bs: seq<Block>, start: nat, k: nat)
    requires Tiles(bs, start) && k < |bs|
    ensures Tiles(Release(bs, k), start) && EndOf(Release(bs, k), start) == EndOf(bs, start)
  {
    var a := Mark(bs, k);
    assert Tiles(a, start) && EndOf(a, start) == EndOf(bs, start);
    hide Tiles, EndOf;
    var b := JoinNext(a, k);
    if k + 1 < |a| && !a[k + 1].used { JoinTiles(a, start, k); }
    if k > 0 && !b[k - 1].used { JoinTiles(b, start, k - 1); }
  }

  // ---------------------------------------------------------------------------------------------
  // Adjacent free blocks
  // ---------------------------------------------------------------------------------------------

  /** Both sides of the seam between two pieces of the heap are free. */
  function Seam(a: seq<Block>, b: seq<Block>): nat {
    if a != [] && b != [] && !a[|a| - 1].used && !b[0].used then 1 else 0
  }

  /** The number of adjacent pairs of free blocks. */
  function FreePairs(bs: seq<Block>): nat {
    if |bs| < 2 then 0
    else FreePairs(bs[..|bs| - 1]) + (if !bs[|bs| - 2].used && !bs[|bs| - 1].used then 1 else 0)
  }

  lemma {:induction false} PairsOfConcat(a: seq<Block>, b: seq<Block>)
    ensures FreePairs(a + b) == FreePairs(a) + FreePairs(b) + Seam(a, b)
  {
    if b == [] {
      assert a + b == a;
    } else {
      var front := b[..|b| - 1];
      PairsOfConcat(a, front);
      assert (a + b)[..|a + b| - 1] == a + front;
    }
  }

  lemma PairsAround(l: seq<Block>, mid: seq<Block>, r: seq<Block>)
    requires mid != []
    ensures FreePairs(l + mid + r) == FreePairs(l) + FreePairs(mid) + FreePairs(r) + Seam(l, mid) + Seam(mid, r)
  {
    PairsOfConcat(l, mid);
    PairsOfConcat(l + mid, r);
    assert (l + mid)[|l + mid| - 1] == mid[|mid| - 1];
  }

  /** Allocation never creates adjacent free blocks. */
  lemma TakePairs(bs: seq<Block>, k: nat, n: nat)
    requires k < |bs| && Fits(bs[k], n)
    ensures FreePairs(Take(bs, k, n)) <= FreePairs(bs)
  {
    var l, r, t := bs[..k], bs[k + 1..], Taken(bs[k], n);
    assert bs == l + [bs[k]] + r;
    PairsAround(l, [bs[k]], r);
    PairsAround(l, t, r);
  }

  lemma GrowPairs(bs: seq<Block>, start: nat, ext: nat)
    requires ext >= 16
    ensures FreePairs(Grow(bs, start, ext)) <= FreePairs(bs) + 1
  {
    PairsOfConcat(bs, [Block(EndOf(bs, start), ext - 16, false)]);
  }

  lemma ShortPairs(bs: seq<Block>)
    requires 1 <= |bs| <= 2
    ensures FreePairs(bs) == if |bs| == 2 && !bs[0].used && !bs[1].used then 1 else 0
  {
  }

  lemma CutTwo(bs: seq<Block>, k: nat)
    requires k + 1 < |bs|
    ensures bs == bs[..k] + [bs[k], bs[k + 1]] + bs[k + 2..]
    ensures Join(bs, k) == bs[..k] + [bs[k].(size := bs[k].size + 16 + bs[k + 1].size)] + bs[k + 2..]
  {
  }

  lemma SameSeams(l: seq<Block>, a: seq<Block>, b: seq<Block>, r: seq<Block>)
    requires a != [] && b != [] && a[0].used == b[0].used && a[|a| - 1].used == b[|b| - 1].used
    ensures Seam(l, a) == Seam(l, b) && Seam(a, r) == Seam(b, r)
  {
  }

  lemma JoinPairs(bs: seq<Block>, k: nat)
    requires k + 1 < |bs| && !bs[k].used && !bs[k + 1].used
    ensures FreePairs(Join(bs, k)) == FreePairs(bs) - 1
  {
    var l, r := bs[..k], bs[k + 2..];
    var two := [bs[k], bs[k + 1]];
    var one := [bs[k].(size := bs[k].size + 16 + bs[k + 1].size)];
    hide *;
    CutTwo(bs, k);
    ShortPairs(two);
    ShortPairs(one);
    SameSeams(l, two, one, r);
    PairsAround(l, two, r);
    PairsAround(l, one, r);
  }

  lemma MarkPairs(bs: seq<Block>, k: nat)
    requires k < |bs| && bs[k].used
    ensures FreePairs(Mark(bs, k)) == FreePairs(bs) + Seam(bs[..k], [bs[k].(used := false)]) + Seam([bs[k].(used := false)], bs[k + 1..])
  {
    var l, r, b := bs[..k], bs[k + 1..], bs[k].(used := false);
    assert bs == l + [bs[k]] + r && Mark(bs, k) == l + [b] + r;
    ShortPairs([bs[k]]);
    ShortPairs([b]);
    assert Seam(l, [bs[k]]) == 0 && Seam([bs[k]], r) == 0;
    hide FreePairs, Seam, Mark;
    PairsAround(l, [bs[k]], r);
    PairsAround(l, [b], r);
  }

  /** kfree merges every adjacency it creates: the number of free pairs is unchanged. */
  lemma ReleasePairs(bs: seq<Block>, k: nat)
    requires k < |bs| && bs[k].used
    ensures FreePairs(Release(bs, k)) == FreePairs(bs)
  {
    var a := Mark(bs, k);
    var b := JoinNext(a, k);
    MarkSeams(bs, k);
    hide FreePairs, Seam, Join, Mark;
    MarkPairs(bs, k);
    JoinNextKeeps(a, k);
    if k + 1 < |a| && !a[k + 1].used { JoinPairs(a, k); }
    if k > 0 && !b[k - 1].used { JoinPairs(b, k - 1); }
  }

  lemma MarkSeams(bs: seq<Block>, k: nat)
    requires k < |bs| && bs[k].used
    ensures var a := Mark(bs, k);
            && |a| == |bs| && !a[k].used && a[k].addr == bs[k].addr && (forall i | 0 <= i < |bs| && i != k :: a[i] == bs[i])
            && Seam(bs[..k], [bs[k].(used := false)]) == (if k > 0 && !bs[k - 1].used then 1 else 0)
            && Seam([bs[k].(used := false)], bs[k + 1..]) == (if k + 1 < |bs| && !bs[k + 1].used then 1 else 0)
  {
  }

  lemma JoinNextKeeps(a: seq<Block>, k: nat)
    requires k < |a|
    ensures k < |JoinNext(a, k)| && JoinNext(a, k)[k].used == a[k].used && JoinNext(a, k)[k].addr == a[k].addr
    ensures forall i | 0 <= i < k :: JoinNext(a, k)[i] == a[i]
  {
  }

  lemma {:induction false} AllFreePairs(bs: seq<Block>)
    requires bs != [] && forall i | 0 <= i < |bs| :: !bs[i].used
    ensures FreePairs(bs) == |bs| - 1
  {
    if |bs| > 1 { AllFreePairs(bs[..|bs| - 1]); }
  }

  lemma {:induction false} PairCounted(bs: seq<Block>, i: nat)
    requires i + 1 < |bs| && !bs[i].used && !bs[i + 1].used
    ensures FreePairs(bs) >= 1
  {
    if i + 1 < |bs| - 1 { PairCounted(bs[..|bs| - 1], i); }
  }

  // ---------------------------------------------------------------------------------------------
  // Live blocks
  // ---------------------------------------------------------------------------------------------

  ghost predicate IsLive(bs: seq<Block>, addr: nat, size: nat) {
    exists i :: 0 <= i < |bs| && bs[i] == Block(addr, size, true)
  }

  /** Allocation adds exactly one live block; the others keep their address and size. */
  lemma TakeLive(bs: seq<Block>, k: nat, n: nat, addr: nat, size: nat)
    requires k < |bs| && Fits(bs[k], n)
    ensures IsLive(Take(bs, k, n), addr, size) <==>
              IsLive(bs, addr, size) || (addr == bs[k].addr && size == Taken(bs[k], n)[0].size)
  {
    var t, x := Take(bs, k, n), Block(addr, size, true);
    var mid := Taken(bs[k], n);
    assert forall i | 0 <= i < k :: t[i] == bs[i];
    assert forall i | k <= i < k + |mid| :: t[i] == mid[i - k];
    assert forall i | k + |mid| <= i < |t| :: t[i] == bs[i - |mid| + 1];
    if i :| 0 <= i < |bs| && bs[i] == x { assert t[if i < k then i else i + |mid| - 1] == x; }
    if i :| 0 <= i < |t| && t[i] == x {
      if i < k { assert bs[i] == x; }
      else if i >= k + |mid| { assert bs[i - |mid| + 1] == x; }
    }
    assert t[k] == mid[0];
  }

  /** Appending a free block changes no live block. */
  lemma GrowLive(bs: seq<Block>, start: nat, ext: nat, addr: nat, size: nat)
    requires ext >= 16
    ensures IsLive(Grow(bs, start, ext), addr, size) <==> IsLive(bs, addr, size)
  {
    var t, x := Grow(bs, start, ext), Block(addr, size, true);
    if i :| 0 <= i < |bs| && bs[i] == x { assert t[i] == x; }
    if i :| 0 <= i < |t| && t[i] == x { assert bs[i] == x; }
  }

  lemma JoinLive(bs: seq<Block>, k: nat, addr: nat, size: nat)
    requires k + 1 < |bs| && !bs[k].used && !bs[k + 1].used
    ensures IsLive(Join(bs, k), addr, size) <==> IsLive(bs, addr, size)
  {
    var t, x := Join(bs, k), Block(addr, size, true);
    assert forall i | 0 <= i < k :: t[i] == bs[i];
    assert forall i | k < i < |t| :: t[i] == bs[i + 1];
    if i :| 0 <= i < |bs| && bs[i] == x { assert t[if i < k then i else i - 1] == x; }
    if i :| 0 <= i < |t| && t[i] == x { assert bs[if i < k then i else i + 1] == x; }
  }

  /** kfree removes exactly the block it was given. */
  lemma ReleaseLive(bs: seq<Block>, start: nat, k: nat, addr: nat, size: nat)
    requires Tiles(bs, start) && k < |bs| && bs[k].used
    ensures IsLive(Release(bs, k), addr, size) <==> IsLive(bs, addr, size) && addr != bs[k].addr
  {
    var a, x := Mark(bs, k), Block(addr, size, true);
    assert IsLive(a, addr, size) <==> IsLive(bs, addr, size) && addr != bs[k].addr by {
      if i :| 0 <= i < |a| && a[i] == x {
        assert bs[i] == x && i != k;
        DistinctAddr(bs, start, i, k);
      }
      if i :| 0 <= i < |bs| && bs[i] == x && addr != bs[k].addr { assert a[i] == x; }
    }
    var b := JoinNext(a, k);
    if k + 1 < |a| && !a[k + 1].used { JoinLive(a, k, addr, size); }
    assert forall i | 0 <= i < k :: b[i] == bs[i];
    if k > 0 && !b[k - 1].used { JoinLive(b, k - 1, addr, size); }
  }

  lemma DistinctAddr(bs: seq<Block>, start: nat, i: nat, j: nat)
    requires Tiles(bs, start) && i < |bs| && j < |bs| && i != j
    ensures bs[i].addr != bs[j].addr
  {
    Ordered(bs, start, if i < j then i else j, if i < j then j else i);
  }

  /** Live payloads are 8-aligned, lie inside the heap and never overlap. */
  lemma LiveDisjoint(bs: seq<Block>, start: nat, a: nat, s: nat, a': nat, s': nat)
    requires Tiles(bs, start) && IsLive(bs, a, s) && IsLive(bs, a', s') && a != a'
    ensures (a + 16) % 8 == 0 && start <= a && a + 16 + s <= EndOf(bs, start)
    ensures a + 16 + s <= a' || a' + 16 + s' <= a
  {
    var i :| 0 <= i < |bs| && bs[i] == Block(a, s, true);
    var j :| 0 <= j < |bs| && bs[j] == Block(a', s', true);
    Ordered(bs, start, i, i);
    Ordered(bs, start, if i < j then i else j, if i < j then j else i);
  }

  // ---------------------------------------------------------------------------------------------
  // kmalloc and whole runs
  // ---------------------------------------------------------------------------------------------

  /** ALIGN_UP(size, 8). */
  function Round8(size: nat): nat { (size + 7) / 8 * 8 }

  /** ALIGN_UP(n + HDR_SIZE, 4 pages): how far the heap is extended for n bytes. */
  function ExtFor(n: nat): nat { (n + 16 + 16383) / 16384 * 16384 }

  /** extensions counts the calls that extended the heap. */
  datatype HeapState = HeapState(blocks: seq<Block>, extensions: nat)

  datatype Malloced = Malloced(state: HeapState, ptr: nat)

  /** kmalloc: first fit; else one extension and then first fit again; else NULL. */
  function Malloc(s: HeapState, size: nat, heapEnd: nat): Malloced {
    if size == 0 then Malloced(s, 0)
    else
      var bs, n := s.blocks, Round8(size);
      var k := FirstFit(bs, n);
      if k < |bs| then Malloced(s.(blocks := Take(bs, k, n)), bs[k].addr + 16)
      else if EndOf(bs, HEAP_START) + ExtFor(n) > heapEnd then Malloced(s, 0)
      else
        GrowFits(bs, HEAP_START, n);
        var g := Grow(bs, HEAP_START, ExtFor(n));
        Malloced(HeapState(Take(g, |bs|, n), s.extensions + 1), EndOf(bs, HEAP_START) + 16)
  }

  /** After the extension the scan finds the new block, so the retry succeeds and is the last. */
  lemma {:induction false} GrowFits(bs: seq<Block>, start: nat, n: nat)
    requires FirstFit(bs, n) == |bs|
    ensures ExtFor(n) >= 16 && ExtFor(n) % 8 == 0
    ensures FirstFit(Grow(bs, start, ExtFor(n)), n) == |bs| && Fits(Grow(bs, start, ExtFor(n))[|bs|], n)
  {
    var g := Grow(bs, start, ExtFor(n));
    var k := FirstFit(g, n);
    assert Fits(g[|bs|], n);
    assert forall i | 0 <= i < |bs| :: g[i] == bs[i] && !Fits(bs[i], n);
  }

  /** kmalloc returns NULL exactly for size 0, or when no free block fits and the rounded extension
      would pass the end of the heap. */
  lemma NullIff(s: HeapState, size: nat, heapEnd: nat)
    requires Tiles(s.blocks, HEAP_START)
    ensures Malloc(s, size, heapEnd).ptr == 0 <==>
              || size == 0
              || ((forall i | 0 <= i < |s.blocks| :: !Fits(s.blocks[i], Round8(size)))
                  && EndOf(s.blocks, HEAP_START) + ExtFor(Round8(size)) > heapEnd)
    ensures Malloc(s, size, heapEnd).ptr == 0 ==> Malloc(s, size, heapEnd).state == s
  {
    var k := FirstFit(s.blocks, Round8(size));
    if size > 0 && k < |s.blocks| { assert Fits(s.blocks[k], Round8(size)); }
  }

  datatype HeapOp = MallocOp(size: nat) | FreeOp(k: nat)

  ghost predicate HeapStep(s: HeapState, op: HeapOp, heapEnd: nat, t: HeapState) {
    match op
    case MallocOp(size) => t == Malloc(s, size, heapEnd).state
    case FreeOp(k) => k < |s.blocks| && s.blocks[k].used && t == s.(blocks := Release(s.blocks, k))
  }

  /** What every reachable heap satisfies. */
  ghost predicate HeapInv(s: HeapState, heapEnd: nat) {
    && Tiles(s.blocks, HEAP_START) && s.blocks != []
    && EndOf(s.blocks, HEAP_START) <= heapEnd
    && FreePairs(s.blocks) <= s.extensions
  }

  lemma MallocKeeps(s: HeapState, size: nat, heapEnd: nat)
    requires HeapInv(s, heapEnd)
    ensures HeapInv(Malloc(s, size, heapEnd).state, heapEnd)
  {
    if size > 0 {
      var bs, n := s.blocks, Round8(size);
      var k := FirstFit(bs, n);
      if k < |bs| {
        TakeTiles(bs, HEAP_START, k, n);
        TakePairs(bs, k, n);
      } else if EndOf(bs, HEAP_START) + ExtFor(n) <= heapEnd {
        GrowFits(bs, HEAP_START, n);
        var g := Grow(bs, HEAP_START, ExtFor(n));
        GrowTiles(bs, HEAP_START, ExtFor(n));
        GrowPairs(bs, HEAP_START, ExtFor(n));
        TakeTiles(g, HEAP_START, |bs|, n);
        TakePairs(g, |bs|, n);
      }
    }
  }

  lemma FreeKeeps(s: HeapState, k: nat, heapEnd: nat)
    requires HeapInv(s, heapEnd) && k < |s.blocks| && s.blocks[k].used
    ensures HeapInv(s.(blocks := Release(s.blocks, k)), heapEnd)
  {
    ReleaseTiles(s.blocks, HEAP_START, k);
    ReleasePairs(s.blocks, k);
  }

  ghost predicate IsHeapRun(run: seq<HeapState>, ops: seq<HeapOp>, heapEnd: nat) {
    |run| == |ops| + 1 && forall i | 0 <= i < |ops| :: HeapStep(run[i], ops[i], heapEnd, run[i + 1])
  }

  /** In every run: the blocks tile the heap and adjacent free pairs never outnumber extensions. */
  lemma {:induction false} HeapInEveryRun(run: seq<HeapState>, ops: seq<HeapOp>, heapEnd: nat, k: nat)
    requires IsHeapRun(run, ops, heapEnd) && HeapInv(run[0], heapEnd) && k <= |ops|
    ensures HeapInv(run[k], heapEnd)
  {
    if k > 0 {
      HeapInEveryRun(run, ops, heapEnd, k - 1);
      assert HeapStep(run[k - 1], ops[k - 1], heapEnd, run[k - 1 + 1]);
      match ops[k - 1]
      case MallocOp(size) => MallocKeeps(run[k - 1], size, heapEnd);
      case FreeOp(i) => FreeKeeps(run[k - 1], i, heapEnd);
    }
  }

  /** With no extension no two free blocks touch, and once nothing is live the heap is again the one
      block it started as; in general at most extensions + 1 blocks remain. */
  lemma FullyCoalesced(s: HeapState, heapEnd: nat)
    requires HeapInv(s, heapEnd)
    ensures s.extensions == 0 ==> forall i, j | 0 <= i && j == i + 1 && j < |s.blocks| :: s.blocks[i].used || s.blocks[j].used
    ensures (forall i | 0 <= i < |s.blocks| :: !s.blocks[i].used) ==> |s.blocks| <= s.extensions + 1
    ensures (forall i | 0 <= i < |s.blocks| :: !s.blocks[i].used) && s.extensions == 0 ==>
              s.blocks == [Block(HEAP_START, EndOf(s.blocks, HEAP_START) - HEAP_START - 16, false)]
  {
    forall i, j | 0 <= i && j == i + 1 && j < |s.blocks| && !s.blocks[i].used && !s.blocks[j].used
      ensures s.extensions > 0
    {
      PairCounted(s.blocks, i);
    }
    if forall i | 0 <= i < |s.blocks| :: !s.blocks[i].used { AllFreePairs(s.blocks); }
  }

  lemma StepEnd(s: HeapState, op: HeapOp, heapEnd: nat, t: HeapState)
    requires HeapInv(s, heapEnd) && HeapStep(s, op, heapEnd, t)
    ensures s.extensions <= t.extensions
    ensures s.extensions == t.extensions ==> EndOf(t.blocks, HEAP_START) == EndOf(s.blocks, HEAP_START)
  {
    match op
    case MallocOp(size) =>
      var k := FirstFit(s.blocks, Round8(size));
      if size > 0 && k < |s.blocks| { TakeTiles(s.blocks, HEAP_START, k, Round8(size)); }
    case FreeOp(k) => ReleaseTiles(s.blocks, HEAP_START, k);
  }

  /** The number of extensions never falls, and while it stays the same so does the heap's end. */
  lemma {:induction false} EndInEveryRun(run: seq<HeapState>, ops: seq<HeapOp>, heapEnd: nat, k: nat)
    requires IsHeapRun(run, ops, heapEnd) && HeapInv(run[0], heapEnd) && k <= |ops|
    ensures run[0].extensions <= run[k].extensions
    ensures run[0].extensions == run[k].extensions ==> EndOf(run[k].blocks, HEAP_START) == EndOf(run[0].blocks, HEAP_START)
  {
    if k > 0 {
      EndInEveryRun(run, ops, heapEnd, k - 1);
      HeapInEveryRun(run, ops, heapEnd, k - 1);
      assert HeapStep(run[k - 1], ops[k - 1], heapEnd, run[k - 1 + 1]);
      StepEnd(run[k - 1], ops[k - 1], heapEnd, run[k]);
    }
  }

  /** The heap kmalloc_init makes: one free block of four pages. */
  function InitialHeap(): HeapState {
    HeapState([Block(HEAP_START, 16368, false)], 0)
  }

  /** In any run from the initial heap without extension, freeing everything, in any order, gives the initial heap back. */
  lemma FreedInEveryRun(run: seq<HeapState>, ops: seq<HeapOp>, heapEnd: nat, k: nat)
    requires IsHeapRun(run, ops, heapEnd) && run[0] == InitialHeap() && HEAP_START + 16384 <= heapEnd && k <= |ops|
    requires run[k].extensions == 0 && forall i | 0 <= i < |run[k].blocks| :: !run[k].blocks[i].used
    ensures run[k] == InitialHeap()
  {
    assert HeapInv(run[0], heapEnd);
    EndInEveryRun(run, ops, heapEnd, k);
    HeapInEveryRun(run, ops, heapEnd, k);
    FullyCoalesced(run[k], heapEnd);
  }

  // ---------------------------------------------------------------------------------------------
  // How much kmalloc takes
  // ---------------------------------------------------------------------------------------------

  /** The least multiple of 8 that holds the request, and the least multiple of four pages that holds it with a header. */
  lemma RoundedLeast(size: nat)
    ensures Round8(size) % 8 == 0 && size <= Round8(size) < size + 8
    ensures ExtFor(size) % 16384 == 0 && size + 16 <= ExtFor(size) < size + 16 + 16384
  {
  }

  /** The block handed out is at most 24 bytes larger than asked for, and a piece split off has room for at least 16. */
  lemma TakenSize(b: Block, n: nat)
    requires Fits(b, n) && n % 8 == 0 && b.size % 8 == 0
    ensures var t := Taken(b, n);
      && 1 <= |t| <= 2 && t[0].addr == b.addr && t[0].used && n <= t[0].size <= n + 24
      && (|t| == 2 ==> !t[1].used && t[1].size >= 16)
  {
  }

  ghost predicate HandsOut(t: seq<Block>, ptr: nat, size: nat) {
    exists i :: 0 <= i < |t| && t[i].used && t[i].addr + 16 == ptr && size <= t[i].size <= size + 31
  }

  /** Every free block was there before or has room for at least 16 bytes. */
  ghost predicate NoCrumbs(bs: seq<Block>, t: seq<Block>) {
    forall i | 0 <= i < |t| && !t[i].used :: t[i] in bs || t[i].size >= 16
  }

  lemma TakeExact(bs: seq<Block>, k: nat, size: nat)
    requires k < |bs| && Fits(bs[k], Round8(size)) && bs[k].size % 8 == 0
    ensures var t := Take(bs, k, Round8(size)); HandsOut(t, bs[k].addr + 16, size) && NoCrumbs(bs, t)
  {
    RoundedLeast(size);
    var n := Round8(size);
    var t, mid := Take(bs, k, n), Taken(bs[k], n);
    TakenSize(bs[k], n);
    hide Taken, Round8;
    assert t[k] == mid[0];
    assert forall i | 0 <= i < k :: t[i] == bs[i];
    assert forall i | k + |mid| <= i < |t| :: t[i] == bs[i - |mid| + 1];
    forall i | 0 <= i < |t| && !t[i].used ensures t[i] in bs || t[i].size >= 16 {
      if k <= i < k + |mid| { assert t[i] == mid[i - k]; }
    }
  }

  /**
   * What kmalloc takes from the heap: the block it hands out holds the request with less than 32 bytes to spare, nothing
   * too small to use is split off, and the heap grows, by the least multiple of four pages that holds the request and
   * a header, exactly when no free block holds it.
   */
  lemma MallocExact(s: HeapState, size: nat, heapEnd: nat)
    requires HeapInv(s, heapEnd) && size > 0 && Malloc(s, size, heapEnd).ptr != 0
    ensures var r := Malloc(s, size, heapEnd);
      && HandsOut(r.state.blocks, r.ptr, size)
      && (forall i | 0 <= i < |r.state.blocks| && !r.state.blocks[i].used :: r.state.blocks[i] in s.blocks || r.state.blocks[i].size >= 16)
    ensures var grown := EndOf(Malloc(s, size, heapEnd).state.blocks, HEAP_START) - EndOf(s.blocks, HEAP_START);
      if exists i :: 0 <= i < |s.blocks| && !s.blocks[i].used && s.blocks[i].size >= size then grown == 0
      else grown % 16384 == 0 && (size + 7) / 8 * 8 + 16 <= grown < (size + 7) / 8 * 8 + 16 + 16384
  {
    var bs, n := s.blocks, Round8(size);
    var k := FirstFit(bs, n);
    FitsSize(bs, size);
    if k < |bs| { TookExact(bs, k, size); } else { GrewExact(bs, size); }
    hide Take, Grow, HandsOut, Tiles, FreePairs, Round8, ExtFor, FirstFit, EndOf, Fits;
  }

  lemma TookExact(bs: seq<Block>, k: nat, size: nat)
    requires Tiles(bs, HEAP_START) && k < |bs| && Fits(bs[k], Round8(size))
    ensures var t := Take(bs, k, Round8(size));
      HandsOut(t, bs[k].addr + 16, size) && NoCrumbs(bs, t) && EndOf(t, HEAP_START) == EndOf(bs, HEAP_START)
  {
    RoundedLeast(size);
    TakeExact(bs, k, size);
    TakeTiles(bs, HEAP_START, k, Round8(size));
    hide *;
  }

  lemma GrewExact(bs: seq<Block>, size: nat)
    requires Tiles(bs, HEAP_START) && FirstFit(bs, Round8(size)) == |bs|
    ensures var n := Round8(size);
      && n % 8 == 0 && ExtFor(n) % 16384 == 0 && n + 16 <= ExtFor(n) < n + 16 + 16384
      && var g := Grow(bs, HEAP_START, ExtFor(n));
      && |g| == |bs| + 1 && Fits(g[|bs|], n)
      && var t := Take(g, |bs|, n);
      && HandsOut(t, EndOf(bs, HEAP_START) + 16, size) && NoCrumbs(bs, t) && EndOf(t, HEAP_START) == EndOf(bs, HEAP_START) + ExtFor(n)
  {
    var n := Round8(size);
    RoundedLeast(size);
    RoundedLeast(n);
    GrowFits(bs, HEAP_START, n);
    GrowTiles(bs, HEAP_START, ExtFor(n));
    var g := Grow(bs, HEAP_START, ExtFor(n));
    assert g[|bs|].addr == EndOf(bs, HEAP_START);
    hide Round8, ExtFor, Take, HandsOut, NoCrumbs, EndOf, Tiles, Grow;
    TookExact(g, |bs|, size);
    GrownCrumbs(bs, ExtFor(n), Take(g, |bs|, n));
  }

  /** Payload sizes are multiples of 8, so holding the request is holding it rounded up. */
  lemma FitsSize(bs: seq<Block>, size: nat)
    requires Tiles(bs, HEAP_START)
    ensures FirstFit(bs, Round8(size)) < |bs| <==> exists i :: 0 <= i < |bs| && !bs[i].used && bs[i].size >= size
    ensures Round8(size) == (size + 7) / 8 * 8 && Round8(size) % 8 == 0
  {
    assert Round8(size) == (size + 7) / 8 * 8;
    RoundedLeast(size);
    forall i | 0 <= i < |bs| && bs[i].size >= size ensures bs[i].size >= Round8(size) { HoldsRounded(bs[i].size, size); }
    hide Round8;
    var k := FirstFit(bs, Round8(size));
    if k < |bs| { assert Fits(bs[k], Round8(size)) && bs[k].size >= size; }
    if i :| 0 <= i < |bs| && !bs[i].used && bs[i].size >= size { assert Fits(bs[i], Round8(size)); }
  }

  lemma HoldsRounded(x: nat, size: nat)
    requires x % 8 == 0 && x >= size
    ensures x >= Round8(size)
  {
    var q, r := x / 8, (size + 7) / 8;
    assert x == 8 * q && 8 * r <= size + 7;
    assert r <= q;
  }

  lemma GrownCrumbs(bs: seq<Block>, ext: nat, t: seq<Block>)
    requires ext >= 32 && NoCrumbs(Grow(bs, HEAP_START, ext), t)
    ensures NoCrumbs(bs, t)
  {
    var g := Grow(bs, HEAP_START, ext);
    forall i | 0 <= i < |t| && !t[i].used ensures t[i] in bs || t[i].size >= 16 {
      if t[i] in g && t[i] !in bs { assert t[i] == g[|bs|]; }
    }
  }
}
