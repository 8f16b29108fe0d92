/** kmalloc, kfree and krealloc on linked headers in memory, proved against the block sequence. */
module Heap {
  import opened Base
  import opened HeapBlocks
  import opened HeapMem

  /** Every word of every live payload is as before. */
  ghost predicate KeepsPayloads(m: Mem, bs: seq<Block>, n: Mem) {
    forall i: nat, w: nat | i < |bs| && bs[i].used && bs[i].addr + 16 <= w < bs[i].End() :: At(n, w) == At(m, w)
  }

  lemma MarkPayloads(m: Mem, n: Mem, bs: seq<Block>, start: nat, k: nat)
    requires Tiles(bs, start) && k < |bs| && SameOutside(m, n, bs[k].addr, bs[k].addr + 16)
    ensures KeepsPayloads(m, bs, n)
  {
    forall i: nat, w: nat | i < |bs| && bs[i].used && bs[i].addr + 16 <= w < bs[i].End() ensures At(n, w) == At(m, w) {
      if i != k { Apart(bs, start, i, k); }
    }
  }

  lemma SplitPayloads(m: Mem, n: Mem, bs: seq<Block>, start: nat, k: nat)
    requires Tiles(bs, start) && k < |bs| && !bs[k].used && Local(m, n, bs, k)
    ensures KeepsPayloads(m, bs, n)
  {
    forall i: nat, w: nat | i < |bs| && bs[i].used && bs[i].addr + 16 <= w < bs[i].End() ensures At(n, w) == At(m, w) {
      Apart(bs, start, i, k);
      if k + 1 < |bs| && i != k + 1 { Apart(bs, start, i, k + 1); }
    }
  }

  lemma JoinPayloads(m: Mem, n: Mem, bs: seq<Block>, start: nat, k: nat)
    requires Tiles(bs, start) && k + 1 < |bs| && JoinLocal(m, n, bs, k)
    ensures KeepsPayloads(m, bs, n)
  {
    forall i: nat, w: nat | i < |bs| && bs[i].used && bs[i].addr + 16 <= w < bs[i].End() ensures At(n, w) == At(m, w) {
      if i != k { Apart(bs, start, i, k); }
      if k + 2 < |bs| && i != k + 2 { Apart(bs, start, i, k + 2); }
    }
  }

  lemma AppendPayloads(m: Mem, bs: seq<Block>, start: nat, size: nat)
    requires Tiles(bs, start) && bs != [] && EndOf(bs, start) + 16 < WORD_LIMIT && size < WORD_LIMIT
    ensures bs[|bs| - 1].addr < WORD_LIMIT
    ensures KeepsPayloads(m, bs, AppendMem(m, bs[|bs| - 1].addr, EndOf(bs, start), size))
  {
    var last := |bs| - 1;
    forall i: nat, w: nat | i < |bs| && bs[i].used && bs[i].addr + 16 <= w < bs[i].End()
      ensures At(AppendMem(m, bs[last].addr, EndOf(bs, start), size), w) == At(m, w)
    {
      Ordered(bs, start, i, i);
      if i != last { Apart(bs, start, i, last); }
    }
  }

  /** Live payloads of t that were live in bs are kept across both steps. */
  lemma PayloadsCompose(m: Mem, bs: seq<Block>, n: Mem, t: seq<Block>, o: Mem)
    requires KeepsPayloads(m, bs, n) && KeepsPayloads(n, t, o)
    requires forall i: nat | i < |bs| && bs[i].used :: bs[i] in t
    ensures KeepsPayloads(m, bs, o)
  {
    forall i: nat, w: nat | i < |bs| && bs[i].used && bs[i].addr + 16 <= w < bs[i].End() ensures At(o, w) == At(m, w) {
      var j: nat :| j < |t| && t[j] == bs[i];
      assert At(o, w) == At(n, w);
    }
  }

  /** ALIGN_UP(bytes, PAGE_SIZE) on 32-bit words. */
  function PageUp(bytes: u32): (r: nat)
    ensures r % 4096 == 0 && r < WORD_LIMIT
    ensures bytes + 4095 < WORD_LIMIT ==> bytes <= r < bytes + 4096
  {
    (bytes + 4095) % WORD_LIMIT / 4096 * 4096
  }

  class KernelHeap {
    var mem: Mem
    var heapStart: nat
    var heapCur: nat
    var heapEnd: nat
    ghost var blocks: seq<Block>
    ghost var extensions: nat

    ghost function S(): HeapState
      reads this
    {
      HeapState(blocks, extensions)
    }

    /** The list headed by heapStart represents the blocks, which tile [HEAP_START, heapCur). */
    ghost predicate Valid()
      reads this
    {
      && heapStart == 0xD000_0000 && heapEnd == 0xD400_0000
      && HeapInv(S(), heapEnd) && heapCur == EndOf(blocks, 0xD000_0000)
      && Rep(mem, blocks) && Covers(mem, 0xD000_0000, heapEnd)
    }

    /** kmalloc_init: one free block of four pages. */
    constructor (mem: Mem)
      requires Covers(mem, 0xD000_0000, 0xD400_0000)
      ensures Valid() && blocks == [Block(0xD000_0000, 16368, false)] && extensions == 0
    {
      var b := 0xD000_0000;
      heapStart, heapCur, heapEnd := b, b + 16384, 0xD400_0000;
      this.mem := mem[b := MAGIC_FREE][b + 4 := 16368][b + 8 := 0][b + 12 := 0];
      blocks := [Block(b, 16368, false)];
      extensions := 0;
      new;
      assert Header(this.mem, blocks, 0);
    }

    /** heap_sbrk, with 32-bit arithmetic. */
    method Sbrk(bytes: u32) returns (p: nat)
      requires 0 < heapCur <= heapEnd < WORD_LIMIT
      modifies this`heapCur
      ensures p != 0 ==> p == old(heapCur) && heapCur == (old(heapCur) + PageUp(bytes)) % WORD_LIMIT
      ensures p == 0 ==> heapCur == old(heapCur)
      ensures (p == 0 <==> old(heapCur) + PageUp(bytes) > heapEnd) <==> old(heapCur) + PageUp(bytes) < WORD_LIMIT
    {
      var size := PageUp(bytes);
      if (heapCur + size) % WORD_LIMIT > heapEnd { return 0; }
      p := heapCur;
      heapCur := (heapCur + size) % WORD_LIMIT;
    }

    /** The linked structure without the bound on free pairs. */
    ghost predicate Linked()
      reads this
    {
      && heapStart == 0xD000_0000 && heapEnd == 0xD400_0000
      && Tiles(blocks, 0xD000_0000) && blocks != [] && EndOf(blocks, 0xD000_0000) <= heapEnd
      && heapCur == EndOf(blocks, 0xD000_0000)
      && Rep(mem, blocks) && Covers(mem, 0xD000_0000, heapEnd)
    }

    /** kfree: null and blocks that are not in use are ignored; otherwise the block is marked free and
        merged with a free successor and then with a free predecessor. */
    method Kfree(ptr: nat, ghost k: nat)
      requires Valid() && (ptr == 0 || (k < |blocks| && ptr == blocks[k].addr + 16))
      modifies this`mem, this`blocks
      ensures Valid()
      ensures if ptr == 0 || !old(blocks)[k].used then blocks == old(blocks) && mem == old(mem)
              else blocks == Release(old(blocks), k) && KeepsPayloads(old(mem), Mark(old(blocks), k), mem)
    {
      hide *;
      if ptr == 0 { return; }
      var b := ptr - 16;
      ValidParts(this);
      HeadIs(mem, blocks, k);
      if At(mem, b) != MAGIC_USED { return; }
      ghost var bs, m0 := blocks, mem;
      FreeKeeps(S(), k, heapEnd);
      StateOf(this);
      MarkFree(b, k);
      ghost var a, m1 := blocks, mem;
      MarkSeams(bs, k);
      MergeNext(b, k);
      ghost var c, m2 := blocks, mem;
      JoinNextKeeps(a, k);
      MergePrev(b, k);
      LiveStay(a, k);
      PayloadsCompose(m0, a, m1, a, m2);
      PayloadsCompose(m0, a, m2, c, mem);
      ReleaseIs(bs, k);
      ValidAgain(this);
    }

    /** b->magic = MAGIC_FREE. */
    method MarkFree(b: nat, ghost k: nat)
      requires Linked() && k < |blocks| && b == blocks[k].addr
      modifies this`mem, this`blocks
      ensures Linked() && blocks == Mark(old(blocks), k) && KeepsPayloads(old(mem), blocks, mem)
    {
      hide Linked, Tiles, Rep, EndOf, KeepsPayloads, Covers, Mark;
      ghost var bs := blocks;
      LinkedIs(this);
      MarkAll(mem, bs, k, false, heapEnd);
      mem := mem[b := MAGIC_FREE];
      blocks := Mark(blocks, k);
      MarkIs(bs, k);
      LinkedIs(this);
    }

    /** Coalesce with next. */
    method MergeNext(b: nat, ghost k: nat)
      requires Linked() && k < |blocks| && b == blocks[k].addr
      modifies this`mem, this`blocks
      ensures Linked() && blocks == JoinNext(old(blocks), k) && KeepsPayloads(old(mem), old(blocks), mem)
    {
      assert Header(mem, blocks, k);
      var next := At(mem, b + 8);
      if next != 0 && At(mem, next) == MAGIC_FREE {
        NextIs(mem, blocks, k);
        JoinAtAddress(b, k);
      } else {
        NextIs(mem, blocks, k);
      }
    }

    /** Coalesce with prev. */
    method MergePrev(b: nat, ghost k: nat)
      requires Linked() && k < |blocks| && b == blocks[k].addr
      modifies this`mem, this`blocks
      ensures Linked() && blocks == JoinPrev(old(blocks), k) && KeepsPayloads(old(mem), old(blocks), mem)
    {
      assert Header(mem, blocks, k);
      var prev := At(mem, b + 12);
      if prev != 0 && At(mem, prev) == MAGIC_FREE {
        PrevIs(mem, blocks, k);
        JoinAtAddress(prev, k - 1);
      } else {
        PrevIs(mem, blocks, k);
      }
    }

    /** The stores of one merge: size, back link of the block after, forward link. */
    method JoinAtAddress(left: nat, ghost k: nat)
      requires Linked() && k + 1 < |blocks| && left == blocks[k].addr
      modifies this`mem, this`blocks
      ensures Linked() && blocks == Join(old(blocks), k) && KeepsPayloads(old(mem), old(blocks), mem)
    {
      ghost var bs, m0 := blocks, mem;
      Ordered(bs, 0xD000_0000, k, k + 1);
      JoinRep(mem, bs, 0xD000_0000, k);
      JoinTiles(bs, 0xD000_0000, k);
      JoinMemKeys(mem, bs, 0xD000_0000, k);
      mem := JoinMem(mem, left);
      blocks := Join(bs, k);
      JoinPayloads(m0, mem, bs, 0xD000_0000, k);
    }

    /** split_block. */
    method SplitBlock(b: nat, need: nat, ghost k: nat)
      requires Linked() && k < |blocks| && b == blocks[k].addr && Fits(blocks[k], need) && need % 8 == 0
      modifies this`mem, this`blocks
      ensures Linked() && KeepsPayloads(old(mem), old(blocks), mem)
      ensures blocks == if old(blocks)[k].size < need + 32 then old(blocks) else Split(old(blocks), k, need)
    {
      ghost var m0, bs := mem, blocks;
      SizeIs(mem, bs, k);
      Ordered(bs, 0xD000_0000, k, k);
      if At(mem, b + 4) < need + 32 { return; }
      SplitRep(mem, bs, 0xD000_0000, k, need);
      SplitTiles(bs, 0xD000_0000, k, need);
      SplitMemKeys(mem, bs, k, need);
      hide Tiles, Rep, EndOf, KeepsPayloads, SplitMem, Split, Local;
      mem := SplitMem(mem, b, need);
      blocks := Split(bs, k, need);
      SplitPayloads(m0, mem, bs, 0xD000_0000, k);
    }

    /** split_block and b->magic = MAGIC_USED. */
    method TakeBlock(b: nat, need: nat, ghost k: nat)
      requires Linked() && k < |blocks| && b == blocks[k].addr && Fits(blocks[k], need) && need % 8 == 0
      modifies this`mem, this`blocks
      ensures Linked() && blocks == Take(old(blocks), k, need) && KeepsPayloads(old(mem), old(blocks), mem)
    {
      ghost var m0, bs := mem, blocks;
      TakeSplit(bs, k, need);
      hide Take, Split, Tiles, Rep, EndOf, KeepsPayloads;
      SplitBlock(b, need, k);
      ghost var m1, t := mem, blocks;
      MarkUsed(b, k);
      PayloadsCompose(m0, bs, m1, t, mem);
    }

    method MarkUsed(b: nat, ghost k: nat)
      requires Linked() && k < |blocks| && b == blocks[k].addr
      modifies this`mem, this`blocks
      ensures Linked() && blocks == old(blocks)[k := old(blocks)[k].(used := true)] && KeepsPayloads(old(mem), old(blocks), mem)
    {
      hide Linked, Tiles, Rep, EndOf, KeepsPayloads, Covers;
      LinkedIs(this);
      MarkAll(mem, blocks, k, true, heapEnd);
      mem := mem[b := MAGIC_USED];
      blocks := blocks[k := blocks[k].(used := true)];
      LinkedIs(this);
    }

    /** The scan of kmalloc from heap_start along the next pointers. */
    method Scan(n: nat) returns (b: nat, ghost k: nat)
      requires Linked()
      ensures k == FirstFit(blocks, n)
      ensures b == if FirstFit(blocks, n) < |blocks| then blocks[FirstFit(blocks, n)].addr else 0
    {
      b, k := heapStart, 0;
      while b != 0
        invariant k <= |blocks| && b == if k < |blocks| then blocks[k].addr else 0
        invariant forall i | 0 <= i < k :: !Fits(blocks[i], n)
        decreases |blocks| - k
      {
        assert k < |blocks| && Header(mem, blocks, k);
        if At(mem, b) == MAGIC_FREE && At(mem, b + 4) >= n {
          FirstFitIs(blocks, n, k);
          return;
        }
        if k + 1 < |blocks| { Ordered(blocks, 0xD000_0000, k + 1, k + 1); }
        b := At(mem, b + 8);
        k := k + 1;
      }
      NotZero(blocks, k);
      FirstFitIs(blocks, n, k);
    }

    /** The walk to the last block. */
    method LastBlock() returns (last: nat)
      requires Linked()
      ensures last == blocks[|blocks| - 1].addr
    {
      last := heapStart;
      ghost var k := 0;
      assert Header(mem, blocks, 0);
      while At(mem, last + 8) != 0
        invariant k < |blocks| && last == blocks[k].addr && Header(mem, blocks, k)
        decreases |blocks| - k
      {
        last := At(mem, last + 8);
        k := k + 1;
        assert Header(mem, blocks, k);
      }
      NextNonzero(mem, blocks, k);
    }

    /** The extension of kmalloc: sbrk, a new free block, appended to the list. */
    method Extend(n: nat) returns (ok: bool)
      requires Linked() && n <= 0x2BFF_0000 && n % 8 == 0
      modifies this`mem, this`blocks, this`heapCur, this`extensions
      ensures Linked()
      ensures ok <==> EndOf(old(blocks), 0xD000_0000) + ExtFor(n) <= heapEnd
      ensures !ok ==> blocks == old(blocks) && extensions == old(extensions) && mem == old(mem)
      ensures ok ==> ExtFor(n) >= 16 && blocks == Grow(old(blocks), 0xD000_0000, ExtFor(n)) && extensions == old(extensions) + 1
      ensures KeepsPayloads(old(mem), old(blocks), mem)
    {
      ghost var m0, bs := mem, blocks;
      var ext := ExtFor(n);
      ExtBounds(n);
      Ordered(bs, 0xD000_0000, 0, |bs| - 1);
      hide Tiles, Rep, EndOf, KeepsPayloads, ExtFor, Covers, Grow;
      var last := LastBlock();
      var nb := Sbrk(ext);
      NoChange(mem, bs);
      if nb == 0 { return false; }
      Append(last, nb, ext, bs);
      extensions := extensions + 1;
      ok := true;
    }

    /** The stores that append the new block. */
    method Append(last: nat, nb: nat, ext: nat, ghost bs: seq<Block>)
      requires Tiles(bs, 0xD000_0000) && Rep(mem, bs) && Covers(mem, 0xD000_0000, heapEnd) && blocks == bs != []
      requires heapStart == 0xD000_0000 && heapEnd == 0xD400_0000 && ext >= 16 && ext % 8 == 0
      requires nb == EndOf(bs, 0xD000_0000) && last == bs[|bs| - 1].addr && nb + ext == heapCur <= heapEnd
      modifies this`mem, this`blocks
      ensures Linked() && blocks == Grow(bs, 0xD000_0000, ext) && KeepsPayloads(old(mem), bs, mem)
    {
      AppendRep(mem, bs, 0xD000_0000, ext);
      GrowTiles(bs, 0xD000_0000, ext);
      AppendPayloads(mem, bs, 0xD000_0000, ext - 16);
      hide Tiles, Rep, EndOf, KeepsPayloads;
      mem := AppendMem(mem, last, nb, ext - 16);
      blocks := Grow(bs, 0xD000_0000, ext);
    }

    /** kmalloc, for sizes whose rounded extension does not wrap: first fit, otherwise one extension
        and one retry, otherwise NULL. Payloads already handed out are untouched. */
    method Kmalloc(size: nat) returns (ptr: nat)
      requires Valid() && size <= 0x2BFE_0000
      modifies this`mem, this`blocks, this`heapCur, this`extensions
      ensures Valid() && S() == Malloc(old(S()), size, heapEnd).state && ptr == Malloc(old(S()), size, heapEnd).ptr
      ensures KeepsPayloads(old(mem), old(blocks), mem)
      decreases if FirstFit(blocks, Round8(size)) < |blocks| then 0 else 1
    {
      hide *;
      ghost var s0, m0, bs := S(), mem, blocks;
      ValidParts(this);
      NoChange(mem, bs);
      MallocKeeps(s0, size, heapEnd);
      if size == 0 { MallocZero(s0, heapEnd); return 0; }
      var n := Round8(size);
      RoundTwice(size);
      var b, k := Scan(n);
      NotZero(bs, k);
      MallocCases(s0, size, heapEnd);
      if b != 0 {
        FitsFirst(bs, n);
        TakeBlock(b, n, k);
        ptr := b + 16;
      } else {
        var ok := Extend(n);
        StateOf(this);
        if !ok { ValidAgain(this); return 0; }
        Regrown(s0, n, heapEnd);
        RegrownKeeps(s0, n, heapEnd);
        ghost var m1, g := mem, blocks;
        ValidAgain(this);
        ptr := Kmalloc(n);
        GrownMembers(bs, ExtFor(n));
        PayloadsCompose(m0, bs, m1, g, mem);
        return;
      }
      StateOf(this);
      ValidAgain(this);
    }

    /** memcpy of len bytes, in words, into the payload of block d. */
    method CopyInto(dst: nat, src: nat, len: nat, ghost d: nat)
      requires Linked() && d < |blocks| && dst == blocks[d].addr + 16 && len <= blocks[d].size && len % 4 == 0
      requires 0xD000_0000 <= src && src + len <= heapEnd && src % 4 == 0 && dst % 4 == 0
      requires src + len <= dst || dst + blocks[d].size <= src
      modifies this`mem
      ensures Linked() && Copied(old(mem), src, mem, dst, len)
      ensures forall a: nat | !(dst <= a < dst + len) :: At(mem, a) == At(old(mem), a)
    {
      hide *;
      ghost var m0 := mem;
      var x := 0;
      CopyNone(m0, src, dst);
      EndIs(blocks[d]);
      while x < len
        invariant 0 <= x <= len && x % 4 == 0 && Linked()
        invariant Copied(m0, src, mem, dst, x)
        invariant forall a: nat | !(dst <= a < dst + x) :: At(mem, a) == At(m0, a)
      {
        ghost var m := mem;
        StoreWord(dst + x, At(mem, src + x), d);
        CopyMore(m0, m, src, dst, x);
        x := x + 4;
      }
    }

    /** One store inside a payload. */
    method StoreWord(w: nat, v: u32, ghost d: nat)
      requires Linked() && d < |blocks| && blocks[d].addr + 16 <= w < blocks[d].End()
      modifies this`mem
      ensures Linked() && mem == old(mem)[w := v]
    {
      PayloadWrite(mem, blocks, d, w, v);
      hide Rep, Tiles, EndOf;
      mem := mem[w := v];
    }

    /** krealloc: grows by allocating, copying the old payload and freeing the old block; a block that is
        already large enough is returned as it is, and a failed allocation leaves everything alone. */
    method Krealloc(ptr: nat, size: nat, ghost k: nat) returns (np: nat)
      requires Valid() && size <= 0x2BFE_0000
      requires ptr == 0 || (k < |blocks| && blocks[k].used && ptr == blocks[k].addr + 16)
      modifies this`mem, this`blocks, this`heapCur, this`extensions
      ensures Valid()
      ensures ptr == 0 ==> S() == Malloc(old(S()), size, heapEnd).state && np == Malloc(old(S()), size, heapEnd).ptr
      ensures ptr != 0 && size == 0 ==> np == 0 && blocks == Release(old(blocks), k)
      ensures ptr != 0 && 0 < size <= old(blocks)[k].size ==> np == ptr && S() == old(S()) && mem == old(mem)
      ensures ptr != 0 && size > old(blocks)[k].size ==>
                && np == Malloc(old(S()), size, heapEnd).ptr
                && (np == 0 ==> S() == old(S()))
                && (np != 0 ==> Moved(old(S()), Malloc(old(S()), size, heapEnd).state, S(), old(blocks)[k]))
                && (np != 0 ==> Copied(old(mem), ptr, mem, np, old(blocks)[k].size))
      ensures forall i: nat, w: nat | i < |old(blocks)| && old(blocks)[i].used && (ptr == 0 || i != k)
                && old(blocks)[i].addr + 16 <= w < old(blocks)[i].End() :: At(mem, w) == At(old(mem), w)
    {
      ghost var m0, bs, s0 := mem, blocks, S();
      hide KeepsPayloads, Rep, Tiles, Covers, HeapInv, Malloc, Release, FreePairs;
      ValidParts(this);
      if ptr == 0 { np := Kmalloc(size); KeptAll(m0, bs, mem); return; }
      if size == 0 {
        Kfree(ptr, k);
        MarkedPayloads(m0, bs, k, mem);
        return 0;
      }
      SizeIs(mem, blocks, k);
      if At(mem, ptr - 16 + 4) >= size { return ptr; }
      np := Kmalloc(size);
      KeptAll(m0, bs, mem);
      MoveFacts(s0, size, heapEnd);
      NullIff(s0, size, heapEnd);
      if np != 0 { MoveTo(ptr, np, size, k, bs, s0, m0); }
    }

    /** The copy and the kfree of krealloc. */
    method MoveTo(ptr: nat, np: nat, size: nat, ghost k: nat, ghost bs: seq<Block>, ghost s0: HeapState, ghost m0: Mem)
      requires Valid() && S() == Malloc(s0, size, heapEnd).state && np == Malloc(s0, size, heapEnd).ptr != 0
      requires s0.blocks == bs && HeapInv(s0, heapEnd) && size > 0 && KeepsPayloads(m0, bs, mem)
      requires k < |bs| && bs[k].used && ptr == bs[k].addr + 16 && size > bs[k].size
      modifies this`mem, this`blocks
      ensures Valid() && Moved(s0, old(S()), S(), bs[k])
      ensures Copied(m0, ptr, mem, np, bs[k].size)
      ensures forall i: nat, w: nat | i < |bs| && bs[i].used && i != k && bs[i].addr + 16 <= w < bs[i].End() :: At(mem, w) == At(m0, w)
    {
      hide *;
      ghost var m1, t, s1 := mem, blocks, S();
      MoveFacts(s0, size, heapEnd);
      ValidParts(this);
      ghost var d: nat :| d < |t| && t[d].used && t[d].addr + 16 == np && t[d].size >= size;
      assert bs[k] in t;
      ghost var j: nat :| j < |t| && t[j] == bs[k];
      NewIsNew(s0, size, heapEnd, d);
      SizeIs(mem, t, j);
      HeapBounds(this, s0);
      var have := At(mem, ptr - 16 + 4);
      CopyRange(t, d, j);
      EndIs(t[j]);
      EndIs(t[d]);
      KeptBlock(m0, bs, m1, k);
      CopyInto(np, ptr, have, d);
      ValidAgain(this);
      ghost var m2 := mem;
      Kfree(ptr, j);
      MovedPayloads(bs, m0, m1, m2, mem, t, d, j, k);
      StateOf(this);
      MovedBy(s0, s1, S(), bs[k], j);
      CopyStays(m0, m1, m2, mem, ptr, np, have, t, d);
    }
  }

  lemma NoChange(m: Mem, bs: seq<Block>)
    ensures KeepsPayloads(m, bs, m)
  {
  }

  lemma RoundTwice(size: nat)
    requires 0 < size
    ensures Round8(size) % 8 == 0 && Round8(Round8(size)) == Round8(size) && size <= Round8(size) < size + 8
  {
  }

  lemma FitsFirst(bs: seq<Block>, n: nat)
    requires FirstFit(bs, n) < |bs|
    ensures Fits(bs[FirstFit(bs, n)], n)
  {
  }

  lemma MallocZero(s: HeapState, heapEnd: nat)
    ensures Malloc(s, 0, heapEnd) == Malloced(s, 0)
  {
  }

  lemma MallocCases(s: HeapState, size: nat, heapEnd: nat)
    requires size > 0
    ensures var n, k := Round8(size), FirstFit(s.blocks, Round8(size));
            && k <= |s.blocks|
            && (k < |s.blocks| ==> Malloc(s, size, heapEnd) == Malloced(s.(blocks := Take(s.blocks, k, n)), s.blocks[k].addr + 16))
            && (k == |s.blocks| && EndOf(s.blocks, 0xD000_0000) + ExtFor(n) > heapEnd ==> Malloc(s, size, heapEnd) == Malloced(s, 0))
            && Malloc(s, n, heapEnd) == Malloc(s, size, heapEnd)
  {
    RoundTwice(size);
  }

  lemma RegrownKeeps(s: HeapState, n: nat, heapEnd: nat)
    requires HeapInv(s, heapEnd) && EndOf(s.blocks, 0xD000_0000) + ExtFor(n) <= heapEnd && ExtFor(n) >= 16 && n % 8 == 0
    requires FirstFit(s.blocks, n) == |s.blocks|
    ensures var g := Grow(s.blocks, 0xD000_0000, ExtFor(n));
            HeapInv(HeapState(g, s.extensions + 1), heapEnd) && FirstFit(g, n) < |g|
  {
    GrowFits(s.blocks, 0xD000_0000, n);
    GrowTiles(s.blocks, 0xD000_0000, ExtFor(n));
    GrowPairs(s.blocks, 0xD000_0000, ExtFor(n));
  }

  lemma GrownMembers(bs: seq<Block>, ext: nat)
    requires ext >= 16
    ensures forall i: nat | i < |bs| && bs[i].used :: bs[i] in Grow(bs, 0xD000_0000, ext)
  {
    var g := Grow(bs, 0xD000_0000, ext);
    forall i: nat | i < |bs| && bs[i].used ensures bs[i] in g { assert g[i] == bs[i]; }
  }

  lemma SizeIs(m: Mem, bs: seq<Block>, k: nat)
    requires Rep(m, bs) && k < |bs|
    ensures At(m, bs[k].addr + 4) == bs[k].size
  {
    assert Header(m, bs, k);
  }

  lemma NotZero(bs: seq<Block>, k: nat)
    requires Tiles(bs, 0xD000_0000)
    ensures k < |bs| ==> bs[k].addr != 0
  {
    if k < |bs| { Ordered(bs, 0xD000_0000, k, k); }
  }

  lemma NextNonzero(m: Mem, bs: seq<Block>, k: nat)
    requires Tiles(bs, 0xD000_0000) && k < |bs| && Header(m, bs, k)
    ensures At(m, bs[k].addr + 8) == 0 <==> k + 1 == |bs|
  {
    if k + 1 < |bs| { Ordered(bs, 0xD000_0000, k + 1, k + 1); }
  }

  lemma ExtBounds(n: nat)
    requires n <= 0x2BFF_0000
    ensures ExtFor(n) % 4096 == 0 && ExtFor(n) % 8 == 0 && n + 16 <= ExtFor(n) < n + 16400
  {
  }

  /** Running the grown heap through kmalloc again is what one call promises. */
  lemma Regrown(s: HeapState, n: nat, heapEnd: nat)
    requires FirstFit(s.blocks, n) == |s.blocks| && n > 0 && n % 8 == 0
    requires EndOf(s.blocks, 0xD000_0000) + ExtFor(n) <= heapEnd && ExtFor(n) >= 16
    ensures var g := HeapState(Grow(s.blocks, 0xD000_0000, ExtFor(n)), s.extensions + 1);
            Malloc(g, n, heapEnd) == Malloc(s, n, heapEnd)
  {
    GrowFits(s.blocks, 0xD000_0000, n);
    assert Round8(n) == n;
    var g := Grow(s.blocks, 0xD000_0000, ExtFor(n));
    assert g[|s.blocks|].addr == EndOf(s.blocks, 0xD000_0000);
    hide Round8, Grow, EndOf, Take, FirstFit, ExtFor, Fits;
  }

  lemma {:induction false} FirstFitIs(bs: seq<Block>, n: nat, k: nat)
    requires k <= |bs| && (k < |bs| ==> Fits(bs[k], n)) && forall i | 0 <= i < k :: !Fits(bs[i], n)
    ensures FirstFit(bs, n) == k
  {
    var f := FirstFit(bs, n);
    if f < |bs| { assert Fits(bs[f], n); }
    if k < |bs| { assert Fits(bs[k], n); }
  }

  /** split_block then the magic update is Take, and every used block is still there in between. */
  lemma TakeSplit(bs: seq<Block>, k: nat, need: nat)
    requires k < |bs| && Fits(bs[k], need)
    ensures var t := if bs[k].size < need + 32 then bs else Split(bs, k, need);
            && k < |t| && t[k].addr == bs[k].addr && t[k := t[k].(used := true)] == Take(bs, k, need)
            && forall i: nat | i < |bs| && bs[i].used :: bs[i] in t
  {
    if bs[k].size >= need + 32 {
      var t := Split(bs, k, need);
      forall i: nat | i < |bs| && bs[i].used ensures bs[i] in t {
        assert t[if i < k then i else i + 1] == bs[i];
      }
    }
  }

  lemma SplitTiles(bs: seq<Block>, start: nat, k: nat, need: nat)
    requires Tiles(bs, start) && k < |bs| && bs[k].size >= need + 32 && need % 8 == 0
    ensures Tiles(Split(bs, k, need), start) && EndOf(Split(bs, k, need), start) == EndOf(bs, start)
  {
    var b := bs[k];
    Ordered(bs, start, k, k);
    var mid := [b.(size := need), Block(b.addr + 16 + need, b.size - need - 16, false)];
    HalvesTile(b, need);
    hide Tiles, EndOf;
    SpliceTiles(bs, start, k, k + 1, mid);
  }

  lemma HalvesTile(b: Block, need: nat)
    requires b.size >= need + 16 && b.addr % 8 == 0 && need % 8 == 0 && b.size % 8 == 0
    ensures var mid := [b.(size := need), Block(b.addr + 16 + need, b.size - need - 16, false)];
            Tiles(mid, b.addr) && mid[|mid| - 1].End() == b.End()
  {
    assert (b.size - need - 16) % 8 == 0;
  }

  lemma SplitMemKeys(m: Mem, bs: seq<Block>, k: nat, need: nat)
    requires Tiles(bs, 0xD000_0000) && Rep(m, bs) && k < |bs| && bs[k].size >= need + 32 && EndOf(bs, 0xD000_0000) <= 0xD400_0000
    requires Covers(m, 0xD000_0000, 0xD400_0000)
    ensures At(m, bs[k].addr + 4) == bs[k].size && bs[k].addr + 16 + need < WORD_LIMIT
    ensures Covers(SplitMem(m, bs[k].addr, need), 0xD000_0000, 0xD400_0000)
  {
    assert Header(m, bs, k);
    Ordered(bs, 0xD000_0000, k, k);
  }

  lemma MarkTiles(bs: seq<Block>, start: nat, k: nat, used: bool)
    requires Tiles(bs, start) && k < |bs|
    ensures var t := bs[k := bs[k].(used := used)]; Tiles(t, start) && EndOf(t, start) == EndOf(bs, start) && t != []
  {
  }

  lemma LinkedIs(h: KernelHeap)
    ensures h.Linked() <==>
      && h.heapStart == 0xD000_0000 && h.heapEnd == 0xD400_0000
      && Tiles(h.blocks, 0xD000_0000) && h.blocks != [] && EndOf(h.blocks, 0xD000_0000) <= h.heapEnd
      && h.heapCur == EndOf(h.blocks, 0xD000_0000)
      && Rep(h.mem, h.blocks) && Covers(h.mem, 0xD000_0000, h.heapEnd)
  {
  }

  lemma MarkIs(bs: seq<Block>, k: nat)
    requires k < |bs|
    ensures Mark(bs, k) == bs[k := bs[k].(used := false)]
  {
  }

  /** Writing a block's magic word is changing its used bit. */
  lemma MarkAll(m: Mem, bs: seq<Block>, k: nat, used: bool, heapEnd: nat)
    requires Tiles(bs, 0xD000_0000) && EndOf(bs, 0xD000_0000) <= heapEnd && Rep(m, bs) && Covers(m, 0xD000_0000, heapEnd) && k < |bs|
    ensures var n, t := m[bs[k].addr := if used then MAGIC_USED else MAGIC_FREE], bs[k := bs[k].(used := used)];
      && Tiles(t, 0xD000_0000) && EndOf(t, 0xD000_0000) == EndOf(bs, 0xD000_0000) && Rep(n, t) && Covers(n, 0xD000_0000, heapEnd)
      && KeepsPayloads(m, bs, n) && KeepsPayloads(m, t, n)
  {
    var n, t := m[bs[k].addr := if used then MAGIC_USED else MAGIC_FREE], bs[k := bs[k].(used := used)];
    Ordered(bs, 0xD000_0000, k, k);
    MarkTiles(bs, 0xD000_0000, k, used);
    assert bs[k].addr in m;
    MarkRep(m, bs, 0xD000_0000, k, used);
    hide Tiles, Rep, EndOf, KeepsPayloads;
    MarkPayloads(m, n, bs, 0xD000_0000, k);
    MarkPayloads(m, n, t, 0xD000_0000, k);
  }

  lemma ValidParts(h: KernelHeap)
    requires h.Valid()
    ensures h.Linked() && HeapInv(h.S(), h.heapEnd) && Tiles(h.blocks, 0xD000_0000) && Rep(h.mem, h.blocks)
    ensures h.S() == HeapState(h.blocks, h.extensions)
  {
  }

  lemma StateOf(h: KernelHeap)
    ensures h.S() == HeapState(h.blocks, h.extensions)
  {
  }

  lemma ValidAgain(h: KernelHeap)
    requires h.Linked() && HeapInv(HeapState(h.blocks, h.extensions), h.heapEnd)
    ensures h.Valid()
  {
  }

  lemma ReleaseIs(bs: seq<Block>, k: nat)
    requires k < |bs| && k < |JoinNext(Mark(bs, k), k)|
    ensures Release(bs, k) == JoinPrev(JoinNext(Mark(bs, k), k), k)
  {
  }

  lemma HeadIs(m: Mem, bs: seq<Block>, k: nat)
    requires Rep(m, bs) && k < |bs|
    ensures At(m, bs[k].addr) == MAGIC_USED <==> bs[k].used
  {
    assert Header(m, bs, k);
  }

  lemma NextIs(m: Mem, bs: seq<Block>, k: nat)
    requires Tiles(bs, 0xD000_0000) && Rep(m, bs) && k < |bs|
    ensures (At(m, bs[k].addr + 8) != 0 && At(m, At(m, bs[k].addr + 8)) == MAGIC_FREE) <==> (k + 1 < |bs| && !bs[k + 1].used)
  {
    assert Header(m, bs, k);
    if k + 1 < |bs| { assert Header(m, bs, k + 1); Ordered(bs, 0xD000_0000, k, k + 1); }
  }

  lemma PrevIs(m: Mem, bs: seq<Block>, k: nat)
    requires Tiles(bs, 0xD000_0000) && Rep(m, bs) && k < |bs|
    ensures (At(m, bs[k].addr + 12) != 0 && At(m, At(m, bs[k].addr + 12)) == MAGIC_FREE) <==> (k > 0 && !bs[k - 1].used)
    ensures k > 0 ==> At(m, bs[k].addr + 12) == bs[k - 1].addr
  {
    assert Header(m, bs, k);
    if k > 0 { assert Header(m, bs, k - 1); Ordered(bs, 0xD000_0000, k - 1, k); }
  }

  lemma JoinMemKeys(m: Mem, bs: seq<Block>, start: nat, k: nat)
    requires Tiles(bs, start) && Rep(m, bs) && k + 1 < |bs| && start > 0 && EndOf(bs, start) < WORD_LIMIT
    requires Covers(m, start, 0xD400_0000) && EndOf(bs, start) <= 0xD400_0000
    ensures At(m, bs[k].addr + 4) + 16 + At(m, At(m, bs[k].addr + 8) + 4) < WORD_LIMIT && bs[k].addr < WORD_LIMIT
    ensures Covers(JoinMem(m, bs[k].addr), start, 0xD400_0000)
  {
    Ordered(bs, start, k, k + 1);
    assert Header(m, bs, k) && Header(m, bs, k + 1);
  }

  /** Used blocks survive both merges. */
  lemma LiveStay(a: seq<Block>, k: nat)
    requires k < |a| && !a[k].used
    ensures forall i: nat | i < |a| && a[i].used :: a[i] in JoinNext(a, k)
    ensures forall i: nat | i < |a| && a[i].used :: a[i] in a
  {
    var t := JoinNext(a, k);
    forall i: nat | i < |a| && a[i].used ensures a[i] in t {
      if k + 1 < |a| && !a[k + 1].used { assert t[if i < k then i else i - 1] == a[i]; }
    }
  }

  /** The old block was released from the heap that the allocation produced. */
  ghost predicate Moved(s: HeapState, grown: HeapState, t: HeapState, b: Block) {
    exists j: nat :: ReleasedAt(grown, t, b, j)
  }

  ghost predicate ReleasedAt(grown: HeapState, t: HeapState, b: Block, j: nat) {
    j < |grown.blocks| && grown.blocks[j] == b && t == HeapState(Release(grown.blocks, j), grown.extensions)
  }

  /** The words of [dst, dst + len) at n are those of [src, src + len) at m. */
  ghost predicate Copied(m: Mem, src: nat, n: Mem, dst: nat, len: nat) {
    forall a: nat | dst <= a < dst + len && a % 4 == 0 :: At(n, a) == At(m, src + (a - dst))
  }

  lemma MarkedPayloads(m: Mem, bs: seq<Block>, k: nat, n: Mem)
    requires k < |bs| && KeepsPayloads(m, Mark(bs, k), n)
    ensures forall i: nat, w: nat | i < |bs| && bs[i].used && i != k && bs[i].addr + 16 <= w < bs[i].End() :: At(n, w) == At(m, w)
  {
    forall i: nat, w: nat | i < |bs| && bs[i].used && i != k && bs[i].addr + 16 <= w < bs[i].End() ensures At(n, w) == At(m, w) {
      assert Mark(bs, k)[i] == bs[i];
    }
  }

  /** A store inside a payload touches no header. */
  lemma PayloadWrite(m: Mem, bs: seq<Block>, d: nat, w: nat, v: u32)
    requires Tiles(bs, 0xD000_0000) && Rep(m, bs) && d < |bs| && bs[d].addr + 16 <= w < bs[d].End()
    ensures Rep(m[w := v], bs)
  {
    var n := m[w := v];
    forall i: nat | i < |bs| ensures Header(n, bs, i) {
      assert Header(m, bs, i);
      if i != d { Apart(bs, 0xD000_0000, i, d); }
    }
  }

  /** After a successful allocation the new block is there, and so is every block that was live. */
  lemma TakenBlock(bs: seq<Block>, k: nat, n: nat)
    requires k < |bs| && Fits(bs[k], n)
    ensures var t := Take(bs, k, n);
            && k < |t| && t[k].used && t[k].addr == bs[k].addr && t[k].size >= n
            && forall i: nat | i < |bs| && bs[i].used :: bs[i] in t
  {
    var t := Take(bs, k, n);
    assert t[k] == Taken(bs[k], n)[0];
    forall i: nat | i < |bs| && bs[i].used ensures bs[i] in t {
      assert t[if i < k then i else i + |Taken(bs[k], n)| - 1] == bs[i];
    }
  }

  lemma MoveFacts(s: HeapState, size: nat, heapEnd: nat)
    requires size > 0
    ensures var r := Malloc(s, size, heapEnd); var t := r.state.blocks;
            r.ptr != 0 ==>
              && (exists d: nat :: d < |t| && t[d].used && t[d].addr + 16 == r.ptr && t[d].size >= size)
              && forall i: nat | i < |s.blocks| && s.blocks[i].used :: s.blocks[i] in t
  {
    var bs, n := s.blocks, Round8(size);
    var k := FirstFit(bs, n);
    RoundTwice(size);
    if k < |bs| {
      TakenBlock(bs, k, n);
    } else if EndOf(bs, HEAP_START) + ExtFor(n) <= heapEnd {
      GrowFits(bs, HEAP_START, n);
      var g := Grow(bs, HEAP_START, ExtFor(n));
      GrownMembers(bs, ExtFor(n));
      TakenBlock(g, |bs|, n);
      forall i: nat | i < |bs| && bs[i].used ensures bs[i] in Take(g, |bs|, n) {
        var j: nat :| j < |g| && g[j] == bs[i];
        assert g[j].used;
      }
    }
  }

  /** Source and destination of the copy are different blocks of the heap. */
  lemma CopyRange(t: seq<Block>, d: nat, j: nat)
    requires Tiles(t, 0xD000_0000) && d < |t| && j < |t| && t[d].size > t[j].size && EndOf(t, 0xD000_0000) <= 0xD400_0000
    ensures d != j && t[j].size % 4 == 0 && (t[j].addr + 16) % 4 == 0 && (t[d].addr + 16) % 4 == 0
    ensures 0xD000_0000 <= t[j].addr && t[j].End() <= 0xD400_0000
    ensures t[j].End() <= t[d].addr + 16 || t[d].End() <= t[j].addr + 16
  {
    assert t[j].size % 8 == 0;
    hide Tiles, EndOf;
    Apart(t, 0xD000_0000, d, j);
    Apart(t, 0xD000_0000, j, d);
    Ordered(t, 0xD000_0000, j, j);
    Mod84(t[j].addr);
    Mod84(t[d].addr);
    Mod84(t[j].size);
  }

  lemma Mod84(x: nat)
    requires x % 8 == 0
    ensures x % 4 == 0 && (x + 16) % 4 == 0
  {
  }

  /** Kmalloc, copy and Kfree together touch no other live payload, and the copy stays in place. */
  lemma MovedPayloads(bs: seq<Block>, m0: Mem, m1: Mem, m2: Mem, m3: Mem, t: seq<Block>, d: nat, j: nat, k: nat)
    requires k < |bs| && bs[k].used && Tiles(bs, 0xD000_0000) && KeepsPayloads(m0, bs, m1)
    requires Tiles(t, 0xD000_0000) && d < |t| && j < |t| && t[d].used && d != j && t[j] == bs[k]
    requires forall i: nat | i < |bs| && bs[i].used :: bs[i] in t && bs[i].addr != t[d].addr
    requires forall a: nat | !(t[d].addr + 16 <= a < t[d].End()) :: At(m2, a) == At(m1, a)
    requires KeepsPayloads(m2, Mark(t, j), m3)
    ensures forall i: nat, w: nat | i < |bs| && bs[i].used && i != k && bs[i].addr + 16 <= w < bs[i].End() :: At(m3, w) == At(m0, w)
    ensures forall w: nat | t[d].addr + 16 <= w < t[d].End() :: At(m3, w) == At(m2, w)
  {
    MarkedPayloads(m2, t, j, m3);
    forall i: nat, w: nat | i < |bs| && bs[i].used && i != k && bs[i].addr + 16 <= w < bs[i].End() ensures At(m3, w) == At(m0, w) {
      var c: nat :| c < |t| && t[c] == bs[i];
      DistinctAddr(bs, 0xD000_0000, i, k);
      assert c != j && c != d;
      Apart(t, 0xD000_0000, c, d);
      assert At(m3, w) == At(m2, w);
      assert At(m2, w) == At(m1, w);
    }
  }

  lemma KeptAll(m: Mem, bs: seq<Block>, n: Mem)
    requires KeepsPayloads(m, bs, n)
    ensures forall i: nat, w: nat | i < |bs| && bs[i].used && bs[i].addr + 16 <= w < bs[i].End() :: At(n, w) == At(m, w)
  {
  }

  lemma KeptBlock(m: Mem, bs: seq<Block>, n: Mem, k: nat)
    requires KeepsPayloads(m, bs, n) && k < |bs| && bs[k].used
    ensures forall w: nat | bs[k].addr + 16 <= w < bs[k].End() :: At(n, w) == At(m, w)
  {
  }

  /** The block kmalloc returns was not live before. */
  lemma NewIsNew(s: HeapState, size: nat, heapEnd: nat, d: nat)
    requires HeapInv(s, heapEnd) && size > 0
    requires var r := Malloc(s, size, heapEnd); r.ptr != 0 && d < |r.state.blocks| && r.state.blocks[d].addr + 16 == r.ptr
    ensures var t := Malloc(s, size, heapEnd).state.blocks;
            forall i: nat | i < |s.blocks| && s.blocks[i].used :: s.blocks[i].addr != t[d].addr
  {
    var bs, n := s.blocks, Round8(size);
    var k := FirstFit(bs, n);
    forall i: nat | i < |bs| && bs[i].used ensures bs[i].addr + 16 != Malloc(s, size, heapEnd).ptr {
      Ordered(bs, HEAP_START, i, i);
      if k < |bs| && i != k { DistinctAddr(bs, HEAP_START, i, k); }
    }
  }

  lemma CopyStays(m0: Mem, m1: Mem, m2: Mem, m3: Mem, src: nat, dst: nat, len: nat, t: seq<Block>, d: nat)
    requires d < |t| && dst == t[d].addr + 16 && len <= t[d].size
    requires Copied(m1, src, m2, dst, len)
    requires forall w: nat | src <= w < src + len :: At(m1, w) == At(m0, w)
    requires forall w: nat | t[d].addr + 16 <= w < t[d].End() :: At(m3, w) == At(m2, w)
    ensures Copied(m0, src, m3, dst, len)
  {
  }

  lemma EndIs(b: Block)
    ensures b.End() == b.addr + 16 + b.size
  {
  }

  lemma CopyNone(m: Mem, src: nat, dst: nat)
    ensures Copied(m, src, m, dst, 0)
  {
  }

  lemma CopyMore(m0: Mem, m: Mem, src: nat, dst: nat, x: nat)
    requires Copied(m0, src, m, dst, x) && At(m, src + x) == At(m0, src + x) && x % 4 == 0 && dst % 4 == 0
    requires forall a: nat | !(dst <= a < dst + x) :: At(m, a) == At(m0, a)
    ensures var n := m[dst + x := At(m, src + x)];
            Copied(m0, src, n, dst, x + 4) && forall a: nat | !(dst <= a < dst + x + 4) :: At(n, a) == At(m0, a)
  {
    var n := m[dst + x := At(m, src + x)];
    forall a: nat | dst <= a < dst + (x + 4) && a % 4 == 0 ensures At(n, a) == At(m0, src + (a - dst)) {
      if a >= dst + x {
        assert a == dst + x && src + (a - dst) == src + x;
      } else {
        assert At(n, a) == At(m, a);
      }
    }
  }

  lemma HeapBounds(h: KernelHeap, s: HeapState)
    requires h.Linked() && HeapInv(s, h.heapEnd)
    ensures EndOf(h.blocks, 0xD000_0000) <= 0xD400_0000 && h.heapEnd == 0xD400_0000 && Tiles(s.blocks, 0xD000_0000)
  {
  }

  lemma MovedBy(s: HeapState, grown: HeapState, t: HeapState, b: Block, j: nat)
    requires j < |grown.blocks| && grown.blocks[j] == b && t == HeapState(Release(grown.blocks, j), grown.extensions)
    ensures Moved(s, grown, t, b)
  {
    assert ReleasedAt(grown, t, b, j);
  }
}
