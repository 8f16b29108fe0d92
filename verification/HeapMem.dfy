/** Block headers in memory: a doubly linked list of four-word headers that represents the sequence of
    blocks, and what the pointer updates of split and coalesce do to it. */
module HeapMem {
  import opened Base
  import opened HeapBlocks

  const MAGIC_FREE: nat := 0xFEED_FACE
  const MAGIC_USED: nat := 0xDEAD_BEEF

  /** Words of heap memory by byte address; header fields at offsets 0, 4, 8 and 12. */
  type Mem = map<nat, u32>

  ghost predicate Covers(mem: Mem, start: nat, end: nat) {
    forall a: nat | start <= a < end && a % 4 == 0 :: a in mem
  }

  function At(mem: Mem, a: nat): u32 { if a in mem then mem[a] else 0 }

  function NextOf(bs: seq<Block>, i: nat): nat { if i + 1 < |bs| then bs[i + 1].addr else 0 }

  function PrevOf(bs: seq<Block>, i: nat): nat { if 0 < i <= |bs| then bs[i - 1].addr else 0 }

  /** The header of block i holds its state, its size and the addresses of its neighbours. */
  ghost predicate Header(mem: Mem, bs: seq<Block>, i: nat)
    requires i < |bs|
  {
    && At(mem, bs[i].addr) == (if bs[i].used then MAGIC_USED else MAGIC_FREE)
    && At(mem, bs[i].addr + 4) == bs[i].size
    && At(mem, bs[i].addr + 8) == NextOf(bs, i)
    && At(mem, bs[i].addr + 12) == PrevOf(bs, i)
  }

  ghost predicate Rep(mem: Mem, bs: seq<Block>) {
    forall i: nat | i < |bs| :: Header(mem, bs, i)
  }

  /** Only words of [lo, hi) differ. */
  ghost predicate SameOutside(m: Mem, n: Mem, lo: nat, hi: nat) {
    m.Keys == n.Keys && forall a | a in m && !(lo <= a < hi) :: n[a] == m[a]
  }

  /** A header whose words and neighbours did not change is still right. */
  lemma KeepHeader(m: Mem, n: Mem, bs: seq<Block>, i: nat, t: seq<Block>, j: nat)
    requires i < |bs| && j < |t| && Header(m, bs, i) && t[j] == bs[i]
    requires NextOf(t, j) == NextOf(bs, i) && PrevOf(t, j) == PrevOf(bs, i)
    requires forall a | bs[i].addr <= a < bs[i].addr + 16 :: At(n, a) == At(m, a)
    ensures Header(n, t, j)
  {
  }

  // ---------------------------------------------------------------------------------------------
  // Marking
  // ---------------------------------------------------------------------------------------------

  lemma MarkRep(m: Mem, bs: seq<Block>, start: nat, k: nat, used: bool)
    requires Tiles(bs, start) && Rep(m, bs) && k < |bs| && bs[k].addr in m
    ensures var n := m[bs[k].addr := if used then MAGIC_USED else MAGIC_FREE];
            Rep(n, bs[k := bs[k].(used := used)]) && SameOutside(m, n, bs[k].addr, bs[k].addr + 16)
  {
    var n := m[bs[k].addr := if used then MAGIC_USED else MAGIC_FREE];
    var t := bs[k := bs[k].(used := used)];
    forall i: nat | i < |t| ensures Header(n, t, i) {
      assert Header(m, bs, i);
      if i != k {
        Apart(bs, start, i, k);
        KeepHeader(m, n, bs, i, t, i);
      }
    }
  }

  lemma Apart(bs: seq<Block>, start: nat, i: nat, k: nat)
    requires Tiles(bs, start) && i < |bs| && k < |bs| && i != k
    ensures bs[i].End() <= bs[k].addr || bs[k].End() <= bs[i].addr
    ensures start <= bs[i].addr && bs[i].addr % 8 == 0
  {
    Ordered(bs, start, i, i);
    Ordered(bs, start, if i < k then i else k, if i < k then k else i);
  }

  // ---------------------------------------------------------------------------------------------
  // Splitting
  // ---------------------------------------------------------------------------------------------

  /** The blocks after split_block, before the magic update. */
  function Split(bs: seq<Block>, k: nat, n: nat): seq<Block>
    requires k < |bs| && bs[k].size >= n + 16
  {
    var b := bs[k];
    bs[..k] + [b.(size := n), Block(b.addr + 16 + n, b.size - n - 16, false)] + bs[k + 1..]
  }

  /** The stores of split_block, in order. */
  function SplitMem(m: Mem, b: nat, need: nat): Mem
    requires b + 16 + need < WORD_LIMIT && need < WORD_LIMIT && b < WORD_LIMIT && At(m, b + 4) >= need + 16
  {
    var nb, size, next := b + 16 + need, At(m, b + 4), At(m, b + 8);
    var m1 := m[nb := MAGIC_FREE][nb + 4 := size - need - 16][nb + 8 := next][nb + 12 := b];
    var m2 := if next != 0 then m1[next + 12 := nb] else m1;
    m2[b + 8 := nb][b + 4 := need]
  }

  lemma SplitAt(m: Mem, bs: seq<Block>, start: nat, k: nat, need: nat)
    requires Tiles(bs, start) && Rep(m, bs) && k < |bs| && start > 0
    requires bs[k].size >= need + 32 && need % 8 == 0 && bs[k].End() < WORD_LIMIT
    ensures At(m, bs[k].addr + 4) == bs[k].size
    ensures var n, b, nb := SplitMem(m, bs[k].addr, need), bs[k].addr, bs[k].addr + 16 + need;
            && At(n, b) == At(m, b) && At(n, b + 4) == need && At(n, b + 8) == nb && At(n, b + 12) == At(m, b + 12)
            && At(n, nb) == MAGIC_FREE && At(n, nb + 4) == bs[k].size - need - 16
            && At(n, nb + 8) == NextOf(bs, k) && At(n, nb + 12) == b
            && (k + 1 < |bs| ==> At(n, bs[k + 1].addr + 12) == nb)
            && (forall a: nat | !(b <= a < bs[k].End()) && !(k + 1 < |bs| && a == bs[k + 1].addr + 12) :: At(n, a) == At(m, a))
  {
    assert Header(m, bs, k);
    Ordered(bs, start, k, k);
    if k + 1 < |bs| { Ordered(bs, start, k, k + 1); }
  }

  /** Everything outside block k and the back link of its successor is as before. */
  ghost predicate Local(m: Mem, n: Mem, bs: seq<Block>, k: nat)
    requires k < |bs|
  {
    forall a: nat | !(bs[k].addr <= a < bs[k].End()) && !(k + 1 < |bs| && a == bs[k + 1].addr + 12) :: At(n, a) == At(m, a)
  }

  /** t is bs with block k replaced by two blocks. */
  ghost predicate SplitShape(bs: seq<Block>, k: nat, need: nat, t: seq<Block>) {
    && k < |bs| && bs[k].size >= need + 16 && |t| == |bs| + 1
    && t[k] == bs[k].(size := need)
    && t[k + 1] == Block(bs[k].addr + 16 + need, bs[k].size - need - 16, false)
    && (forall i | 0 <= i < k :: t[i] == bs[i])
    && (forall i | k + 2 <= i < |t| :: t[i] == bs[i - 1])
  }

  lemma SplitIsShape(bs: seq<Block>, k: nat, need: nat)
    requires k < |bs| && bs[k].size >= need + 16
    ensures SplitShape(bs, k, need, Split(bs, k, need))
  {
  }

  lemma SplitFar(m: Mem, n: Mem, bs: seq<Block>, start: nat, k: nat, need: nat, t: seq<Block>, j: nat)
    requires Tiles(bs, start) && Rep(m, bs) && SplitShape(bs, k, need, t) && Local(m, n, bs, k)
    requires j < |t| && (j < k || j > k + 2)
    ensures Header(n, t, j)
  {
    var i := if j < k then j else j - 1;
    assert Header(m, bs, i);
    Apart(bs, start, i, k);
    if k + 1 < |bs| { Apart(bs, start, i, k + 1); }
    assert t[j] == bs[i];
    KeepHeader(m, n, bs, i, t, j);
  }

  lemma SplitNear(m: Mem, n: Mem, bs: seq<Block>, start: nat, k: nat, need: nat, t: seq<Block>, j: nat)
    requires Tiles(bs, start) && Rep(m, bs) && SplitShape(bs, k, need, t) && Local(m, n, bs, k) && !bs[k].used
    requires var b, nb := bs[k].addr, bs[k].addr + 16 + need;
            && At(n, b) == At(m, b) && At(n, b + 4) == need && At(n, b + 8) == nb && At(n, b + 12) == At(m, b + 12)
            && At(n, nb) == MAGIC_FREE && At(n, nb + 4) == bs[k].size - need - 16
            && At(n, nb + 8) == NextOf(bs, k) && At(n, nb + 12) == b
            && (k + 1 < |bs| ==> At(n, bs[k + 1].addr + 12) == nb)
    requires j < |t| && k <= j <= k + 2
    ensures Header(n, t, j)
  {
    assert Header(m, bs, k);
    if j == k + 2 {
      assert Header(m, bs, k + 1);
      Ordered(bs, start, k, k + 1);
      assert t[j] == bs[k + 1];
    }
  }

  lemma SplitRep(m: Mem, bs: seq<Block>, start: nat, k: nat, need: nat)
    requires Tiles(bs, start) && Rep(m, bs) && k < |bs| && start > 0 && !bs[k].used
    requires bs[k].size >= need + 32 && need % 8 == 0 && bs[k].End() < WORD_LIMIT
    ensures At(m, bs[k].addr + 4) == bs[k].size
    ensures Rep(SplitMem(m, bs[k].addr, need), Split(bs, k, need))
    ensures Local(m, SplitMem(m, bs[k].addr, need), bs, k)
  {
    SplitAt(m, bs, start, k, need);
    SplitIsShape(bs, k, need);
    var n, t := SplitMem(m, bs[k].addr, need), Split(bs, k, need);
    assert Local(m, n, bs, k);
    hide SplitMem, Split, Tiles, Local, SplitShape, Header;
    forall j: nat | j < |t| ensures Header(n, t, j) {
      if j < k || j > k + 2 {
        SplitFar(m, n, bs, start, k, need, t, j);
      } else {
        SplitNear(m, n, bs, start, k, need, t, j);
      }
    }
  }

  // ---------------------------------------------------------------------------------------------
  // Coalescing
  // ---------------------------------------------------------------------------------------------

  /** The stores that merge the block at left with its successor. */
  function JoinMem(m: Mem, left: nat): Mem
    requires At(m, left + 4) + 16 + At(m, At(m, left + 8) + 4) < WORD_LIMIT && left < WORD_LIMIT
  {
    var right := At(m, left + 8);
    var m1 := m[left + 4 := At(m, left + 4) + 16 + At(m, right + 4)];
    var next := At(m, right + 8);
    var m2 := if next != 0 then m1[next + 12 := left] else m1;
    m2[left + 8 := next]
  }

  ghost predicate JoinShape(bs: seq<Block>, k: nat, t: seq<Block>) {
    && k + 1 < |bs| && |t| == |bs| - 1
    && t[k] == bs[k].(size := bs[k].size + 16 + bs[k + 1].size)
    && (forall i | 0 <= i < k :: t[i] == bs[i])
    && (forall i | k < i < |t| :: t[i] == bs[i + 1])
  }

  lemma JoinIsShape(bs: seq<Block>, k: nat)
    requires k + 1 < |bs|
    ensures JoinShape(bs, k, Join(bs, k))
  {
  }

  /** Only the header of block k and the back link of block k + 2 change. */
  ghost predicate JoinLocal(m: Mem, n: Mem, bs: seq<Block>, k: nat)
    requires k + 1 < |bs|
  {
    forall a: nat | !(bs[k].addr <= a < bs[k].addr + 16) && !(k + 2 < |bs| && a == bs[k + 2].addr + 12) :: At(n, a) == At(m, a)
  }

  lemma JoinAt(m: Mem, bs: seq<Block>, start: nat, k: nat)
    requires Tiles(bs, start) && Rep(m, bs) && k + 1 < |bs| && start > 0 && bs[k + 1].End() < WORD_LIMIT
    ensures At(m, bs[k].addr + 4) == bs[k].size && At(m, bs[k].addr + 8) == bs[k + 1].addr
    ensures At(m, bs[k + 1].addr + 4) == bs[k + 1].size && bs[k].size + 16 + bs[k + 1].size < WORD_LIMIT
    ensures var n, b := JoinMem(m, bs[k].addr), bs[k].addr;
            && At(n, b) == At(m, b) && At(n, b + 4) == bs[k].size + 16 + bs[k + 1].size
            && At(n, b + 8) == NextOf(bs, k + 1) && At(n, b + 12) == At(m, b + 12)
            && (k + 2 < |bs| ==> At(n, bs[k + 2].addr + 12) == b)
            && JoinLocal(m, n, bs, k)
  {
    assert Header(m, bs, k) && Header(m, bs, k + 1);
    Ordered(bs, start, k, k + 1);
    if k + 2 < |bs| { Ordered(bs, start, k + 1, k + 2); }
  }

  lemma JoinFar(m: Mem, n: Mem, bs: seq<Block>, start: nat, k: nat, t: seq<Block>, j: nat)
    requires Tiles(bs, start) && Rep(m, bs) && JoinShape(bs, k, t) && JoinLocal(m, n, bs, k)
    requires j < |t| && (j < k || j > k + 1)
    ensures Header(n, t, j)
  {
    var i := if j < k then j else j + 1;
    assert Header(m, bs, i);
    Apart(bs, start, i, k);
    if k + 2 < |bs| { Apart(bs, start, i, k + 2); }
    assert t[j] == bs[i];
    KeepHeader(m, n, bs, i, t, j);
  }

  lemma JoinNear(m: Mem, n: Mem, bs: seq<Block>, start: nat, k: nat, t: seq<Block>, j: nat)
    requires Tiles(bs, start) && Rep(m, bs) && JoinShape(bs, k, t) && JoinLocal(m, n, bs, k)
    requires var b := bs[k].addr;
            && At(n, b) == At(m, b) && At(n, b + 4) == bs[k].size + 16 + bs[k + 1].size
            && At(n, b + 8) == NextOf(bs, k + 1) && At(n, b + 12) == At(m, b + 12)
            && (k + 2 < |bs| ==> At(n, bs[k + 2].addr + 12) == b)
    requires j < |t| && k <= j <= k + 1
    ensures Header(n, t, j)
  {
    assert Header(m, bs, k);
    if j == k + 1 {
      assert Header(m, bs, k + 2);
      Apart(bs, start, k, k + 2);
      assert t[j] == bs[k + 2];
    }
  }

  lemma JoinRep(m: Mem, bs: seq<Block>, start: nat, k: nat)
    requires Tiles(bs, start) && Rep(m, bs) && k + 1 < |bs| && start > 0 && bs[k + 1].End() < WORD_LIMIT
    ensures At(m, bs[k].addr + 4) == bs[k].size && At(m, bs[k].addr + 8) == bs[k + 1].addr
    ensures At(m, bs[k + 1].addr + 4) == bs[k + 1].size && bs[k].size + 16 + bs[k + 1].size < WORD_LIMIT
    ensures Rep(JoinMem(m, bs[k].addr), Join(bs, k)) && JoinLocal(m, JoinMem(m, bs[k].addr), bs, k)
  {
    JoinAt(m, bs, start, k);
    JoinIsShape(bs, k);
    var n, t := JoinMem(m, bs[k].addr), Join(bs, k);
    hide JoinMem, Join, Tiles, JoinLocal, JoinShape, Header;
    forall j: nat | j < |t| ensures Header(n, t, j) {
      if j < k || j > k + 1 {
        JoinFar(m, n, bs, start, k, t, j);
      } else {
        JoinNear(m, n, bs, start, k, t, j);
      }
    }
  }

  // ---------------------------------------------------------------------------------------------
  // Extending
  // ---------------------------------------------------------------------------------------------

  /** The stores that append a free block of the given payload size after the last block. */
  function AppendMem(m: Mem, last: nat, nb: nat, size: nat): Mem
    requires last < WORD_LIMIT && nb < WORD_LIMIT && size < WORD_LIMIT
  {
    m[nb := MAGIC_FREE][nb + 4 := size][nb + 8 := 0][last + 8 := nb][nb + 12 := last]
  }

  lemma AppendRep(m: Mem, bs: seq<Block>, start: nat, ext: nat)
    requires Tiles(bs, start) && Rep(m, bs) && bs != [] && start > 0 && ext >= 16
    requires EndOf(bs, start) + ext < WORD_LIMIT
    ensures bs[|bs| - 1].addr < WORD_LIMIT
    ensures Rep(AppendMem(m, bs[|bs| - 1].addr, EndOf(bs, start), ext - 16), Grow(bs, start, ext))
  {
    var last, nb := |bs| - 1, EndOf(bs, start);
    var n, t := AppendMem(m, bs[last].addr, nb, ext - 16), Grow(bs, start, ext);
    assert forall i | 0 <= i < |bs| :: t[i] == bs[i];
    forall j: nat | j < |t| ensures Header(n, t, j) {
      if j < last {
        assert Header(m, bs, j);
        Apart(bs, start, j, last);
        Ordered(bs, start, j, j);
        KeepHeader(m, n, bs, j, t, j);
      } else if j == last {
        assert Header(m, bs, last);
      }
    }
  }
}
