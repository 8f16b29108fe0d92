/** kmem_cache_create, kmem_cache_alloc and kmem_cache_free on lists and stacks updated in place. */
module SlabCache {
  import opened Base
  import opened HeapBlocks
  import opened Heap
  import opened SlabSpec
  import opened SlabWorld

  class KmemCache {
    const objSize: nat
    const slabCapacity: nat
    var slabsFull: seq<nat>
    var slabsPartial: seq<nat>
    var slabsFree: seq<nat>
    var slabs: map<nat, Slab>
    ghost var live: set<nat>

    ghost function Abs(): Cache
      reads this
    {
      Cache(objSize, slabCapacity, slabsPartial, slabsFull, slabsFree, slabs, live)
    }

    /** The initialisation of kmem_cache_create. */
    constructor (size: nat)
      requires size > 0
      ensures Abs() == NewCache(size)
    {
      var rounded := (size + 7) / 8 * 8;
      objSize := rounded;
      slabCapacity := if 16384 / rounded > 1 then 16384 / rounded else 1;
      slabsFull, slabsPartial, slabsFree := [], [], [];
      slabs := map[];
      live := {};
    }

    /** slab_new and the list_add that follows it. */
    method AddNewSlab(heap: KernelHeap) returns (s: nat)
      requires heap.Valid() && SlabTotal(Abs()) <= 0x2BFE_0000
      modifies this`slabs, this`slabsFree, heap
      ensures heap.Valid()
      ensures heap.S() == Malloc(old(heap.S()), SlabTotal(old(Abs())), heap.heapEnd).state
      ensures s == Malloc(old(heap.S()), SlabTotal(old(Abs())), heap.heapEnd).ptr && heap.heapEnd == old(heap.heapEnd)
      ensures s == 0 ==> Abs() == old(Abs())
      ensures s != 0 ==> Abs() == AddSlab(old(Abs()), s)
      ensures KeepsPayloads(old(heap.mem), old(heap.blocks), heap.mem)
    {
      var total := (32 + 4 * slabCapacity + slabCapacity * objSize + 4095) / 4096 * 4096;
      assert total == SlabTotal(Abs());
      hide Malloc, SlabTotal, KernelHeap.Valid, KernelHeap.S, KeepsPayloads;
      s := heap.Kmalloc(total);
      if s == 0 { return; }
      var stack := FillStack(slabCapacity);
      slabs := slabs[s := Slab(0, slabCapacity, stack, slabCapacity)];
      slabsFree := [s] + slabsFree;
    }

    /** The initialisation loop of the free stack. */
    method FillStack(n: nat) returns (stack: seq<nat>)
      ensures stack == seq(n, i => i)
    {
      stack := [];
      var i := 0;
      while i < n
        invariant 0 <= i <= n && |stack| == i
        invariant forall j | 0 <= j < i :: stack[j] == j
      {
        stack := stack + [i];
        i := i + 1;
      }
    }

    /** kmem_cache_alloc: a partial slab, else an empty one, else a new one; the top of its stack. */
    method Alloc(heap: KernelHeap) returns (obj: nat)
      requires heap.Valid() && CacheOk(Abs()) && SlabTotal(Abs()) <= 0x2BFE_0000
      requires AllBacked(heap.blocks, Abs())
      modifies this, heap
      ensures heap.Valid() && heap.heapEnd == old(heap.heapEnd)
      ensures AllocStep(old(heap.S()), old(Abs()), heap.heapEnd, heap.S(), Abs(), obj)
      ensures CacheOk(Abs()) && AllBacked(heap.blocks, Abs())
      ensures KeepsPayloads(old(heap.mem), old(heap.blocks), heap.mem)
    {
      ghost var c0, h0 := Abs(), heap.S();
      ValidParts(heap);
      StateOf(heap);
      NoChange(heap.mem, heap.blocks);
      var s := 0;
      ghost var c := c0;
      if slabsPartial != [] {
        s := slabsPartial[0];
        ChosenOk(c0);
      } else if slabsFree != [] {
        s := slabsFree[0];
        ChosenOk(c0);
      } else {
        s := AddNewSlab(heap);
        StateOf(heap);
        if s == 0 { NullIff(h0, SlabTotal(c0), heap.heapEnd); assert heap.S() == h0; return 0; }
        AllocWithNew(h0, c0, heap.heapEnd);
        GrownCache(h0, c0, heap.heapEnd);
        c := Abs();
      }
      obj := PopFrom(s);
      AllocKeeps(h0, c0, heap.heapEnd, heap.S(), Abs(), obj);
    }

    /** list_del, the pop, and list_add to the list the new count dictates. */
    method PopFrom(s: nat) returns (obj: nat)
      requires CacheOk(Abs()) && s in slabs && slabs[s].inuse < slabCapacity
      requires if slabsPartial != [] then s == slabsPartial[0] else slabsFree != [] && s == slabsFree[0]
      modifies this
      ensures 0 < old(slabs)[s].freeTop <= |old(slabs)[s].freeList|
      ensures Abs() == Pop(old(Abs()), s) && obj == TopObject(old(Abs()), s)
    {
      ghost var c := Abs();
      PopSlab(c, s);
      PopFacts(c, s);
      AbsIs(this);
      hide *;
      var hdr := slabs[s];
      var idx := hdr.freeList[hdr.freeTop - 1];
      obj := s + 32 + 4 * slabCapacity + idx * objSize;
      MoveHead(s, hdr.(inuse := hdr.inuse + 1, freeTop := hdr.freeTop - 1), live + {obj});
    }

    /** The slab at the head of its list is updated and put on the list its new count asks for. */
    method MoveHead(s: nat, hdr: Slab, ghost objects: set<nat>)
      requires ListsOk(Abs()) && s in slabs && slabs[s].inuse < slabCapacity && hdr.inuse > 0
      requires if slabsPartial != [] then s == slabsPartial[0] else slabsFree != [] && s == slabsFree[0]
      modifies this
      ensures Abs() == Replace(old(Abs()), s, hdr, objects)
    {
      DelHeads(Abs(), s);
      hide ListsOk, Del;
      if slabsPartial != [] { slabsPartial := slabsPartial[1..]; } else { slabsFree := slabsFree[1..]; }
      slabs := slabs[s := hdr];
      live := objects;
      if slabs[s].inuse == slabCapacity { slabsFull := [s] + slabsFull; } else { slabsPartial := [s] + slabsPartial; }
    }

    /** The search of kmem_cache_free in one list: the first slab whose object area contains o. */
    method FindSlab(list: seq<nat>, o: nat) returns (k: nat)
      ensures k <= |list|
      ensures forall j | 0 <= j < k :: !InArea(Abs(), list[j], o)
      ensures k < |list| ==> InArea(Abs(), list[k], o)
    {
      k := 0;
      while k < |list|
        invariant k <= |list|
        invariant forall j | 0 <= j < k :: !InArea(Abs(), list[j], o)
      {
        var area := list[k] + 32 + 4 * slabCapacity;
        if o >= area && o < area + slabCapacity * objSize { return; }
        k := k + 1;
      }
    }

    /** kmem_cache_free: a live object goes back on the stack of the one slab that contains it; null and
        objects of no slab are ignored. */
    method Free(o: nat)
      requires CacheOk(Abs())
      requires o == 0 || o in live || forall a | a in slabs :: !InArea(Abs(), a, o)
      modifies this
      ensures CacheOk(Abs())
      ensures o in old(live) ==> FreeStep(old(Abs()), o, Abs())
      ensures o !in old(live) ==> Abs() == old(Abs())
    {
      ghost var c := Abs();
      if o == 0 { NullNotLive(c); return; }
      if o !in live { ForeignObject(c, o); }
      ghost var a0, i0 := 0, 0;
      if o in live { a0, i0 := SlabFound(c, o); OnlyArea(c, o, a0, i0); }
      var k := FindSlab(slabsPartial, o);
      if k < |slabsPartial| {
        var s := slabsPartial[k];
        AreaOnList(c, slabsPartial, k, o);
        DelNth(c, s, k, true);
        slabsPartial := slabsPartial[..k] + slabsPartial[k + 1..];
        PushTo(s, o, c, i0);
        FreeKeepsCache(c, o, Abs());
        return;
      }
      k := FindSlab(slabsFull, o);
      if k < |slabsFull| {
        var s := slabsFull[k];
        AreaOnList(c, slabsFull, k, o);
        DelNth(c, s, k, false);
        slabsFull := slabsFull[..k] + slabsFull[k + 1..];
        PushTo(s, o, c, i0);
        FreeKeepsCache(c, o, Abs());
        return;
      }
      assert o !in live;
    }

    /** The index of an object in its slab. */
    method IndexIn(s: nat, o: nat, ghost c: Cache, ghost i: nat) returns (idx: nat)
      requires objSize == c.objSize > 0 && slabCapacity == c.capacity && i < c.capacity && o == Object(c, s, i)
      ensures idx == i
    {
      IndexOf(c, s, i);
      ObjectInside(c, s, i);
      var area := s + 32 + 4 * slabCapacity;
      idx := (o - area) / objSize;
    }

    /** The push and the relinking, once the slab has been taken off its list. */
    method PushTo(s: nat, o: nat, ghost c: Cache, ghost i: nat)
      requires CacheOk(c) && IsObject(c, o, s, i) && o in c.live
      requires Abs() == Unlink(c, s)
      modifies this
      ensures FreeStep(c, o, Abs())
    {
      PushFacts(c, s, i);
      hide *;
      AbsIs(this);
      var idx := IndexIn(s, o, c, i);
      var hdr := slabs[s];
      slabs := slabs[s := hdr.(freeList := hdr.freeList[hdr.freeTop := idx], freeTop := hdr.freeTop + 1, inuse := hdr.inuse - 1)];
      live := live - {o};
      if slabs[s].inuse == 0 { slabsFree := [s] + slabsFree; } else { slabsPartial := [s] + slabsPartial; }
      AbsIs(this);
    }
  }

  /** kmem_cache_create: NULL if and only if the heap has no room for the cache's record. */
  method CreateCache(heap: KernelHeap, size: nat) returns (c: KmemCache?)
    requires heap.Valid() && size > 0
    modifies heap
    ensures heap.Valid() && heap.S() == Malloc(old(heap.S()), CACHE_RECORD, heap.heapEnd).state && heap.heapEnd == old(heap.heapEnd)
    ensures c == null <==> Malloc(old(heap.S()), CACHE_RECORD, heap.heapEnd).ptr == 0
    ensures c != null ==> fresh(c) && c.Abs() == NewCache(size)
    ensures KeepsPayloads(old(heap.mem), old(heap.blocks), heap.mem)
  {
    hide Malloc, KernelHeap.Valid, KernelHeap.S, KeepsPayloads;
    var p := heap.Kmalloc(40);
    if p == 0 { return null; }
    c := new KmemCache(size);
  }

  lemma AbsIs(k: KmemCache)
    ensures k.Abs() == Cache(k.objSize, k.slabCapacity, k.slabsPartial, k.slabsFull, k.slabsFree, k.slabs, k.live)
  {
  }

  /** What the pop hands out and writes is the specified step. */
  lemma PopFacts(c: Cache, s: nat)
    requires CacheOk(c) && s in c.slabs && 0 < c.slabs[s].freeTop <= |c.slabs[s].freeList|
    ensures ListsOk(c)
    ensures var hdr := c.slabs[s];
      && TopObject(c, s) == s + 32 + 4 * c.capacity + hdr.freeList[hdr.freeTop - 1] * c.objSize
      && Pop(c, s) == Replace(c, s, hdr.(inuse := hdr.inuse + 1, freeTop := hdr.freeTop - 1), c.live + {TopObject(c, s)})
  {
    hide Replace;
  }

  /** What the push writes is the specified step. */
  lemma PushFacts(c: Cache, s: nat, i: nat)
    requires CacheOk(c) && s in c.slabs && i < c.capacity && Object(c, s, i) in c.live
    ensures IsObject(c, Object(c, s, i), s, i) && c.objSize > 0
    ensures var hdr, u := c.slabs[s], Unlink(c, s);
      && hdr.inuse > 0 && hdr.freeTop < |hdr.freeList| && u.slabs == c.slabs && u.live == c.live && u.objSize == c.objSize && u.capacity == c.capacity
      && var slabs := c.slabs[s := hdr.(freeList := hdr.freeList[hdr.freeTop := i], freeTop := hdr.freeTop + 1, inuse := hdr.inuse - 1)];
      && var live := c.live - {Object(c, s, i)};
      && FreeStep(c, Object(c, s, i), if hdr.inuse == 1 then Cache(c.objSize, c.capacity, u.partial, u.full, [s] + u.empty, slabs, live)
                                      else Cache(c.objSize, c.capacity, [s] + u.partial, u.full, u.empty, slabs, live))
  {
    PushSlab(c, s, i);
    PushOk(c, s, i);
    PushValue(c, s, i);
    hide CacheOk, Push, Unlink, Object;
  }

  lemma PushValue(c: Cache, s: nat, i: nat)
    requires s in c.slabs && 0 < c.slabs[s].inuse <= c.capacity && c.slabs[s].freeTop < |c.slabs[s].freeList|
    ensures var hdr, u := c.slabs[s], Unlink(c, s);
      var slabs := c.slabs[s := hdr.(freeList := hdr.freeList[hdr.freeTop := i], freeTop := hdr.freeTop + 1, inuse := hdr.inuse - 1)];
      var live := c.live - {Object(c, s, i)};
      Push(c, s, i) == if hdr.inuse == 1 then Cache(c.objSize, c.capacity, u.partial, u.full, [s] + u.empty, slabs, live)
                       else Cache(c.objSize, c.capacity, [s] + u.partial, u.full, u.empty, slabs, live)
  {
    hide Del;
  }

  predicate InArea(c: Cache, a: nat, o: nat) { Area(c, a) <= o < Area(c, a) + c.capacity * c.objSize }

  lemma NullNotLive(c: Cache)
    requires CacheOk(c)
    ensures 0 !in c.live
  {
    if 0 in c.live { var a, i := SlabFound(c, 0); ObjectInside(c, a, i); }
  }

  lemma ForeignObject(c: Cache, o: nat)
    requires CacheOk(c) && forall a | a in c.slabs :: !InArea(c, a, o)
    ensures forall j | 0 <= j < |c.partial| :: !InArea(c, c.partial[j], o)
    ensures forall j | 0 <= j < |c.full| :: !InArea(c, c.full[j], o)
  {
    forall j | 0 <= j < |c.partial| ensures !InArea(c, c.partial[j], o) { assert c.partial[j] in c.partial; }
    forall j | 0 <= j < |c.full| ensures !InArea(c, c.full[j], o) { assert c.full[j] in c.full; }
  }

  /** The area of its own slab is the only one that contains a live object, and it is listed. */
  lemma OnlyArea(c: Cache, o: nat, a: nat, i: nat)
    requires CacheOk(c) && IsObject(c, o, a, i) && (a in c.partial || a in c.full)
    ensures forall b | b in c.slabs :: InArea(c, b, o) <==> b == a
    ensures (exists j :: 0 <= j < |c.partial| && InArea(c, c.partial[j], o)) || (exists j :: 0 <= j < |c.full| && InArea(c, c.full[j], o))
  {
    ObjectInside(c, a, i);
    forall b | b in c.slabs ensures InArea(c, b, o) <==> b == a {
      if b != a { assert a + SlabBytes(c) <= b || b + SlabBytes(c) <= a; }
    }
    if a in c.partial { var j :| 0 <= j < |c.partial| && c.partial[j] == a; assert InArea(c, c.partial[j], o); }
    else { var j :| 0 <= j < |c.full| && c.full[j] == a; assert InArea(c, c.full[j], o); }
  }

  lemma AreaOnList(c: Cache, list: seq<nat>, k: nat, o: nat)
    requires ListsOk(c) && (list == c.partial || list == c.full) && k < |list|
    ensures list[k] in c.slabs && list[k] in list
  {
  }

  lemma DelNth(c: Cache, s: nat, k: nat, partial: bool)
    requires ListsOk(c) && s in c.slabs && c.capacity > 0
    requires if partial then k < |c.partial| && c.partial[k] == s else k < |c.full| && c.full[k] == s
    ensures var d := if partial then c.(partial := c.partial[..k] + c.partial[k + 1..]) else c.(full := c.full[..k] + c.full[k + 1..]);
            d == Unlink(c, s)
  {
    assert partial ==> s in c.partial;
    assert !partial ==> s in c.full;
    DelAbsent(c.empty, s);
    if partial { DelAt(c.partial, k); DelAbsent(c.full, s); } else { DelAt(c.full, k); DelAbsent(c.partial, s); }
  }

  lemma {:induction false} DelAt(l: seq<nat>, k: nat)
    requires NoDup(l) && k < |l|
    ensures Del(l, l[k]) == l[..k] + l[k + 1..]
  {
    if k > 0 {
      DelAt(l[1..], k - 1);
      assert l[..k] + l[k + 1..] == [l[0]] + (l[1..][..k - 1] + l[1..][k..]);
    } else {
      assert l[..0] + l[1..] == l[1..];
    }
  }

  lemma GrownCache(h: HeapState, c: Cache, heapEnd: nat)
    requires HeapInv(h, heapEnd) && CacheOk(c) && AllBacked(h.blocks, c) && Malloc(h, SlabTotal(c), heapEnd).ptr != 0
    ensures var a := Malloc(h, SlabTotal(c), heapEnd).ptr;
            CacheOk(AddSlab(c, a)) && AddSlab(c, a).slabs[a].inuse == 0 < c.capacity
  {
    MallocNew(h, SlabTotal(c), heapEnd);
    var r := Malloc(h, SlabTotal(c), heapEnd);
    forall a: nat, s: nat | Payload(h.blocks, a, s) ensures Payload(r.state.blocks, a, s) {
      MallocLive(h, SlabTotal(c), heapEnd, a - 16, s);
    }
    NewSlabOk(h.blocks, r.state.blocks, c, r.ptr);
  }

  /** The chosen slab is the head of its list and on no other. */
  lemma DelHeads(c: Cache, s: nat)
    requires ListsOk(c) && s in c.slabs && c.slabs[s].inuse < c.capacity
    requires if c.partial != [] then s == c.partial[0] else c.empty != [] && s == c.empty[0]
    ensures Del(c.full, s) == c.full
    ensures c.partial != [] ==> Del(c.partial, s) == c.partial[1..] && Del(c.empty, s) == c.empty
    ensures c.partial == [] ==> Del(c.empty, s) == c.empty[1..] && Del(c.partial, s) == c.partial
  {
    DelAbsent(c.full, s);
    if c.partial != [] {
      assert c.partial[0] in c.partial;
      DelAbsent(c.empty, s);
    }
  }

  lemma {:induction false} DelAbsent(l: seq<nat>, a: nat)
    requires a !in l
    ensures Del(l, a) == l
  {
    if l != [] { DelAbsent(l[1..], a); }
  }
}
