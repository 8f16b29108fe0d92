/** Slab caches sharing the kernel heap with everything else that allocates from it. */
module SlabWorld {
  import opened HeapBlocks
  import opened SlabSpec

  /** What slab_new asks of kmalloc: header, stack and objects, rounded up to a page. */
  function SlabTotal(c: Cache): (t: nat)
    ensures t % 4096 == 0 && SlabBytes(c) <= t < SlabBytes(c) + 4096
  {
    (SlabBytes(c) + 4095) / 4096 * 4096
  }

  /** The slab at a lies inside a live heap block of its own. */
  ghost predicate Backed(bs: seq<Block>, c: Cache, a: nat) { HasPayload(bs, a, SlabBytes(c)) }

  /** A live block of at least n bytes has its payload at a. */
  ghost predicate HasPayload(bs: seq<Block>, a: nat, n: nat) { exists s: nat :: s >= n && Payload(bs, a, s) }

  ghost predicate NoPayload(bs: seq<Block>, a: nat) { forall s: nat :: !Payload(bs, a, s) }

  /** A live block whose payload starts at a. */
  ghost predicate Payload(bs: seq<Block>, a: nat, size: nat) { a >= 16 && IsLive(bs, a - 16, size) }

  ghost predicate AllBacked(bs: seq<Block>, c: Cache) { forall a | a in c.slabs :: Backed(bs, c, a) }

  function TopObject(c: Cache, a: nat): nat
    requires a in c.slabs && 0 < c.slabs[a].freeTop <= |c.slabs[a].freeList|
  {
    Object(c, a, c.slabs[a].freeList[c.slabs[a].freeTop - 1])
  }

  /** The slab kmem_cache_alloc takes from when it need not create one. */
  function Chosen(c: Cache): nat
    requires c.partial != [] || c.empty != []
  {
    if c.partial != [] then c.partial[0] else c.empty[0]
  }

  ghost predicate AllocStep(h: HeapState, c: Cache, heapEnd: nat, h': HeapState, c': Cache, obj: nat)
    requires CacheOk(c)
  {
    if c.partial != [] || c.empty != [] then
      ChosenOk(c);
      h' == h && c' == Pop(c, Chosen(c)) && obj == TopObject(c, Chosen(c))
    else
      var r := Malloc(h, SlabTotal(c), heapEnd);
      if r.ptr == 0 then h' == h && c' == c && obj == 0
      else h' == r.state && c' == Pop(AddSlab(c, r.ptr), r.ptr) && obj == TopObject(AddSlab(c, r.ptr), r.ptr)
  }

  ghost predicate FreeStep(c: Cache, o: nat, c': Cache)
    requires CacheOk(c) && o in c.live
  {
    exists a, i: nat :: IsObject(c, o, a, i) && (PushOk(c, a, i); c' == Push(c, a, i))
  }

  lemma ChosenOk(c: Cache)
    requires CacheOk(c) && (c.partial != [] || c.empty != [])
    ensures Chosen(c) in c.slabs && c.slabs[Chosen(c)].inuse < c.capacity
    ensures 0 < c.slabs[Chosen(c)].freeTop <= |c.slabs[Chosen(c)].freeList|
  {
    assert c.partial != [] ==> c.partial[0] in c.partial;
    assert c.empty != [] ==> c.empty[0] in c.empty;
  }

  // ---------------------------------------------------------------------------------------------
  // What kmalloc and kfree do to live blocks
  // ---------------------------------------------------------------------------------------------

  /** kmalloc adds one live block, large enough and away from all others. */
  lemma MallocLive(h: HeapState, size: nat, heapEnd: nat, addr: nat, s: nat)
    requires HeapInv(h, heapEnd)
    ensures IsLive(h.blocks, addr, s) ==> IsLive(Malloc(h, size, heapEnd).state.blocks, addr, s)
  {
    if size > 0 {
      var bs, n := h.blocks, Round8(size);
      var k := FirstFit(bs, n);
      if k < |bs| { TakeLive(bs, k, n, addr, s); }
      else if EndOf(bs, HEAP_START) + ExtFor(n) <= heapEnd {
        GrowFits(bs, HEAP_START, n);
        GrowLive(bs, HEAP_START, ExtFor(n), addr, s);
        TakeLive(Grow(bs, HEAP_START, ExtFor(n)), |bs|, n, addr, s);
      }
    }
  }

  lemma MallocNew(h: HeapState, size: nat, heapEnd: nat)
    requires HeapInv(h, heapEnd) && size > 0 && Malloc(h, size, heapEnd).ptr != 0
    ensures var r := Malloc(h, size, heapEnd);
            && r.ptr >= 16 && HeapInv(r.state, heapEnd)
            && HasPayload(r.state.blocks, r.ptr, size)
            && NoPayload(h.blocks, r.ptr)
  {
    MallocKeeps(h, size, heapEnd);
    var bs, n := h.blocks, Round8(size);
    var k := FirstFit(bs, n);
    assert n >= size;
    if k < |bs| {
      TookBlock(bs, k, n, size);
      FreeIsNotLive(bs, k);
    } else {
      GrowFits(bs, HEAP_START, n);
      TookBlock(Grow(bs, HEAP_START, ExtFor(n)), |bs|, n, size);
      PastTheEnd(bs);
    }
    hide Payload, HeapInv, HasPayload, NoPayload, Take, Grow;
  }

  lemma TookBlock(bs: seq<Block>, k: nat, n: nat, size: nat)
    requires k < |bs| && Fits(bs[k], n) && size <= n
    ensures HasPayload(Take(bs, k, n), bs[k].addr + 16, size)
  {
    var s := Taken(bs[k], n)[0].size;
    TakeLive(bs, k, n, bs[k].addr, s);
    assert s >= size && Payload(Take(bs, k, n), bs[k].addr + 16, s);
  }

  lemma FreeIsNotLive(bs: seq<Block>, k: nat)
    requires Tiles(bs, HEAP_START) && k < |bs| && !bs[k].used
    ensures NoPayload(bs, bs[k].addr + 16)
  {
    forall i: nat | i < |bs| ensures bs[i].used ==> bs[i].addr != bs[k].addr {
      if i != k { DistinctAddr(bs, HEAP_START, i, k); }
    }
  }

  lemma PastTheEnd(bs: seq<Block>)
    requires Tiles(bs, HEAP_START)
    ensures NoPayload(bs, EndOf(bs, HEAP_START) + 16)
  {
    forall i: nat | i < |bs| ensures bs[i].addr != EndOf(bs, HEAP_START) {
      Ordered(bs, HEAP_START, i, i);
    }
  }

  /** Two backed slabs at different addresses do not overlap. */
  lemma BackedApart(bs: seq<Block>, c: Cache, a: nat, d: Cache, b: nat)
    requires Tiles(bs, HEAP_START) && Backed(bs, c, a) && Backed(bs, d, b) && a != b
    ensures a + SlabBytes(c) <= b || b + SlabBytes(d) <= a
  {
    var s: nat :| s >= SlabBytes(c) && Payload(bs, a, s);
    var t: nat :| t >= SlabBytes(d) && Payload(bs, b, t);
    LiveDisjoint(bs, HEAP_START, a - 16, s, b - 16, t);
  }

  // ---------------------------------------------------------------------------------------------
  // Which object an allocation takes
  // ---------------------------------------------------------------------------------------------

  /** Which lists are empty, in terms of the slabs. */
  lemma ListsSay(c: Cache)
    requires ListsOk(c)
    ensures c.partial != [] <==> exists a :: a in c.slabs && 0 < c.slabs[a].inuse < c.capacity
    ensures c.partial != [] ==> c.partial[0] in c.slabs && 0 < c.slabs[c.partial[0]].inuse
    ensures c.capacity > 0 ==> (c.empty != [] <==> exists a :: a in c.slabs && c.slabs[a].inuse == 0)
  {
    if c.partial != [] { assert c.partial[0] in c.partial; }
    if a :| a in c.slabs && 0 < c.slabs[a].inuse < c.capacity { assert a in c.partial; }
    if c.empty != [] { assert c.empty[0] in c.empty; }
    if a :| a in c.slabs && c.slabs[a].inuse == 0 { assert a in c.empty; }
  }

  /** There is a slab that is not full. */
  predicate HasRoom(c: Cache) {
    exists a :: a in c.slabs && c.slabs[a].inuse < c.capacity
  }

  lemma RoomListed(c: Cache)
    requires ListsOk(c) && c.capacity > 0
    ensures HasRoom(c) <==> c.partial != [] || c.empty != []
  {
    ListsSay(c);
    if a :| a in c.slabs && c.slabs[a].inuse < c.capacity {
      if c.slabs[a].inuse == 0 { assert exists b :: b in c.slabs && c.slabs[b].inuse == 0; }
      else { assert exists b :: b in c.slabs && 0 < c.slabs[b].inuse < c.capacity; }
    }
    hide ListsOk;
  }

  lemma PopSlabs(c: Cache, a: nat)
    requires a in c.slabs && 0 < c.slabs[a].freeTop <= |c.slabs[a].freeList|
    ensures Pop(c, a).slabs == c.slabs[a := Popped(c.slabs[a])]
  {
  }

  lemma NewSlabPopped(c: Cache, p: nat)
    requires c.capacity > 0
    ensures var d := AddSlab(c, p); 0 < d.slabs[p].freeTop <= |d.slabs[p].freeList| && Pop(d, p).slabs.Keys == c.slabs.Keys + {p}
    ensures TopObject(AddSlab(c, p), p) == p + 32 + 4 * c.capacity + (c.capacity - 1) * c.objSize
  {
    PopSlabs(AddSlab(c, p), p);
  }

  /**
   * An unused slab is left alone while a partly used one has room, and the heap is asked for a new slab exactly when
   * every slab is full; of a new slab the last object goes first.
   */
  lemma AllocPrefers(h: HeapState, c: Cache, heapEnd: nat, h': HeapState, c': Cache, obj: nat)
    requires CacheOk(c) && AllocStep(h, c, heapEnd, h', c', obj)
    ensures (exists a :: a in c.slabs && 0 < c.slabs[a].inuse < c.capacity) ==>
              forall b | b in c.slabs && c.slabs[b].inuse == 0 :: b in c'.slabs && c'.slabs[b] == c.slabs[b]
    ensures HasRoom(c) ==> h' == h && c'.slabs.Keys == c.slabs.Keys
    ensures !HasRoom(c) ==>
              if Malloc(h, SlabTotal(c), heapEnd).ptr == 0 then obj == 0 && c' == c
              else
                var p := Malloc(h, SlabTotal(c), heapEnd).ptr;
                c'.slabs.Keys == c.slabs.Keys + {p} && obj == p + 32 + 4 * c.capacity + (c.capacity - 1) * c.objSize
  {
    AllocCases(h, c, heapEnd, h', c', obj);
    RoomListed(c);
    NewSlabPopped(c, Malloc(h, SlabTotal(c), heapEnd).ptr);
    hide *;
    if HasRoom(c) { PopPrefers(c); } else { NotPartial(c); }
  }

  lemma AllocCases(h: HeapState, c: Cache, heapEnd: nat, h': HeapState, c': Cache, obj: nat)
    requires CacheOk(c) && AllocStep(h, c, heapEnd, h', c', obj)
    ensures c.partial != [] || c.empty != [] ==> (ChosenOk(c); h' == h && c' == Pop(c, Chosen(c)))
    ensures c.partial == [] && c.empty == [] ==>
              var p := Malloc(h, SlabTotal(c), heapEnd).ptr; if p == 0 then obj == 0 && c' == c else (NewSlabPopped(c, p); c' == Pop(AddSlab(c, p), p) && obj == TopObject(AddSlab(c, p), p))
  {
  }

  lemma PopPrefers(c: Cache)
    requires CacheOk(c) && (c.partial != [] || c.empty != [])
    ensures (ChosenOk(c); Pop(c, Chosen(c)).slabs.Keys == c.slabs.Keys)
    ensures (exists a :: a in c.slabs && 0 < c.slabs[a].inuse < c.capacity) ==>
              forall b | b in c.slabs && c.slabs[b].inuse == 0 :: (ChosenOk(c); b in Pop(c, Chosen(c)).slabs && Pop(c, Chosen(c)).slabs[b] == c.slabs[b])
  {
    ListsSay(c);
    ChosenOk(c);
    PopSlabs(c, Chosen(c));
    hide CacheOk, Pop;
  }

  lemma NotPartial(c: Cache)
    requires !HasRoom(c)
    ensures !(exists a :: a in c.slabs && 0 < c.slabs[a].inuse < c.capacity)
  {
  }

  lemma PushedTop(c: Cache, a: nat, i: nat)
    requires a in c.slabs && 0 < c.slabs[a].inuse <= c.capacity && c.slabs[a].freeTop < |c.slabs[a].freeList|
    ensures var d := Push(c, a, i);
      && d.slabs == c.slabs[a := Pushed(c.slabs[a], i)] && TopObject(d, a) == Object(c, a, i) == Object(d, a, i) && d.capacity == c.capacity
      && (if d.slabs[a].inuse > 0 then d.partial != [] && d.partial[0] == a else d.empty != [] && d.empty[0] == a)
  {
  }

  lemma SameSlab(c: Cache, a: nat, i: nat, b: nat, j: nat)
    requires CacheOk(c) && IsObject(c, Object(c, a, i), b, j) && a in c.slabs && i < c.capacity
    ensures a == b
  {
    if (a, i) != (b, j) { ObjectsApart(c, a, i, b, j); }
  }

  /** An object just freed is the next one handed out, as long as its slab is still partly used or no other slab is. */
  lemma FreeThenAlloc(h: HeapState, c: Cache, o: nat, d: Cache, heapEnd: nat, h': HeapState, c': Cache, obj: nat)
    requires CacheOk(c) && o in c.live && FreeStep(c, o, d) && CacheOk(d) && AllocStep(h, d, heapEnd, h', c', obj)
    ensures (exists a, i: nat :: IsObject(d, o, a, i) && d.slabs[a].inuse > 0) || d.partial == [] ==> obj == o && h' == h
  {
    var a, i: nat :| IsObject(c, o, a, i) && (PushOk(c, a, i); d == Push(c, a, i));
    PushOk(c, a, i);
    assert SlabOk(c.slabs[a], c.capacity);
    PushedTop(c, a, i);
    if b, j: nat :| IsObject(d, o, b, j) && d.slabs[b].inuse > 0 { SameSlab(d, a, i, b, j); }
    ChosenOk(d);
    hide CacheOk, Push, TopObject, Object, Malloc, Pop, AddSlab, SlabTotal;
  }

  // ---------------------------------------------------------------------------------------------
  // One cache
  // ---------------------------------------------------------------------------------------------

  /** What an allocation promises about cache and heap. */
  ghost predicate AllocPost(h: HeapState, c: Cache, heapEnd: nat, h': HeapState, c': Cache, obj: nat) {
    && HeapInv(h', heapEnd) && CacheOk(c') && AllBacked(h'.blocks, c')
    && c'.objSize == c.objSize && c'.capacity == c.capacity && c.slabs.Keys <= c'.slabs.Keys
    && (if obj == 0 then c' == c && h' == h else obj !in c.live && c'.live == c.live + {obj})
    && (forall a | a in c'.slabs && a !in c.slabs :: NoPayload(h.blocks, a))
    && (forall a: nat, s: nat | Payload(h.blocks, a, s) :: Payload(h'.blocks, a, s))
  }

  lemma SameBacked(bs: seq<Block>, c: Cache, d: Cache)
    requires AllBacked(bs, c) && d.slabs.Keys == c.slabs.Keys && d.objSize == c.objSize && d.capacity == c.capacity
    ensures AllBacked(bs, d)
  {
    assert SlabBytes(d) == SlabBytes(c);
    forall a | a in d.slabs ensures Backed(bs, d, a) {
      assert Backed(bs, c, a);
      var s: nat :| s >= SlabBytes(c) && Payload(bs, a, s);
    }
  }

  lemma AllocFromSlab(h: HeapState, c: Cache, heapEnd: nat, a: nat)
    requires HeapInv(h, heapEnd) && CacheOk(c) && AllBacked(h.blocks, c)
    requires a in c.slabs && c.slabs[a].inuse < c.capacity && 0 < c.slabs[a].freeTop <= |c.slabs[a].freeList|
    ensures AllocPost(h, c, heapEnd, h, Pop(c, a), TopObject(c, a))
  {
    PopOk(c, a);
    PopFrame(c, a);
    hide HeapInv, CacheOk, AllBacked, Payload, Pop, Object;
    SameBacked(h.blocks, c, Pop(c, a));
  }

  lemma AllocWithNew(h: HeapState, c: Cache, heapEnd: nat)
    requires HeapInv(h, heapEnd) && CacheOk(c) && AllBacked(h.blocks, c) && Malloc(h, SlabTotal(c), heapEnd).ptr != 0
    ensures var r := Malloc(h, SlabTotal(c), heapEnd); var n := AddSlab(c, r.ptr);
            && n.capacity > 0 && 0 < n.slabs[r.ptr].freeTop <= |n.slabs[r.ptr].freeList|
            && AllocPost(h, c, heapEnd, r.state, Pop(n, r.ptr), TopObject(n, r.ptr))
  {
    var r := Malloc(h, SlabTotal(c), heapEnd);
    var n := AddSlab(c, r.ptr);
    MallocNew(h, SlabTotal(c), heapEnd);
    forall a: nat, s: nat | Payload(h.blocks, a, s) ensures Payload(r.state.blocks, a, s) {
      MallocLive(h, SlabTotal(c), heapEnd, a - 16, s);
    }
    NewSlabOk(h.blocks, r.state.blocks, c, r.ptr);
    AllocFromSlab(r.state, n, heapEnd, r.ptr);
    PopFrame(n, r.ptr);
    hide HeapInv, CacheOk, AllBacked, Payload, Pop, Object, Malloc;
  }

  /** kmem_cache_alloc keeps the cache sound and every slab inside its own block; the object was not
      out before. */
  lemma AllocKeeps(h: HeapState, c: Cache, heapEnd: nat, h': HeapState, c': Cache, obj: nat)
    requires HeapInv(h, heapEnd) && CacheOk(c) && AllBacked(h.blocks, c) && AllocStep(h, c, heapEnd, h', c', obj)
    ensures AllocPost(h, c, heapEnd, h', c', obj)
  {
    hide HeapInv, CacheOk, AllBacked, Payload, Pop, Object, Malloc;
    if c.partial != [] || c.empty != [] {
      ChosenOk(c);
      AllocFromSlab(h, c, heapEnd, Chosen(c));
    } else if Malloc(h, SlabTotal(c), heapEnd).ptr != 0 {
      AllocWithNew(h, c, heapEnd);
    }
  }

  lemma PopFrame(c: Cache, a: nat)
    requires CacheOk(c) && a in c.slabs && c.slabs[a].inuse < c.capacity
    ensures var n := Pop(c, a); n.slabs.Keys == c.slabs.Keys && n.objSize == c.objSize && n.capacity == c.capacity
    ensures Object(c, a, c.slabs[a].freeList[c.slabs[a].freeTop - 1]) >= 32
  {
    PopSlab(c, a);
    PopShape(c, a);
    ObjectInside(c, a, c.slabs[a].freeList[c.slabs[a].freeTop - 1]);
  }

  lemma NewSlabOk(bs: seq<Block>, t: seq<Block>, c: Cache, a: nat)
    requires CacheOk(c) && Tiles(t, HEAP_START) && AllBacked(bs, c)
    requires forall b: nat, s: nat | Payload(bs, b, s) :: Payload(t, b, s)
    requires NoPayload(bs, a) && HasPayload(t, a, SlabTotal(c))
    ensures a !in c.slabs && CacheOk(AddSlab(c, a)) && AllBacked(t, AddSlab(c, a)) && AddSlab(c, a).live == c.live
  {
    forall b | b in c.slabs ensures Backed(t, c, b) && b != a {
      var s: nat :| s >= SlabBytes(c) && Payload(bs, b, s);
      assert Payload(t, b, s);
    }
    assert Backed(t, c, a) by { var s: nat :| s >= SlabTotal(c) && Payload(t, a, s); assert s >= SlabBytes(c); }
    forall b | b in c.slabs ensures a + SlabBytes(c) <= b || b + SlabBytes(c) <= a {
      BackedApart(t, c, a, c, b);
    }
    AddSlabOk(c, a);
    var n := AddSlab(c, a);
    assert SlabBytes(n) == SlabBytes(c);
    forall b | b in n.slabs ensures Backed(t, n, b) {
      if b != a {
        assert Backed(t, c, b);
        var s: nat :| s >= SlabBytes(c) && Payload(t, b, s);
      } else {
        var s: nat :| s >= SlabTotal(c) && Payload(t, a, s);
        assert s >= SlabBytes(c);
      }
    }
  }

  /** A live object determines its slab and index. */
  lemma SlabUnique(c: Cache, o: nat, a: nat, i: nat, b: nat, j: nat)
    requires CacheOk(c) && IsObject(c, o, a, i) && IsObject(c, o, b, j)
    ensures a == b && i == j
  {
    if (a, i) != (b, j) { ObjectsApart(c, a, i, b, j); }
  }

  /** A live object always has a slab that is on the partial or the full list. */
  lemma SlabFound(c: Cache, o: nat) returns (a: nat, i: nat)
    requires CacheOk(c) && o in c.live
    ensures IsObject(c, o, a, i) && (a in c.partial || a in c.full) && c.slabs[a].inuse > 0
  {
    a, i :| IsObject(c, o, a, i);
    PushSlab(c, a, i);
  }

  // ---------------------------------------------------------------------------------------------
  // Many caches and other users of the heap
  // ---------------------------------------------------------------------------------------------

  datatype World = World(heap: HeapState, caches: seq<Cache>)

  /** sizeof(struct kmem_cache). */
  const CACHE_RECORD: nat := 40

  datatype Op =
    | CacheCreate(size: nat)
    | CacheAlloc(k: nat, obj: nat)
    | CacheFree(k: nat, o: nat)
    | OtherAlloc(size: nat)          // any other kmalloc
    | OtherFree(block: nat)          // kfree of a block that is no slab

  ghost predicate WorldOk(w: World, heapEnd: nat) {
    && HeapInv(w.heap, heapEnd)
    && (forall k | 0 <= k < |w.caches| :: CacheOk(w.caches[k]) && AllBacked(w.heap.blocks, w.caches[k]))
    && (forall j, k | 0 <= j < k < |w.caches| :: w.caches[j].slabs.Keys !! w.caches[k].slabs.Keys)
  }

  ghost predicate Step(w: World, op: Op, heapEnd: nat, n: World)
    requires WorldOk(w, heapEnd)
  {
    match op
    case CacheCreate(size) =>
      var r := Malloc(w.heap, CACHE_RECORD, heapEnd);
      size > 0 && n == World(r.state, if r.ptr == 0 then w.caches else w.caches + [NewCache(size)])
    case CacheAlloc(k, obj) =>
      && k < |w.caches| == |n.caches| && (forall j | 0 <= j < |w.caches| && j != k :: n.caches[j] == w.caches[j])
      && AllocStep(w.heap, w.caches[k], heapEnd, n.heap, n.caches[k], obj)
    case CacheFree(k, o) =>
      && k < |w.caches| == |n.caches| && (forall j | 0 <= j < |w.caches| && j != k :: n.caches[j] == w.caches[j])
      && n.heap == w.heap && o in w.caches[k].live && FreeStep(w.caches[k], o, n.caches[k])
    case OtherAlloc(size) =>
      n == w.(heap := Malloc(w.heap, size, heapEnd).state)
    case OtherFree(b) =>
      && b < |w.heap.blocks| && w.heap.blocks[b].used
      && (forall k | 0 <= k < |w.caches| :: w.heap.blocks[b].addr + 16 !in w.caches[k].slabs)
      && n == w.(heap := w.heap.(blocks := Release(w.heap.blocks, b)))
  }

  lemma StepKeeps(w: World, op: Op, heapEnd: nat, n: World)
    requires WorldOk(w, heapEnd) && Step(w, op, heapEnd, n)
    ensures WorldOk(n, heapEnd)
  {
    match op
    case CacheCreate(size) => CreateWorld(w, size, heapEnd);
    case CacheAlloc(k, obj) => AllocWorld(w, k, obj, heapEnd, n);
    case CacheFree(k, o) => FreeWorld(w, k, o, heapEnd, n);
    case OtherAlloc(size) => OtherAllocWorld(w, size, heapEnd);
    case OtherFree(b) => OtherFreeWorld(w, b, heapEnd);
  }

  lemma CreateWorld(w: World, size: nat, heapEnd: nat)
    requires WorldOk(w, heapEnd) && size > 0
    ensures WorldOk(World(Malloc(w.heap, CACHE_RECORD, heapEnd).state, w.caches + [NewCache(size)]), heapEnd)
    ensures WorldOk(World(Malloc(w.heap, CACHE_RECORD, heapEnd).state, w.caches), heapEnd)
  {
    OtherAllocWorld(w, CACHE_RECORD, heapEnd);
    assert NewCache(size).slabs.Keys == {};
    hide Malloc, CacheOk, HeapInv, Backed;
  }

  lemma OtherAllocWorld(w: World, size: nat, heapEnd: nat)
    requires WorldOk(w, heapEnd)
    ensures WorldOk(w.(heap := Malloc(w.heap, size, heapEnd).state), heapEnd)
  {
    var t := Malloc(w.heap, size, heapEnd).state;
    MallocKeeps(w.heap, size, heapEnd);
    hide Malloc, CacheOk, HeapInv;
    forall k, a | 0 <= k < |w.caches| && a in w.caches[k].slabs ensures Backed(t.blocks, w.caches[k], a) {
      assert Backed(w.heap.blocks, w.caches[k], a);
      var s: nat :| s >= SlabBytes(w.caches[k]) && Payload(w.heap.blocks, a, s);
      MallocLive(w.heap, size, heapEnd, a - 16, s);
      assert Payload(t.blocks, a, s);
    }
  }

  lemma OtherFreeWorld(w: World, b: nat, heapEnd: nat)
    requires WorldOk(w, heapEnd) && b < |w.heap.blocks| && w.heap.blocks[b].used
    requires forall k | 0 <= k < |w.caches| :: w.heap.blocks[b].addr + 16 !in w.caches[k].slabs
    ensures WorldOk(w.(heap := w.heap.(blocks := Release(w.heap.blocks, b))), heapEnd)
  {
    var t := Release(w.heap.blocks, b);
    FreeKeeps(w.heap, b, heapEnd);
    assert Tiles(w.heap.blocks, HEAP_START);
    hide Release, CacheOk, HeapInv, Tiles, Backed;
    forall k, a | 0 <= k < |w.caches| && a in w.caches[k].slabs ensures Backed(t, w.caches[k], a) {
      assert Backed(w.heap.blocks, w.caches[k], a);
      ReleaseBacked(w.heap.blocks, b, w.caches[k], a);
    }
  }

  /** Freeing another block takes nothing from a slab. */
  lemma ReleaseBacked(bs: seq<Block>, b: nat, c: Cache, a: nat)
    requires Tiles(bs, HEAP_START) && b < |bs| && bs[b].used && bs[b].addr + 16 != a && Backed(bs, c, a)
    ensures Backed(Release(bs, b), c, a)
  {
    var s: nat :| s >= SlabBytes(c) && Payload(bs, a, s);
    ReleaseLive(bs, HEAP_START, b, a - 16, s);
    assert Payload(Release(bs, b), a, s);
  }

  lemma AllocWorld(w: World, k: nat, obj: nat, heapEnd: nat, n: World)
    requires WorldOk(w, heapEnd) && Step(w, CacheAlloc(k, obj), heapEnd, n)
    ensures WorldOk(n, heapEnd)
  {
    var c, d := w.caches[k], n.caches[k];
    AllocKeeps(w.heap, c, heapEnd, n.heap, d, obj);
    hide HeapInv, CacheOk, Payload, AllocStep, AllBacked;
    forall j | 0 <= j < |w.caches| && j != k ensures AllBacked(n.heap.blocks, w.caches[j]) && w.caches[j].slabs.Keys !! d.slabs.Keys {
      OthersApart(w, heapEnd, j, k);
      StillBacked(w.heap, c, heapEnd, n.heap, d, obj, w.caches[j]);
    }
    OneCacheChanged(w, n, heapEnd, k);
  }

  lemma OthersApart(w: World, heapEnd: nat, j: nat, k: nat)
    requires WorldOk(w, heapEnd) && j < |w.caches| && k < |w.caches| && j != k
    ensures w.caches[j].slabs.Keys !! w.caches[k].slabs.Keys
  {
    if j > k { assert w.caches[k].slabs.Keys !! w.caches[j].slabs.Keys; }
  }

  lemma OneCacheChanged(w: World, n: World, heapEnd: nat, k: nat)
    requires WorldOk(w, heapEnd) && k < |w.caches| == |n.caches| && HeapInv(n.heap, heapEnd)
    requires CacheOk(n.caches[k]) && AllBacked(n.heap.blocks, n.caches[k])
    requires forall j | 0 <= j < |w.caches| && j != k ::
               && n.caches[j] == w.caches[j] && AllBacked(n.heap.blocks, w.caches[j])
               && w.caches[j].slabs.Keys !! n.caches[k].slabs.Keys
    ensures WorldOk(n, heapEnd)
  {
    hide HeapInv, CacheOk, AllBacked;
    forall i, j | 0 <= i < j < |n.caches| ensures n.caches[i].slabs.Keys !! n.caches[j].slabs.Keys {
      if i != k && j != k { assert w.caches[i].slabs.Keys !! w.caches[j].slabs.Keys; }
    }
  }

  lemma StillBacked(h: HeapState, c: Cache, heapEnd: nat, h': HeapState, c': Cache, obj: nat, other: Cache)
    requires AllocPost(h, c, heapEnd, h', c', obj) && AllBacked(h.blocks, other) && other.slabs.Keys !! c.slabs.Keys
    ensures AllBacked(h'.blocks, other) && other.slabs.Keys !! c'.slabs.Keys
  {
    hide HeapInv, CacheOk, Payload;
    forall a | a in other.slabs ensures Backed(h'.blocks, other, a) && a !in c'.slabs {
      assert Backed(h.blocks, other, a);
      var s: nat :| s >= SlabBytes(other) && Payload(h.blocks, a, s);
      assert Payload(h'.blocks, a, s);
      assert a !in c.slabs.Keys;
    }
  }

  lemma FreeWorld(w: World, k: nat, o: nat, heapEnd: nat, n: World)
    requires WorldOk(w, heapEnd) && Step(w, CacheFree(k, o), heapEnd, n)
    ensures WorldOk(n, heapEnd)
  {
    var c, d := w.caches[k], n.caches[k];
    FreeKeepsCache(c, o, d);
    hide HeapInv, CacheOk, AllBacked, FreeStep;
    SameBacked(w.heap.blocks, c, d);
    forall j | 0 <= j < |w.caches| && j != k ensures w.caches[j].slabs.Keys !! d.slabs.Keys { OthersApart(w, heapEnd, j, k); }
    OneCacheChanged(w, n, heapEnd, k);
  }

  /** kmem_cache_free takes exactly the object out of the live set; no slab appears or disappears. */
  lemma FreeKeepsCache(c: Cache, o: nat, d: Cache)
    requires CacheOk(c) && o in c.live && FreeStep(c, o, d)
    ensures CacheOk(d) && d.live == c.live - {o}
    ensures d.slabs.Keys == c.slabs.Keys && d.objSize == c.objSize && d.capacity == c.capacity
  {
    var a, i: nat :| IsObject(c, o, a, i) && (PushOk(c, a, i); d == Push(c, a, i));
    PushOk(c, a, i);
    PushSlab(c, a, i);
    PushShape(c, a, i);
  }

  /** In every run, objects that are out never overlap, whichever caches they come from. */
  lemma ObjectsDisjoint(w: World, heapEnd: nat, j: nat, o: nat, k: nat, p: nat)
    requires WorldOk(w, heapEnd) && j < |w.caches| && k < |w.caches|
    requires o in w.caches[j].live && p in w.caches[k].live && (j, o) != (k, p)
    ensures o + w.caches[j].objSize <= p || p + w.caches[k].objSize <= o
  {
    var c, d := w.caches[j], w.caches[k];
    var a, x := SlabFound(c, o);
    var b, y := SlabFound(d, p);
    if j == k {
      ObjectsApart(c, a, x, b, y);
    } else {
      ObjectInside(c, a, x);
      ObjectInside(d, b, y);
      assert a != b;
      BackedApart(w.heap.blocks, c, a, d, b);
    }
  }

  ghost predicate IsRun(run: seq<World>, ops: seq<Op>, heapEnd: nat) {
    |run| == |ops| + 1 && forall i | 0 <= i < |ops| :: WorldOk(run[i], heapEnd) ==> Step(run[i], ops[i], heapEnd, run[i + 1])
  }

  lemma {:induction false} WorldInEveryRun(run: seq<World>, ops: seq<Op>, heapEnd: nat, k: nat)
    requires IsRun(run, ops, heapEnd) && WorldOk(run[0], heapEnd) && k <= |ops|
    ensures WorldOk(run[k], heapEnd)
  {
    if k > 0 {
      WorldInEveryRun(run, ops, heapEnd, k - 1);
      assert Step(run[k - 1], ops[k - 1], heapEnd, run[k - 1 + 1]);
      StepKeeps(run[k - 1], ops[k - 1], heapEnd, run[k]);
    }
  }
}
