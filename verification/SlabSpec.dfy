/** A slab cache as a value: its three lists, the free-index stacks of its slabs, and the objects that
    are out. */
module SlabSpec {
  import opened Base
  import opened Pmm

  /** freeList is the stack array; entries below freeTop are the free indices. */
  datatype Slab = Slab(inuse: nat, capacity: nat, freeList: seq<nat>, freeTop: nat)

  /** slabs maps the address of each slab to its header; live is the set of objects handed out. */
  datatype Cache = Cache(objSize: nat, capacity: nat, partial: seq<nat>, full: seq<nat>, empty: seq<nat>,
                         slabs: map<nat, Slab>, live: set<nat>)

  /** Where the objects of the slab at a begin: behind its header and its stack. */
  function Area(c: Cache, a: nat): nat { a + 32 + 4 * c.capacity }

  function Object(c: Cache, a: nat, i: nat): nat { Area(c, a) + i * c.objSize }

  /** The bytes a slab takes, before rounding to a page. */
  function SlabBytes(c: Cache): nat { 32 + 4 * c.capacity + c.capacity * c.objSize }

  predicate OnStack(s: Slab, i: nat) { exists k: nat :: k < s.freeTop && k < |s.freeList| && s.freeList[k] == i }

  ghost predicate SlabOk(s: Slab, capacity: nat) {
    && s.capacity == capacity == |s.freeList| && s.inuse + s.freeTop == capacity
    && (forall k: nat | k < s.freeTop :: s.freeList[k] < capacity)
    && (forall j: nat, k: nat | j < k < s.freeTop :: s.freeList[j] != s.freeList[k])
  }

  /** The list a slab belongs on is decided by its count. */
  ghost predicate ListsOk(c: Cache) {
    && NoDup(c.partial) && NoDup(c.full) && NoDup(c.empty)
    && (forall a :: a in c.partial <==> a in c.slabs && 0 < c.slabs[a].inuse < c.capacity)
    && (forall a :: a in c.full <==> a in c.slabs && c.slabs[a].inuse == c.capacity)
    && (forall a :: a in c.empty <==> a in c.slabs && c.slabs[a].inuse == 0)
  }

  /** Slabs of one cache do not overlap. */
  ghost predicate SlabsApart(c: Cache) {
    forall a, b | a in c.slabs && b in c.slabs && a != b :: a + SlabBytes(c) <= b || b + SlabBytes(c) <= a
  }

  /** The objects that are out are exactly those whose index is not on their slab's stack. */
  ghost predicate LiveExact(c: Cache) {
    && (forall a, i: nat | a in c.slabs && i < c.capacity :: Object(c, a, i) in c.live <==> !OnStack(c.slabs[a], i))
    && (forall o | o in c.live :: exists a, i: nat :: IsObject(c, o, a, i))
  }

  predicate IsObject(c: Cache, o: nat, a: nat, i: nat) { a in c.slabs && i < c.capacity && o == Object(c, a, i) }

  ghost predicate CacheOk(c: Cache) {
    && c.objSize > 0 && c.capacity > 0
    && (forall a | a in c.slabs :: SlabOk(c.slabs[a], c.capacity))
    && ListsOk(c) && SlabsApart(c) && LiveExact(c)
  }

  /** kmem_cache_create: object size rounded up to 8, as many objects as fit four pages, at least one. */
  function NewCache(size: nat): (c: Cache)
    requires size > 0
    ensures CacheOk(c) && c.live == {} && c.objSize % 8 == 0 && size <= c.objSize < size + 8
    ensures c.capacity > 1 ==> c.capacity * c.objSize <= 16384
    ensures (c.capacity + 1) * c.objSize > 16384
  {
    var rounded := (size + 7) / 8 * 8;
    Cache(rounded, if 16384 / rounded > 1 then 16384 / rounded else 1, [], [], [], map[], {})
  }

  // ---------------------------------------------------------------------------------------------
  // Addresses of objects
  // ---------------------------------------------------------------------------------------------

  lemma MulStep(i: nat, j: nat, size: nat)
    requires i < j
    ensures i * size + size <= j * size
  {
    var d := j - i - 1;
    assert j * size == i * size + size + d * size;
    assert d * size >= 0;
  }

  /** The objects of a slab lie in order inside it. */
  lemma ObjectInside(c: Cache, a: nat, i: nat)
    requires i < c.capacity
    ensures a <= Area(c, a) <= Object(c, a, i)
    ensures Object(c, a, i) + c.objSize <= Area(c, a) + c.capacity * c.objSize == a + SlabBytes(c)
  {
    MulStep(i, c.capacity, c.objSize);
  }

  /** The division in kmem_cache_free recovers the index. */
  lemma IndexOf(c: Cache, a: nat, i: nat)
    requires i < c.capacity && c.objSize > 0
    ensures (Object(c, a, i) - Area(c, a)) / c.objSize == i
  {
    var x, q := i * c.objSize, i * c.objSize / c.objSize;
    assert x == q * c.objSize + x % c.objSize;
    if q < i { MulStep(q, i, c.objSize); }
    if i < q { MulStep(i, q, c.objSize); }
  }

  /** Different objects of one cache do not overlap. */
  lemma ObjectsApart(c: Cache, a: nat, i: nat, b: nat, j: nat)
    requires SlabsApart(c) && a in c.slabs && b in c.slabs && i < c.capacity && j < c.capacity && (a, i) != (b, j)
    ensures Object(c, a, i) + c.objSize <= Object(c, b, j) || Object(c, b, j) + c.objSize <= Object(c, a, i)
  {
    ObjectInside(c, a, i);
    ObjectInside(c, b, j);
    if a == b {
      if i < j { MulStep(i, j, c.objSize); } else { MulStep(j, i, c.objSize); }
    }
  }

  // ---------------------------------------------------------------------------------------------
  // Operations
  // ---------------------------------------------------------------------------------------------

  function Unlink(c: Cache, a: nat): Cache {
    c.(partial := Del(c.partial, a), full := Del(c.full, a), empty := Del(c.empty, a))
  }

  /** list_add onto the list the slab's count dictates. */
  function Link(c: Cache, a: nat): Cache
    requires a in c.slabs
  {
    if c.slabs[a].inuse == c.capacity then c.(full := [a] + c.full)
    else if c.slabs[a].inuse == 0 then c.(empty := [a] + c.empty)
    else c.(partial := [a] + c.partial)
  }

  /** slab_new: nothing in use, every index on the stack. */
  function NewSlab(capacity: nat): Slab { Slab(0, capacity, seq(capacity, i => i), capacity) }

  function AddSlab(c: Cache, a: nat): Cache {
    c.(slabs := c.slabs[a := NewSlab(c.capacity)], empty := [a] + c.empty)
  }

  /** Slab a gets a new header and moves to the list its count dictates. */
  function Replace(c: Cache, a: nat, t: Slab, live: set<nat>): Cache
    requires a in c.slabs
  {
    Link(Unlink(c, a).(slabs := c.slabs[a := t], live := live), a)
  }

  function Popped(s: Slab): Slab
    requires s.freeTop > 0
  {
    s.(inuse := s.inuse + 1, freeTop := s.freeTop - 1)
  }

  function Pushed(s: Slab, i: nat): Slab
    requires s.inuse > 0 && s.freeTop < |s.freeList|
  {
    s.(inuse := s.inuse - 1, freeTop := s.freeTop + 1, freeList := s.freeList[s.freeTop := i])
  }

  /** Taking the top index of the stack of slab a. */
  function Pop(c: Cache, a: nat): Cache
    requires a in c.slabs && 0 < c.slabs[a].freeTop <= |c.slabs[a].freeList|
  {
    var s := c.slabs[a];
    Replace(c, a, Popped(s), c.live + {Object(c, a, s.freeList[s.freeTop - 1])})
  }

  /** Putting index i back on the stack of slab a. */
  function Push(c: Cache, a: nat, i: nat): Cache
    requires a in c.slabs && c.slabs[a].inuse > 0 && c.slabs[a].freeTop < |c.slabs[a].freeList|
  {
    Replace(c, a, Pushed(c.slabs[a], i), c.live - {Object(c, a, i)})
  }

  // ---------------------------------------------------------------------------------------------
  // What they keep
  // ---------------------------------------------------------------------------------------------

  /** Moving a slab to the list of its new count keeps the lists right. */
  lemma RelinkLists(c: Cache, a: nat, s: Slab, live: set<nat>)
    requires ListsOk(c) && a in c.slabs && c.capacity > 0 && s.inuse <= c.capacity
    ensures var n := Replace(c, a, s, live);
            ListsOk(n) && n.slabs == c.slabs[a := s] && n.live == live && n.objSize == c.objSize && n.capacity == c.capacity
  {
    DelSpec(c.partial, a);
    DelSpec(c.full, a);
    DelSpec(c.empty, a);
    var u := Unlink(c, a).(slabs := c.slabs[a := s], live := live);
    ConsNoDup(a, u.partial);
    ConsNoDup(a, u.full);
    ConsNoDup(a, u.empty);
    hide NoDup, Del;
    assert ListsOk(Link(u, a));
  }

  lemma AddSlabOk(c: Cache, a: nat)
    requires CacheOk(c) && a !in c.slabs
    requires forall b | b in c.slabs :: a + SlabBytes(c) <= b || b + SlabBytes(c) <= a
    ensures CacheOk(AddSlab(c, a)) && AddSlab(c, a).live == c.live
  {
    var n, s := AddSlab(c, a), NewSlab(c.capacity);
    assert SlabOk(s, c.capacity);
    assert NoDup(n.empty);
    forall x ensures x in n.empty <==> x in n.slabs && n.slabs[x].inuse == 0 {}
    forall i: nat | i < c.capacity ensures OnStack(s, i) && Object(c, a, i) !in c.live {
      assert s.freeList[i] == i;
      ObjectInside(c, a, i);
      if Object(c, a, i) in c.live {
        var b, j: nat :| IsObject(c, Object(c, a, i), b, j);
        ObjectInside(c, b, j);
      }
    }
    forall o | o in n.live ensures exists b, i: nat :: IsObject(n, o, b, i) {
      var b, i: nat :| IsObject(c, o, b, i);
      assert IsObject(n, o, b, i);
    }
    forall b, i: nat | b in n.slabs && i < n.capacity ensures Object(n, b, i) in n.live <==> !OnStack(n.slabs[b], i) {
      assert Object(n, b, i) == Object(c, b, i);
    }
  }

  /** The popped index leaves the stack and no other does. */
  lemma PopStack(s: Slab, capacity: nat, i: nat)
    requires SlabOk(s, capacity) && s.freeTop > 0
    ensures var t := Popped(s);
            SlabOk(t, capacity) && (OnStack(t, i) <==> OnStack(s, i) && i != s.freeList[s.freeTop - 1])
  {
    var t := Popped(s);
    if OnStack(s, i) && i != s.freeList[s.freeTop - 1] {
      var k: nat :| k < s.freeTop && k < |s.freeList| && s.freeList[k] == i;
      assert k < t.freeTop;
    }
  }

  lemma PushStack(s: Slab, capacity: nat, i: nat, x: nat)
    requires SlabOk(s, capacity) && s.inuse > 0 && i < capacity && !OnStack(s, i)
    ensures var t := Pushed(s, i);
            SlabOk(t, capacity) && (OnStack(t, x) <==> OnStack(s, x) || x == i)
  {
    var t := Pushed(s, i);
    if OnStack(s, x) {
      var k: nat :| k < s.freeTop && k < |s.freeList| && s.freeList[k] == x;
      assert t.freeList[k] == x;
    }
    if x == i { assert t.freeList[s.freeTop] == i; }
    if OnStack(t, x) && x != i {
      var k: nat :| k < t.freeTop && k < |t.freeList| && t.freeList[k] == x;
      assert s.freeList[k] == x;
    }
    forall j: nat, k: nat | j < k < t.freeTop ensures t.freeList[j] != t.freeList[k] {
      if k == s.freeTop { assert s.freeList[j] == i ==> OnStack(s, i); }
    }
  }

  /** When exactly one index of one slab changes sides, and the live set with it, LiveExact is kept. */
  lemma LiveMoves(c: Cache, n: Cache, a: nat, i: nat, out: bool)
    requires LiveExact(c) && SlabsApart(c) && a in c.slabs && i < c.capacity && c.objSize > 0
    requires n.objSize == c.objSize && n.capacity == c.capacity && n.slabs.Keys == c.slabs.Keys
    requires forall b | b in c.slabs && b != a :: n.slabs[b] == c.slabs[b]
    requires forall x: nat | x != i :: OnStack(n.slabs[a], x) == OnStack(c.slabs[a], x)
    requires OnStack(n.slabs[a], i) == !out
    requires n.live == if out then c.live + {Object(c, a, i)} else c.live - {Object(c, a, i)}
    ensures LiveExact(n)
  {
    forall b, j: nat | b in n.slabs && j < n.capacity ensures Object(n, b, j) in n.live <==> !OnStack(n.slabs[b], j) {
      assert Object(n, b, j) == Object(c, b, j);
      if (a, i) != (b, j) { ObjectsApart(c, a, i, b, j); }
    }
    forall o | o in n.live ensures exists b, j: nat :: IsObject(n, o, b, j) {
      if o == Object(c, a, i) { assert IsObject(n, o, a, i); }
      else { var b, j: nat :| IsObject(c, o, b, j); assert IsObject(n, o, b, j); }
    }
  }

  lemma SameApart(c: Cache, n: Cache)
    requires SlabsApart(c) && n.slabs.Keys == c.slabs.Keys && n.capacity == c.capacity && n.objSize == c.objSize
    ensures SlabsApart(n)
  {
  }

  /** Both operations move one index of one slab between the stack and the live set. */
  lemma MoveOk(c: Cache, n: Cache, a: nat, i: nat, t: Slab, out: bool)
    requires CacheOk(c) && a in c.slabs && i < c.capacity && ListsOk(n) && SlabOk(t, c.capacity)
    requires n.slabs == c.slabs[a := t] && n.objSize == c.objSize && n.capacity == c.capacity
    requires n.live == if out then c.live + {Object(c, a, i)} else c.live - {Object(c, a, i)}
    requires forall x: nat | x != i :: OnStack(t, x) == OnStack(c.slabs[a], x)
    requires OnStack(t, i) == !out
    ensures CacheOk(n)
  {
    hide ListsOk, OnStack, LiveExact, Object, SlabsApart, SlabOk;
    LiveMoves(c, n, a, i, out);
    SameApart(c, n);
  }

  lemma PopSlab(c: Cache, a: nat)
    requires CacheOk(c) && a in c.slabs && c.slabs[a].inuse < c.capacity
    ensures var s := c.slabs[a]; 0 < s.freeTop <= |s.freeList| && SlabOk(s, c.capacity) && c.capacity > 0 && ListsOk(c)
    ensures var s := c.slabs[a]; var i := s.freeList[s.freeTop - 1];
            OnStack(s, i) && i < c.capacity && Object(c, a, i) !in c.live
  {
    var s := c.slabs[a];
    assert OnStack(s, s.freeList[s.freeTop - 1]);
  }

  lemma PopShape(c: Cache, a: nat)
    requires ListsOk(c) && c.capacity > 0 && a in c.slabs && SlabOk(c.slabs[a], c.capacity) && c.slabs[a].inuse < c.capacity
    ensures var s, n := c.slabs[a], Pop(c, a);
            && n.slabs == c.slabs[a := Popped(s)]
            && n.objSize == c.objSize && n.capacity == c.capacity
            && n.live == c.live + {Object(c, a, s.freeList[s.freeTop - 1])} && ListsOk(n)
  {
    var s := c.slabs[a];
    hide ListsOk, Object, Replace;
    RelinkLists(c, a, Popped(s), c.live + {Object(c, a, s.freeList[s.freeTop - 1])});
  }

  /** kmem_cache_alloc hands out an object that was not out and is inside the chosen slab. */
  lemma PopOk(c: Cache, a: nat)
    requires CacheOk(c) && a in c.slabs && c.slabs[a].inuse < c.capacity
    ensures var i := c.slabs[a].freeList[c.slabs[a].freeTop - 1];
            && CacheOk(Pop(c, a)) && i < c.capacity && Object(c, a, i) !in c.live
            && Pop(c, a).live == c.live + {Object(c, a, i)}
  {
    hide *;
    PopSlab(c, a);
    PopShape(c, a);
    var s := c.slabs[a];
    var i, t := s.freeList[s.freeTop - 1], Popped(s);
    forall x: nat ensures OnStack(t, x) <==> OnStack(s, x) && x != i { PopStack(s, c.capacity, x); }
    PopStack(s, c.capacity, i);
    MoveOk(c, Pop(c, a), a, i, t, true);
  }

  lemma PushShape(c: Cache, a: nat, i: nat)
    requires ListsOk(c) && c.capacity > 0 && a in c.slabs && SlabOk(c.slabs[a], c.capacity)
    requires c.slabs[a].inuse > 0 && c.slabs[a].freeTop < |c.slabs[a].freeList|
    ensures var s, n := c.slabs[a], Push(c, a, i);
            && n.slabs == c.slabs[a := Pushed(s, i)]
            && n.objSize == c.objSize && n.capacity == c.capacity && n.live == c.live - {Object(c, a, i)} && ListsOk(n)
  {
    hide ListsOk, Object, Replace;
    RelinkLists(c, a, Pushed(c.slabs[a], i), c.live - {Object(c, a, i)});
  }

  lemma PushSlab(c: Cache, a: nat, i: nat)
    requires CacheOk(c) && a in c.slabs && i < c.capacity && Object(c, a, i) in c.live
    ensures c.slabs[a].inuse > 0 && c.slabs[a].freeTop < c.capacity == |c.slabs[a].freeList|
    ensures !OnStack(c.slabs[a], i) && SlabOk(c.slabs[a], c.capacity) && c.capacity > 0 && ListsOk(c)
  {
    assert !OnStack(c.slabs[a], i);
    RoomOnStack(c.slabs[a], c.capacity, i);
  }

  /** kmem_cache_free of a live object takes exactly it out of the live set. */
  lemma PushOk(c: Cache, a: nat, i: nat)
    requires CacheOk(c) && a in c.slabs && i < c.capacity && Object(c, a, i) in c.live
    ensures c.slabs[a].inuse > 0 && c.slabs[a].freeTop < c.capacity == |c.slabs[a].freeList|
    ensures CacheOk(Push(c, a, i)) && Push(c, a, i).live == c.live - {Object(c, a, i)}
  {
    hide *;
    PushSlab(c, a, i);
    PushShape(c, a, i);
    var s := c.slabs[a];
    var t := Pushed(s, i);
    forall x: nat ensures OnStack(t, x) <==> OnStack(s, x) || x == i { PushStack(s, c.capacity, i, x); }
    PushStack(s, c.capacity, i, i);
    MoveOk(c, Push(c, a, i), a, i, t, false);
  }

  /** A stack of distinct indices that misses one index is not full. */
  lemma RoomOnStack(s: Slab, capacity: nat, i: nat)
    requires SlabOk(s, capacity) && i < capacity && !OnStack(s, i)
    ensures s.freeTop < capacity
  {
    var top := s.freeList[..s.freeTop];
    var seen := set k: nat | k < |top| :: top[k];
    DistinctSize(top);
    var all := Range(0, capacity);
    RangeSize(0, capacity);
    RangeHas(0, i, capacity);
    forall x | x in seen ensures x in all - {i} {
      var k: nat :| k < |top| && top[k] == x;
      RangeHas(0, x, capacity);
      assert s.freeList[k] == x;
    }
    SubsetSize(seen, all - {i});
  }

  lemma {:induction false} DistinctSize(l: seq<nat>)
    requires NoDup(l)
    ensures |set k: nat | k < |l| :: l[k]| == |l|
  {
    var all := set k: nat | k < |l| :: l[k];
    if l == [] {
      assert all == {};
    } else {
      var front := l[..|l| - 1];
      DistinctSize(front);
      var fs := set k: nat | k < |front| :: front[k];
      assert all == fs + {l[|l| - 1]} by {
        forall x | x in all ensures x in fs + {l[|l| - 1]} {
          var k: nat :| k < |l| && l[k] == x;
          if k < |front| { assert front[k] == x; }
        }
        forall x | x in fs ensures x in all { var k: nat :| k < |front| && front[k] == x; assert l[k] == x; }
      }
      assert l[|l| - 1] !in fs;
    }
  }
}
