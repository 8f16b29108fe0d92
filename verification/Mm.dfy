/** mm_struct: mapping, unmapping and brk on one address space, and the memory system calls. */
module Mm {
  import opened Base
  import opened Pmm
  import opened PageTables
  import opened AddressSpaces
  import opened Vmm
  import opened Ranges

  /** No translation, table or mapped contents changed, and frames taken from the allocator are lost. */
  ghost predicate SameViews(m: Machine, n: Machine) {
    && n.dirs == m.dirs && n.free <= m.free && Accounted(n) == Accounted(m) - (m.free - n.free)
    && (forall q :: View(n, q) == View(m, q) && Tables(n, q) == Tables(m, q))
    && KeepsContents(m, n)
  }

  /** pmm_alloc_zero followed by map_page, whose result the callers ignore: the body of the mm_mmap
      loop, of the demand-paging branch and of the segment loop. With one free page and no table the
      call reports success although nothing was mapped. */
  method MapZeroed(vm: Paging, pd: nat, va: nat, flags: nat) returns (r: int)
    requires vm.Valid() && pd in vm.dirs && va < 0xC000_0000
    modifies vm`mem, vm.pmm`freePages, vm.pmm.bitmap
    ensures vm.Valid() && Reach(old(vm.M()), vm.M())
    ensures r == 0 || r == -ENOMEM
    ensures r == 0 <==> old(vm.M()).free != {}
    ensures r != 0 ==> vm.M() == old(vm.M())
    ensures |old(vm.M()).free| >= old(PageNeed(vm.M(), pd, va / 4096)) ==>
              PageAdded(old(vm.M()), vm.M(), pd, va / 4096, PteFlags(flags))
    ensures |old(vm.M()).free| < old(PageNeed(vm.M(), pd, va / 4096)) ==>
              vm.M().free == {} && SameViews(old(vm.M()), vm.M())
  {
    ghost var m := vm.M();
    ReachRefl(m);
    MissingTable(m, pd, va);
    var phys := vm.AllocZero();
    if phys == 0 { SameContents(m, m); return -ENOMEM; }
    ghost var f := phys / 4096;
    ghost var a := vm.M();
    Taken(m, f, a, vm.kernelDir);
    var mapped, mid := vm.MapPage(pd, va, phys, flags);
    ghost var n := vm.M();
    if mapped == 0 {
      ZeroedRun(m, pd, va, f, PteFlags(flags), a, mid, n, vm.kernelDir);
    } else {
      LostPage(m, f, n, vm.kernelDir);
    }
    r := 0;
  }

  lemma MissingTable(m: Machine, pd: nat, va: nat)
    requires Inv(m) && va < 0xC000_0000
    ensures va / 4096 / 1024 == va / 0x40_0000 && va / 4096 < USER_PAGES
    ensures va / 0x40_0000 in Tables(m, pd) <==> Holds(m, Table(pd, va / 0x40_0000))
  {
    WalkIndex(va);
  }

  lemma SameContents(m: Machine, n: Machine)
    requires Inv(m) && Step(m, Lose, n)
    ensures Inv(n) && SameViews(m, n)
  {
    LoseKeeps(m, n);
    forall q: nat, w: nat | w in View(m, q)
      ensures KeptPage(m, n, q, w)
    {
      var l := Leaf(q, w / 1024, w % 1024);
      assert Holds(m, l) && FrameFor(m, l) == FrameOf(View(m, q)[w]);
    }
  }

  lemma Taken(m: Machine, f: nat, a: Machine, k: nat)
    requires Inv(m) && f in m.free && a == m.(free := m.free - {f}, mem := m.mem[f := ZeroPage()]) && Fresh(m, k)
    ensures Inv(a) && Fresh(a, f) && Fresh(a, k) && f < PAGES && SameRoles(m, a) && f * 4096 / 4096 == f
    ensures forall q :: Tables(a, q) == Tables(m, q)
  {
    TakeFrame(m, f);
    var b := m.(free := m.free - {f});
    StoreData(b, f, ZeroPage());
    assert a == b.(mem := b.mem[f := ZeroPage()]);
    forall q ensures Tables(a, q) == Tables(m, q) { SameView(m, a, q); }
  }

  lemma LostPage(m: Machine, f: nat, n: Machine, k: nat)
    requires Inv(m) && f in m.free && n == m.(free := m.free - {f}, mem := m.mem[f := ZeroPage()]) && Fresh(m, k)
    ensures Reach(m, n) && Inv(n) && Fresh(n, k) && SameViews(m, n)
  {
    assert Step(m, Lose, n);
    ReachRefl(m);
    ReachStep(m, m, Lose, n);
    SameContents(m, n);
    FreshKept(m, Lose, n, k);
  }

  /** A page mapped by MapZeroed is one or two steps of the machine. */
  lemma ZeroedRun(m: Machine, pd: nat, va: nat, f: nat, flags: nat, a: Machine, mid: Machine, n: Machine, k: nat)
    requires Inv(m) && Fresh(m, k) && va < 0xC000_0000 && flags < 4096 && flags % 2 == 1 && pd in m.dirs
    requires f in m.free && f < PAGES && a == m.(free := m.free - {f}, mem := m.mem[f := ZeroPage()])
    requires Linked(a, pd, va / 0x40_0000, mid) && Holds(mid, Table(pd, va / 0x40_0000))
    requires FrameFor(mid, Table(pd, va / 0x40_0000)) in mid.mem
    requires n == Store(mid, FrameFor(mid, Table(pd, va / 0x40_0000)), va / 4096 % 1024, Entry(f, flags))
    ensures Reach(m, n) && Inv(n) && Fresh(n, k) && PageAdded(m, n, pd, va / 4096, flags)
  {
    var v, di, pi := va / 4096, va / 0x40_0000, va / 4096 % 1024;
    WalkIndex(va);
    Taken(m, f, a, k);
    ReachRefl(m);
    var put := MapFresh(pd, di, pi, f, ZeroPage(), flags);
    if mid == a {
      assert Step(m, put, n);
      ReachStep(m, m, put, n);
      AddMapped(m, pd, v, f, flags, n);
      FreshKept(m, put, n, k);
    } else {
      var t :| Step(a, NewTable(pd, di, t), mid);
      assert !Present(Word(m, pd, di)) by { assert !Present(Word(a, pd, di)); assert Holds(m, Dir(pd)) && pd != f; }
      Commute(m, pd, di, f, t);
      var b := Store(m.(free := m.free - {t}, mem := m.mem[t := ZeroPage()]), pd, di, Entry(t, NEW_TABLE_FLAGS));
      var link := NewTable(pd, di, t);
      assert Step(m, link, b);
      NewTableKeeps(m, pd, di, t, b);
      assert mid == b.(free := b.free - {f}, mem := b.mem[f := ZeroPage()]);
      TakenTable(b, pd, di, f, mid);
      assert Step(b, put, n);
      ReachStep(m, m, link, b);
      ReachStep(m, b, put, n);
      AddBoth(m, pd, v, t, b, f, flags, n);
      FreshKept(m, link, b, k);
      FreshKept(b, put, n, k);
    }
  }

  lemma TakenTable(b: Machine, pd: nat, di: nat, f: nat, mid: Machine)
    requires Inv(b) && f in b.free && mid == b.(free := b.free - {f}, mem := b.mem[f := ZeroPage()])
    requires Holds(b, Table(pd, di))
    ensures FrameFor(mid, Table(pd, di)) == FrameFor(b, Table(pd, di)) && FrameFor(b, Table(pd, di)) in b.mem
  {
    assert Holds(b, Dir(pd)) && FrameFor(b, Dir(pd)) == pd;
  }

  // ---------------------------------------------------------------------------------------------
  // The page loop of mm_mmap
  // ---------------------------------------------------------------------------------------------

  /** Where the loop stands after the pages below v: short is how many frames the whole range lacks. */
  ghost predicate LoopState(m0: Machine, m: Machine, pd: nat, v0: nat, v: nat, stop: nat, flags: nat) {
    && Inv(m) && Reach(m0, m) && v0 <= v <= stop
    && RangeMapped(m0, m, pd, v0, v, flags)
    && |m.free| - Need(m, pd, v, stop) == |m0.free| - Need(m0, pd, v0, stop)
  }

  lemma LoopStart(m: Machine, pd: nat, v: nat, stop: nat, flags: nat)
    requires Inv(m) && v <= stop
    ensures LoopState(m, m, pd, v, v, stop, flags)
  {
    RangeStart(m, pd, v, flags);
    ReachRefl(m);
  }

  lemma LoopStep(m0: Machine, m: Machine, pd: nat, v0: nat, v: nat, stop: nat, flags: nat, n: Machine)
    requires LoopState(m0, m, pd, v0, v, stop, flags) && v < stop <= 786432 && flags < 4096
    requires Inv(n) && Reach(m, n) && PageAdded(m, n, pd, v, flags)
    ensures LoopState(m0, n, pd, v0, v + 1, stop, flags)
  {
    ExtendRange(m0, m, pd, v0, v, flags, n);
    NeedStep(m, pd, v, stop, flags, n);
    ReachTrans(m0, m, n);
    PageTook(m, n, pd, v);
  }

  lemma PageTook(m: Machine, n: Machine, pd: nat, v: nat)
    requires TableAdded(m, n, pd, v)
    ensures |m.free| - |n.free| == PageNeed(m, pd, v)
  {
    if v / 1024 in Tables(m, pd) { assert Tables(m, pd) + {v / 1024} == Tables(m, pd); }
    else { assert |Tables(m, pd) + {v / 1024}| == |Tables(m, pd)| + 1; }
  }

  /** When a page cannot be mapped the range as a whole did not fit, and whether that goes unnoticed
      is decided by the last page alone. */
  lemma LoopStuck(m0: Machine, m: Machine, pd: nat, v0: nat, v: nat, stop: nat, flags: nat)
    requires LoopState(m0, m, pd, v0, v, stop, flags) && v < stop <= 786432
    requires |m.free| < PageNeed(m, pd, v)
    ensures |m0.free| < Need(m0, pd, v0, stop)
    ensures m.free == {} || v + 1 < stop ==> !Unnoticed(m0, pd, v0, stop)
    ensures m.free != {} && v + 1 == stop ==> Unnoticed(m0, pd, v0, stop)
  {
    NeedAtLeast(m, pd, v, stop);
    LastStillOpens(m0, m, pd, v0, v, stop, flags);
    if m.free == {} { assert |m.free| == 0; } else { assert |m.free| >= 1; }
  }

  /** mm_mmap reports success although its last page is unmapped: exactly one frame is missing and the
      last page is the first to need its table. */
  ghost predicate Unnoticed(m: Machine, pd: nat, v0: nat, stop: nat)
    requires v0 <= stop
  {
    |m.free| + 1 == Need(m, pd, v0, stop) && LastOpensTable(m, pd, v0, stop)
  }

  /**
   * A range that ran short: the pages below v were mapped as a complete call maps them, leaving k; page v could not be,
   * and what was left then, at most one frame, is lost.
   */
  ghost predicate RanShort(m0: Machine, k: Machine, m: Machine, pd: nat, v0: nat, v: nat, stop: nat, flags: nat) {
    && v0 <= v < stop && RangeMapped(m0, k, pd, v0, v, flags) && |k.free| < PageNeed(k, pd, v)
    && SameViews(k, m) && m.free == {}
  }

  ghost predicate RangeShort(m0: Machine, m: Machine, pd: nat, v0: nat, stop: nat, flags: nat) {
    exists k, v :: RanShort(m0, k, m, pd, v0, v, stop, flags)
  }

  lemma StuckAt(m0: Machine, k: Machine, m: Machine, pd: nat, v0: nat, v: nat, stop: nat, flags: nat)
    requires LoopState(m0, k, pd, v0, v, stop, flags) && v < stop && |k.free| < PageNeed(k, pd, v)
    requires SameViews(k, m) && m.free == {}
    ensures RangeShort(m0, m, pd, v0, stop, flags)
  {
    assert RanShort(m0, k, m, pd, v0, v, stop, flags);
  }

  /** An empty directory in frame 1 and one free frame. */
  ghost function OneFrame(): Machine {
    Machine({2}, map f: nat | f < PAGES && Within(0, f, PAGES) :: ZeroPage(), {1})
  }

  /** Mapping one page there takes the frame, finds none for the table, and reports success. */
  lemma UnnoticedHappens()
    ensures Inv(OneFrame()) && 1 in OneFrame().dirs && Unnoticed(OneFrame(), 1, 0, 1)
  {
    var m := OneFrame();
    forall r ensures Holds(m, r) <==> r == Dir(1) {}
    assert FrameFor(m, Dir(1)) == 1;
    assert Tables(m, 1) == {};
    assert Missing(m, 1, 0, 1) == {0} by { assert Touches(0, 0, 1); }
    assert |m.free| == 1 by { assert m.free == {2}; }
  }

  /** What MapZeroed does to page v, as a relation between machines. */
  ghost predicate ZeroedPage(m: Machine, n: Machine, pd: nat, v: nat, flags: nat, r: int)
    requires flags < 4096
  {
    && Inv(n) && Reach(m, n) && (r == 0 <==> m.free != {}) && (r != 0 ==> n == m)
    && (if |m.free| >= PageNeed(m, pd, v) then PageAdded(m, n, pd, v, flags) else n.free == {} && SameViews(m, n))
  }

  /** The loop invariant; lost records that a page was silently dropped, which empties the allocator. */
  ghost predicate LoopInv(m0: Machine, m: Machine, pd: nat, v0: nat, v: nat, stop: nat, flags: nat, lost: bool) {
    && v0 <= v <= stop && Reach(m0, m)
    && (if lost then m.free == {} && RangeShort(m0, m, pd, v0, stop, flags) && |m0.free| < Need(m0, pd, v0, stop) && (Unnoticed(m0, pd, v0, stop) <==> v == stop)
        else LoopState(m0, m, pd, v0, v, stop, flags))
  }

  lemma LoopBody(m0: Machine, m: Machine, pd: nat, v0: nat, v: nat, stop: nat, flags: nat, lost: bool, n: Machine, r: int)
    requires LoopInv(m0, m, pd, v0, v, stop, flags, lost) && v < stop <= 786432 && flags < 4096
    requires ZeroedPage(m, n, pd, v, flags, r)
    ensures Reach(m0, n)
    ensures r != 0 ==> |m0.free| < Need(m0, pd, v0, stop) && !Unnoticed(m0, pd, v0, stop) && RangeShort(m0, n, pd, v0, stop, flags)
    ensures r == 0 ==> !lost && LoopInv(m0, n, pd, v0, v + 1, stop, flags, |m.free| < PageNeed(m, pd, v))
  {
    hide LoopState, Reach, RangeMapped, Need, Unnoticed, PageAdded, SameViews, Inv, RangeShort;
    ReachTrans(m0, m, n);
    if !lost {
      if |m.free| < PageNeed(m, pd, v) {
        LoopStuck(m0, m, pd, v0, v, stop, flags);
        StuckAt(m0, m, n, pd, v0, v, stop, flags);
      } else {
        LoopStep(m0, m, pd, v0, v, stop, flags, n);
      }
      assert r != 0 ==> |m.free| == 0;
    }
  }

  /** The loop of mm_mmap over [addr, addr + len). The whole range gets mapped iff enough frames are
      free for its pages and missing tables; otherwise -ENOMEM, except in the unnoticed case. */
  method MapRange(vm: Paging, pd: nat, addr: nat, len: nat, flags: nat) returns (r: int, ghost complete: bool)
    requires vm.Valid() && pd in vm.dirs
    requires addr % 4096 == 0 && len % 4096 == 0 && addr + len <= 0xC000_0000
    modifies vm`mem, vm.pmm`freePages, vm.pmm.bitmap
    ensures vm.Valid() && Reach(old(vm.M()), vm.M())
    ensures complete <==> old(Need(vm.M(), pd, addr / 4096, (addr + len) / 4096)) <= |old(vm.M()).free|
    ensures complete ==> r == 0 && RangeMapped(old(vm.M()), vm.M(), pd, addr / 4096, (addr + len) / 4096, PteFlags(flags))
    ensures !complete ==> r == if old(Unnoticed(vm.M(), pd, addr / 4096, (addr + len) / 4096)) then 0 else -ENOMEM
    ensures !complete ==> RangeShort(old(vm.M()), vm.M(), pd, addr / 4096, (addr + len) / 4096, PteFlags(flags))
  {
    hide *;
    ghost var m0, v0, stop, bits := vm.M(), addr / 4096, (addr + len) / 4096, PteFlags(flags);
    var p := addr;
    ghost var v, lost := v0, false;
    LoopInit(vm, pd, v0, stop, bits);
    while p < addr + len
      invariant p == 4096 * v && v0 <= v <= stop && vm.Valid()
      invariant LoopInv(m0, vm.M(), pd, v0, v, stop, bits, lost)
      decreases stop - v
    {
      ghost var m := vm.M();
      var got := MapZeroed(vm, pd, p, flags);
      assert p / 4096 == v;
      Zeroed(vm, m, pd, v, bits, got);
      LoopBody(m0, m, pd, v0, v, stop, bits, lost, vm.M(), got);
      if got != 0 { return -ENOMEM, false; }
      lost := |m.free| < PageNeed(m, pd, v);
      p := p + 4096;
      v := v + 1;
    }
    LoopEnd(m0, vm.M(), pd, v0, stop, bits, lost);
    return 0, !lost;
  }

  lemma Zeroed(vm: Paging, m: Machine, pd: nat, v: nat, flags: nat, r: int)
    requires vm.Valid() && flags < 4096 && Reach(m, vm.M()) && (r == 0 <==> m.free != {}) && (r != 0 ==> vm.M() == m)
    requires |m.free| >= PageNeed(m, pd, v) ==> PageAdded(m, vm.M(), pd, v, flags)
    requires |m.free| < PageNeed(m, pd, v) ==> vm.M().free == {} && SameViews(m, vm.M())
    ensures ZeroedPage(m, vm.M(), pd, v, flags, r)
  {
  }

  lemma LoopInit(vm: Paging, pd: nat, v0: nat, stop: nat, flags: nat)
    requires vm.Valid() && v0 <= stop
    ensures LoopInv(vm.M(), vm.M(), pd, v0, v0, stop, flags, false)
  {
    LoopStart(vm.M(), pd, v0, stop, flags);
    ReachRefl(vm.M());
  }

  lemma LoopEnd(m0: Machine, m: Machine, pd: nat, v0: nat, stop: nat, flags: nat, lost: bool)
    requires LoopInv(m0, m, pd, v0, stop, stop, flags, lost)
    ensures Reach(m0, m)
    ensures !lost ==> RangeMapped(m0, m, pd, v0, stop, flags) && Need(m0, pd, v0, stop) <= |m0.free|
    ensures lost ==> Need(m0, pd, v0, stop) > |m0.free| && Unnoticed(m0, pd, v0, stop) && RangeShort(m0, m, pd, v0, stop, flags)
  {
    if !lost { LoopDone(m0, m, pd, v0, stop, flags); }
  }

  lemma LoopDone(m0: Machine, m: Machine, pd: nat, v0: nat, stop: nat, flags: nat)
    requires LoopState(m0, m, pd, v0, stop, stop, flags)
    ensures RangeMapped(m0, m, pd, v0, stop, flags) && Need(m0, pd, v0, stop) <= |m0.free|
  {
    assert Missing(m, pd, stop, stop) == {};
  }

  // ---------------------------------------------------------------------------------------------
  // The page loop of mm_munmap
  // ---------------------------------------------------------------------------------------------

  /** One iteration: look the page up, free its frame, clear its entry. */
  method UnmapZeroOrOne(vm: Paging, pd: nat, va: nat)
    requires vm.Valid() && pd in vm.dirs && va < 0xC000_0000
    modifies vm`mem, vm.pmm`freePages, vm.pmm.bitmap
    ensures vm.Valid() && Reach(old(vm.M()), vm.M())
    ensures PageDropped(old(vm.M()), vm.M(), pd, va / 4096)
  {
    hide *;
    ghost var m := vm.M();
    MappedFrame(vm, pd, va);
    FreeMapped(vm, pd, va);
    ghost var a := vm.M();
    vm.UnmapPage(pd, va);
    DroppedRun(vm, m, pd, va, a);
  }

  /** The lookup and the pmm_free of one mm_munmap iteration. */
  method FreeMapped(vm: Paging, pd: nat, va: nat)
    requires vm.Valid() && pd in vm.dirs && va < 0xC000_0000
    modifies vm.pmm`freePages, vm.pmm.bitmap
    ensures vm.pmm.Valid()
    ensures vm.M() == old(vm.M()).(free := old(vm.M()).free +
                        if va / 4096 in old(View(vm.M(), pd)) then {FrameOf(old(View(vm.M(), pd))[va / 4096])} else {})
  {
    hide *;
    ghost var m := vm.M();
    MappedFrame(vm, pd, va);
    var phys := vm.VirtToPhys(pd, va);
    if phys != 0 {
      PageBase(FrameOf(View(m, pd)[va / 4096]), va);
      ReleasePhys(vm, phys / 4096 * 4096);
    }
  }

  /** pmm_free of a page inside memory, seen from the machine. */
  method ReleasePhys(vm: Paging, phys: nat)
    requires vm.pmm.Valid() && 4096 <= phys < 0x4000_0000
    modifies vm.pmm`freePages, vm.pmm.bitmap
    ensures vm.pmm.Valid() && vm.M() == old(vm.M()).(free := old(vm.M()).free + {phys / 4096})
  {
    hide *;
    MachineParts(vm);
    vm.pmm.Release(phys);
    MachineParts(vm);
  }

  lemma PageBase(f: nat, va: nat)
    ensures (f * 4096 + va % 4096) / 4096 * 4096 == f * 4096 && f * 4096 / 4096 == f
  {
  }

  lemma MappedFrame(vm: Paging, pd: nat, va: nat)
    requires vm.Valid() && va < 0xC000_0000
    ensures vm.Walkable() && vm.pmm.Valid() && Inv(vm.M()) && Fresh(vm.M(), vm.kernelDir)
    ensures vm.M() == Machine(vm.pmm.Free(), vm.mem, vm.dirs)
    ensures va / 4096 in View(vm.M(), pd) ==>
              && 0 < FrameOf(View(vm.M(), pd)[va / 4096])
              && 4096 <= FrameOf(View(vm.M(), pd)[va / 4096]) * 4096 < 0x4000_0000
  {
    var m := vm.M();
    var e := Machine({}, m.mem, m.dirs);
    assert forall r :: Holds(m, r) == Holds(e, r) && EntryFor(m, r) == EntryFor(e, r);
    assert forall r :: FrameFor(m, r) == FrameFor(e, r);
    ViewAtVa(m, pd, va);
  }

  /** Freeing the frame and clearing the entry is one step of the machine. */
  lemma DroppedRun(vm: Paging, m: Machine, pd: nat, va: nat, a: Machine)
    requires Inv(m) && Fresh(m, vm.kernelDir) && va < 0xC000_0000 && vm.pmm.Valid()
    requires a == m.(free := m.free + if va / 4096 in View(m, pd) then {FrameOf(View(m, pd)[va / 4096])} else {})
    requires vm.M() == var l := Leaf(pd, va / 0x40_0000, va / 4096 % 1024);
                       if Holds(a, l) && FrameFor(a, Table(pd, l.di)) in a.mem
                       then Store(a, FrameFor(a, Table(pd, l.di)), l.pi, 0) else a
    ensures vm.Valid() && Reach(m, vm.M()) && PageDropped(m, vm.M(), pd, va / 4096)
  {
    var v, l, n := va / 4096, Leaf(pd, va / 0x40_0000, va / 4096 % 1024), vm.M();
    WalkIndex(va);
    ViewAtVa(m, pd, va);
    ReachRefl(m);
    if Holds(m, l) {
      var op := Unmap(pd, l.di, l.pi);
      assert Step(m, op, n);
      ReachStep(m, m, op, n);
      DropMapped(m, pd, v, n);
      FreshKept(m, op, n, vm.kernelDir);
    } else {
      assert n == m;
      DropUnmapped(m, pd, v);
    }
  }

  /** The loop of mm_munmap over [addr, addr + len): mapped or not, every page of the range ends up
      unmapped and exactly the frames it had are free again. */
  method UnmapRange(vm: Paging, pd: nat, addr: nat, len: nat)
    requires vm.Valid() && pd in vm.dirs
    requires addr % 4096 == 0 && len % 4096 == 0 && addr + len <= 0xC000_0000
    modifies vm`mem, vm.pmm`freePages, vm.pmm.bitmap
    ensures vm.Valid() && Reach(old(vm.M()), vm.M())
    ensures RangeUnmapped(old(vm.M()), vm.M(), pd, addr / 4096, (addr + len) / 4096)
  {
    hide *;
    ghost var m0, v0, stop := vm.M(), addr / 4096, (addr + len) / 4096;
    var p := addr;
    ghost var v := v0;
    UnmapInit(vm, pd, v0);
    while p < addr + len
      invariant p == 4096 * v && v0 <= v <= stop && vm.Valid() && Reach(m0, vm.M())
      invariant RangeUnmapped(m0, vm.M(), pd, v0, v)
      decreases stop - v
    {
      ghost var m := vm.M();
      UnmapZeroOrOne(vm, pd, p);
      assert p / 4096 == v;
      ReachTrans(m0, m, vm.M());
      ExtendUnmapped(m0, m, pd, v0, v, vm.M());
      p := p + 4096;
      v := v + 1;
    }
  }

  lemma UnmapInit(vm: Paging, pd: nat, v: nat)
    requires vm.Valid()
    ensures RangeUnmapped(vm.M(), vm.M(), pd, v, v) && Reach(vm.M(), vm.M())
  {
    UnmapStart(vm.M(), pd, v);
    ReachRefl(vm.M());
  }
}
