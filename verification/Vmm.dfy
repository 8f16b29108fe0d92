/** The paging code itself: page directories and tables written in place, on top of the allocator.
    Each method is proved against the steps of AddressSpaces. */
module Vmm {
  import opened Base
  import opened Pmm
  import opened PageTables
  import opened AddressSpaces
  import opened Access
  import opened Cloning
  import opened CloneCount

  const VM_WRITE: nat := 2
  const VM_USER: nat := 8
  const VM_NOCACHE: nat := 16

  /** flags & bit, for a one-bit mask. */
  predicate HasFlag(flags: nat, bit: nat)
    requires bit > 0
  {
    flags / bit % 2 == 1
  }

  /** The PTE bits map_page derives from VM_* flags: PRESENT, WRITE, USER and PCD. */
  function PteFlags(flags: nat): (r: nat)
    ensures r < 4096 && r % 2 == 1
    ensures (r / 2 % 2 == 1 <==> HasFlag(flags, VM_WRITE)) && (r / 4 % 2 == 1 <==> HasFlag(flags, VM_USER))
    ensures r / 16 % 2 == 1 <==> HasFlag(flags, VM_NOCACHE)
  {
    1 + (if HasFlag(flags, VM_WRITE) then 2 else 0)
      + (if HasFlag(flags, VM_USER) then 4 else 0)
      + (if HasFlag(flags, VM_NOCACHE) then 16 else 0)
  }

  /** m reaches n by some run of steps. */
  ghost predicate Reach(m: Machine, n: Machine) {
    exists run :: IsRun(run) && run[0] == m && run[|run| - 1] == n
  }

  lemma ReachRefl(m: Machine)
    ensures Reach(m, m)
  {
    assert IsRun([m]);
  }

  lemma ReachStep(m: Machine, n: Machine, op: Op, k: Machine)
    requires Reach(m, n) && Step(n, op, k)
    ensures Reach(m, k)
  {
    var run :| IsRun(run) && run[0] == m && run[|run| - 1] == n;
    var longer := run + [k];
    assert Next(n, k);
    forall i | 0 <= i < |longer| - 1 ensures Next(longer[i], longer[i + 1]) {
      if i < |run| - 1 { assert Next(run[i], run[i + 1]); }
    }
    assert IsRun(longer);
  }

  lemma ReachTrans(m: Machine, n: Machine, k: Machine)
    requires Reach(m, n) && Reach(n, k)
    ensures Reach(m, k)
  {
    var a :| IsRun(a) && a[0] == m && a[|a| - 1] == n;
    var b :| IsRun(b) && b[0] == n && b[|b| - 1] == k;
    var c := a + b[1..];
    forall i | 0 <= i < |c| - 1 ensures Next(c[i], c[i + 1]) {
      if i < |a| - 1 { assert Next(a[i], a[i + 1]); }
      else { assert c[i] == b[i - |a| + 1] && c[i + 1] == b[i - |a| + 2]; assert Next(b[i - |a| + 1], b[i - |a| + 1 + 1]); }
    }
    assert IsRun(c);
  }

  /** Whatever a method of this class reaches is safe. */
  lemma ReachKeepsInv(m: Machine, n: Machine)
    requires Inv(m) && Reach(m, n)
    ensures Inv(n)
  {
    var run :| IsRun(run) && run[0] == m && run[|run| - 1] == n;
    OwnershipInEveryRun(run, |run| - 1);
  }

  lemma ReachKeepsOpen(m: Machine, n: Machine)
    requires Inv(m) && PdesOpen(m) && Reach(m, n)
    ensures PdesOpen(n)
  {
    var run :| IsRun(run) && run[0] == m && run[|run| - 1] == n;
    OpenInEveryRun(run, |run| - 1);
  }

  /** VM_USER opens a page to user mode and VM_WRITE to writes, and nothing else does. */
  lemma FlagsGrant(m: Machine, pd: nat, v: nat, flags: nat)
    requires PdesOpen(m) && v in View(m, pd) && FlagsOf(View(m, pd)[v]) == PteFlags(flags)
    ensures UserPage(m, pd, v) <==> flags / 8 % 2 == 1
    ensures WritablePage(m, pd, v) <==> flags / 2 % 2 == 1
  {
    PteDecides(m, pd, v);
  }

  /** Frames outside the allocator's and the directories' reach stay there. */
  lemma FreshKept(m: Machine, op: Op, n: Machine, f: nat)
    requires Inv(m) && Step(m, op, n) && Fresh(m, f)
    ensures Fresh(n, f)
  {
    NoLeakIff(m, op, n);
    assert f !in Accounted(m);
    forall r | Holds(n, r) ensures FrameFor(n, r) != f { assert Used(n, FrameFor(n, r)); StepKeepsInv(m, op, n); }
    assert f !in n.free by { assert f in n.free ==> f in Accounted(n); }
  }

  /** The upper quarter of a directory, which belongs to the kernel. */
  function KernelHalf(mem: map<nat, Page>, pd: nat): seq<u32> {
    if pd in mem then mem[pd][768..] else []
  }

  class Paging {
    const pmm: Allocator
    const kernelDir: nat
    var mem: map<nat, Page>
    ghost var dirs: set<nat>

    /** After paging_init: the kernel directory is taken, no user directory exists. */
    constructor (pmm: Allocator, kernelDir: nat, mem: map<nat, Page>)
      requires pmm.Valid() && 0 < kernelDir < PAGES && kernelDir !in pmm.Free()
      requires forall f: nat | f < PAGES :: f in mem
      ensures Valid() && dirs == {} && this.pmm == pmm && this.kernelDir == kernelDir && this.mem == mem
    {
      this.pmm, this.kernelDir, this.mem := pmm, kernelDir, mem;
      dirs := {};
    }

    ghost function M(): Machine
      reads this`mem, this`dirs, pmm`bitmap, pmm.bitmap
    {
      Machine(pmm.Free(), mem, dirs)
    }

    /** The allocator is sound, ownership holds, and the kernel directory belongs to nobody. */
    ghost predicate Valid()
      reads this, pmm, pmm.bitmap
    {
      pmm.Valid() && Inv(M()) && Fresh(M(), kernelDir)
    }

    /** The tables are sound whatever the allocator says; enough to walk them. */
    ghost predicate Walkable()
      reads this`mem, this`dirs
    {
      Inv(Machine({}, mem, dirs))
    }

    /** pmm_alloc_zero. */
    method AllocZero() returns (phys: nat)
      requires pmm.Valid()
      modifies this`mem, pmm`freePages, pmm.bitmap
      ensures pmm.Valid()
      ensures phys == 0 <==> old(M()).free == {}
      ensures phys == 0 ==> M() == old(M())
      ensures phys != 0 ==> phys % 4096 == 0 && phys / 4096 in old(M()).free
      ensures phys != 0 ==> M() == old(M()).(free := old(M()).free - {phys / 4096}, mem := old(M()).mem[phys / 4096 := ZeroPage()])
    {
      phys := pmm.Alloc();
      if phys != 0 {
        mem := mem[phys / 4096 := ZeroPage()];
      }
    }

    /** get_pte: the table frame and index of the entry for va. With create, a missing table is
        allocated, zeroed and linked; the call then fails only when no page is free. */
    method GetPte(pd: nat, va: nat, create: bool) returns (found: bool, table: nat, index: nat)
      requires Valid() && pd in dirs && va < 0xC000_0000
      modifies this`mem, pmm`freePages, pmm.bitmap
      ensures Valid()
      ensures found == (Holds(old(M()), Table(pd, va / 0x40_0000)) || (create && old(M()).free != {}))
      ensures found ==> Holds(M(), Table(pd, va / 0x40_0000)) && table == FrameFor(M(), Table(pd, va / 0x40_0000))
      ensures found ==> index == va / 4096 % 1024
      ensures !found || Holds(old(M()), Table(pd, va / 0x40_0000)) ==> M() == old(M())
      ensures found && !Holds(old(M()), Table(pd, va / 0x40_0000)) ==>
                Step(old(M()), NewTable(pd, va / 0x40_0000, table), M())
      ensures found && !Holds(old(M()), Table(pd, va / 0x40_0000)) ==> Word(M(), pd, va / 0x40_0000) == 4096 * table + 7
    {
      var di := va / 0x40_0000;
      ghost var m := M();
      assert Holds(m, Dir(pd));
      index := va / 4096 % 1024;
      var pde := mem[pd][di];
      assert pde == Word(m, pd, di);
      if !Present(pde) {
        if !create { return false, 0, 0; }
        var phys := AllocZero();
        if phys == 0 { return false, 0, 0; }
        table := phys / 4096;
        mem := mem[pd := mem[pd][di := Entry(table, NEW_TABLE_FLAGS)]];
        assert Step(m, NewTable(pd, di, table), M());
        NewTableKeeps(m, pd, di, table, M());
        ThisTable(m, pd, di, table, M());
        FreshKept(m, NewTable(pd, di, table), M(), kernelDir);
      } else {
        table := FrameOf(pde);
      }
      found := true;
    }

    /** get_pte without create: a read-only walk. */
    method Walk(pd: nat, va: nat) returns (found: bool, table: nat, index: nat)
      requires Walkable() && pd in dirs && va < 0xC000_0000
      ensures found == Holds(M(), Table(pd, va / 0x40_0000))
      ensures found ==> table == FrameFor(M(), Table(pd, va / 0x40_0000)) && table < PAGES && table in mem
      ensures found ==> index == va / 4096 % 1024
    {
      ghost var m := Machine({}, mem, dirs);
      var di := va / 0x40_0000;
      assert Holds(m, Dir(pd));
      var pde := mem[pd][di];
      assert pde == Word(M(), pd, di);
      found, table, index := Present(pde), FrameOf(pde), va / 4096 % 1024;
      assert found ==> Holds(m, Table(pd, di)) && table == FrameFor(m, Table(pd, di));
    }

    /** virt_to_phys_pd: the walk computes the view; 0 stands for unmapped. */
    method VirtToPhys(pd: nat, va: nat) returns (pa: nat)
      requires Walkable() && pd in dirs && va < 0xC000_0000
      ensures pa == 0 <==> va / 4096 !in View(M(), pd)
      ensures va / 4096 in View(M(), pd) ==> pa == FrameOf(View(M(), pd)[va / 4096]) * 4096 + va % 4096
    {
      var found, table, index := Walk(pd, va);
      ghost var m := Machine({}, mem, dirs);
      ViewAtVa(m, pd, va);
      FreeIsUnseen(m, M(), pd, va);
      hide View, Inv, Holds, EntryFor;
      if !found { return 0; }
      if !Present(mem[table][index]) { return 0; }
      pa := FrameOf(mem[table][index]) * 4096 + va % 4096;
    }

    /** unmap_page: clears one entry if it was present; one key leaves one view. */
    method UnmapPage(pd: nat, va: nat)
      requires Walkable() && pd in dirs && va < 0xC000_0000
      modifies this`mem
      ensures Walkable()
      ensures M() == var l := Leaf(pd, va / 0x40_0000, va / 4096 % 1024);
                     if Holds(old(M()), l) && FrameFor(old(M()), Table(pd, l.di)) in old(mem)
                     then Store(old(M()), FrameFor(old(M()), Table(pd, l.di)), l.pi, 0) else old(M())
      ensures View(M(), pd) == old(View(M(), pd)) - {va / 4096}
      ensures forall q | q != pd :: View(M(), q) == old(View(M(), q))
    {
      var found, table, index := Walk(pd, va);
      ghost var m0 := M();
      ghost var m := Machine({}, mem, dirs);
      ViewAtVa(m, pd, va);
      FreeIsUnseen(m, m0, pd, va);
      if found && Present(mem[table][index]) {
        StoreAtVa(m, pd, va, 0);
        mem := mem[table := mem[table][index := 0]];
        assert Machine({}, mem, dirs) == Store(m, table, index, 0);
        FreeIsUnseen(Machine({}, mem, dirs), M(), pd, va);
      }
      hide View, Inv, Holds, EntryFor;
    }

    /** map_page: on success one key of the view of pd is set, nothing else; it fails exactly when a
        table is missing and no page is free, and then changes nothing. Ownership is kept when the
        frame being mapped is nobody's. */
    method MapPage(pd: nat, va: nat, pa: nat, flags: nat) returns (r: int, ghost mid: Machine)
      requires Valid() && pd in dirs && va < 0xC000_0000 && pa < WORD_LIMIT
      modifies this`mem, pmm`freePages, pmm.bitmap
      ensures pmm.Valid()
      ensures r == 0 || r == -ENOMEM
      ensures r == 0 <==> Holds(old(M()), Table(pd, va / 0x40_0000)) || old(M()).free != {}
      ensures r != 0 ==> M() == old(M())
      ensures r == 0 ==> View(M(), pd) == old(View(M(), pd))[va / 4096 := Entry(pa / 4096, PteFlags(flags))]
      ensures forall q | q != pd :: View(M(), q) == old(View(M(), q))
      ensures Fresh(old(M()), pa / 4096) ==> Inv(M())
      ensures Linked(old(M()), pd, va / 0x40_0000, mid)
      ensures r == 0 ==> && Holds(mid, Table(pd, va / 0x40_0000)) && FrameFor(mid, Table(pd, va / 0x40_0000)) in mid.mem
                         && M() == Store(mid, FrameFor(mid, Table(pd, va / 0x40_0000)), va / 4096 % 1024,
                                         Entry(pa / 4096, PteFlags(flags)))
      ensures PdesOpen(old(M())) ==> PdesOpen(M())
      ensures PdesOpen(old(M())) && r == 0 ==>
                && (UserPage(M(), pd, va / 4096) <==> flags / 8 % 2 == 1)
                && (WritablePage(M(), pd, va / 4096) <==> flags / 2 % 2 == 1)
    {
      ghost var m := M();
      var found, table, index := GetPte(pd, va, true);
      mid := M();
      LinkedFacts(m, pd, va / 0x40_0000, mid, pa / 4096);
      hide PdesOpen, UserPage, WritablePage;
      if !found { return -ENOMEM, mid; }
      var e := Entry(pa / 4096, PteFlags(flags));
      StoreAtVa(mid, pd, va, e);
      MapOpen(m, pd, va, mid, pa / 4096, flags);
      mem := mem[table := mem[table][index := e]];
      r := 0;
    }

    /** pgdir_create: a directory with an empty user half and the kernel's upper half. */
    method PgdirCreate() returns (pd: nat)
      requires Valid()
      modifies this`mem, this`dirs, pmm`freePages, pmm.bitmap
      ensures Valid()
      ensures pd == 0 <==> old(M()).free == {}
      ensures pd == 0 ==> M() == old(M())
      ensures pd != 0 ==> pd in M().mem && Step(old(M()), Create(pd, M().mem[pd]), M())
      ensures pd != 0 ==> forall i | 768 <= i < 1024 :: M().mem[pd][i] == old(mem)[kernelDir][i]
      ensures pd != 0 ==> KernelHalf(mem, pd) == old(KernelHalf(mem, kernelDir))
    {
      hide *;
      ghost var m := M();
      ValidIs(this);
      MachineParts(this);
      var phys := AllocZero();
      MachineParts(this);
      ValidIs(this);
      if phys == 0 { return 0; }
      pd := phys / 4096;
      NewDir(m, pd, kernelDir);
      mem := mem[pd := mem[pd][..768] + mem[kernelDir][768..]];
      assert mem == m.mem[pd := mem[pd]];
      dirs := dirs + {pd};
      MachineParts(this);
      ValidIs(this);
    }

    /** pgdir_destroy: every page, every table and the directory go back to the allocator; null and
        the kernel directory are left alone. */
    method PgdirDestroy(pd: nat)
      requires Valid() && (pd == 0 || pd == kernelDir || pd in dirs)
      modifies this`dirs, pmm`freePages, pmm.bitmap
      ensures Valid()
      ensures if pd == 0 || pd == kernelDir then M() == old(M()) else Step(old(M()), Destroy(pd), M())
    {
      if pd == 0 || pd == kernelDir { return; }
      ghost var m := M();
      ReleaseAll(pd, m);
      dirs := dirs - {pd};
      DestroyKeeps(m, pd, M());
      FreshKept(m, Destroy(pd), M(), kernelDir);
    }

    /** The loops of pgdir_destroy. */
    method ReleaseAll(pd: nat, ghost m: Machine)
      requires pmm.Valid() && Inv(m) && mem == m.mem && pd in m.dirs && pmm.Free() == m.free
      modifies pmm`freePages, pmm.bitmap
      ensures pmm.Valid() && pmm.Free() == m.free + Owned(m, pd)
    {
      hide *;
      FreedNone(m, pd);
      var di := 0;
      while di < 768
        invariant 0 <= di <= 768 && pmm.Valid()
        invariant pmm.Free() == m.free + Freed(m, pd, di, 0)
      {
        FreedTable(m, pd, di);
        TableFacts(m, pd, di);
        var pde := mem[pd][di];
        if Present(pde) {
          ReleaseTable(pd, di, m);
        }
        di := di + 1;
      }
      FreedAll(m, pd);
      DirFacts(m, pd);
      pmm.Release(pd * 4096);
    }

    /** pgdir_clone. On success the new directory is a full copy; on failure the partial copy is
        destroyed, and only frames of the one table being filled can be lost. */
    method PgdirClone(src: nat) returns (dst: nat)
      requires Valid() && src in dirs
      modifies this`mem, this`dirs, pmm`freePages, pmm.bitmap
      ensures Valid()
      ensures dst != 0 ==> Step(old(M()), Clone(src, dst), M())
      ensures dst != 0 ==> KernelHalf(mem, dst) == old(KernelHalf(mem, kernelDir))
      ensures dst == 0 ==> FailedClone(old(M()), M(), src)
      ensures dst == 0 <==> Short(old(M()), src)
      ensures dst == 0 ==> (M().free == old(M()).free <==> old(M()).free == {} || exists d :: EndsBefore(old(M()), src, d))
    {
      hide *;
      ghost var m0 := M();
      ValidIs(this);
      MachineParts(this);
      dst := PgdirCreate();
      MachineParts(this);
      ValidIs(this);
      if dst == 0 { NothingTaken(m0, src); RestoredIff(m0, M(), src); return; }
      Begin(m0, src, dst, mem[dst], M());
      var ok, d, t, p := CloneTables(src, dst, m0);
      StillFresh(m0, M(), src, dst, d, Unlinked(M(), t), kernelDir);
      MachineParts(this);
      ProgressParts(m0, M(), src, dst, d, Unlinked(M(), t));
      ValidIs(this);
      if ok {
        NoneUnlinked(M());
        Finish(m0, M(), src, dst);
        CloneCost(m0, src, dst, M());
        NotShort(m0, M(), src);
      } else {
        ghost var m := M();
        NotKernel(this, dst);
        PgdirDestroy(dst);
        Abandon(m0, m, src, dst, d, t, p, M());
        RestoredIff(m0, M(), src);
        dst := 0;
      }
    }

    /** The outer loop of pgdir_clone. */
    method CloneTables(src: nat, dst: nat, ghost m0: Machine) returns (ok: bool, ghost d: nat, ghost t: nat, ghost p: nat)
      requires pmm.Valid() && Progress(m0, M(), src, dst, 0, {})
      modifies this`mem, pmm`freePages, pmm.bitmap
      ensures pmm.Valid() && Progress(m0, M(), src, dst, d, Unlinked(M(), t))
      ensures if ok then d == 768 && t == 0 else Stuck(m0, M(), src, dst, d, t, p)
      ensures KernelHalf(mem, dst) == old(KernelHalf(mem, dst))
    {
      hide *;
      var di := 0;
      while di < 768
        invariant 0 <= di <= 768 && pmm.Valid()
        invariant Progress(m0, M(), src, dst, di, {})
        invariant KernelHalf(mem, dst) == old(KernelHalf(mem, dst))
      {
        ok, t, p := CloneTable(src, dst, di, m0);
        if !ok {
          StuckProgress(m0, M(), src, dst, di, t, p);
          return false, di, t, p;
        }
        di := di + 1;
      }
      NoneUnlinked(M());
      return true, 768, 0, 0;
    }

    /** One PDE: skipped when absent, otherwise a fresh table is filled and then linked. */
    method CloneTable(src: nat, dst: nat, di: nat, ghost m0: Machine) returns (ok: bool, ghost t: nat, ghost p: nat)
      requires pmm.Valid() && di < 768 && Progress(m0, M(), src, dst, di, {})
      modifies this`mem, pmm`freePages, pmm.bitmap
      ensures pmm.Valid()
      ensures if ok then Progress(m0, M(), src, dst, di + 1, {}) else Stuck(m0, M(), src, dst, di, t, p)
      ensures KernelHalf(mem, dst) == old(KernelHalf(mem, dst))
    {
      hide Progress, Filling, InFlight, Inv, Fresh, Holds, EntryFor, FrameFor, Owned, Entry, FrameOf, Allocator.Free;
      t, p := 0, 0;
      SourceTable(m0, M(), src, dst, di, {});
      var pde := mem[src][di];
      if !Present(pde) {
        Skip(m0, M(), src, dst, di);
        return true, 0, 0;
      }
      ghost var m := M();
      var phys := AllocZero();
      if phys == 0 { return false, 0, 0; }
      var table := phys / 4096;
      CopyApart(m0, m, src, dst, di, {}, table);
      TakeTable(m0, m, src, dst, di, table);
      ok, p := FillTable(src, dst, di, FrameOf(pde), table, m0);
      if !ok { return false, table, p; }
      InRange(m0, M(), src, dst, di, table, 1024);
      LinkCopied(m0, M(), src, dst, di, table);
      mem := mem[dst := mem[dst][di := Entry(table, FlagsOf(pde))]];
      return true, 0, 0;
    }

    /** The inner loop of pgdir_clone: every present entry gets a page of its own. */
    method FillTable(src: nat, dst: nat, di: nat, sourceTable: nat, table: nat, ghost m0: Machine) returns (ok: bool, ghost p: nat)
      requires pmm.Valid() && di < 768 && Progress(m0, M(), src, dst, di, InFlight(M(), table))
      requires Holds(m0, Table(src, di)) && sourceTable == FrameFor(m0, Table(src, di))
      requires Filling(m0, M(), src, di, table, 0)
      modifies this`mem, pmm`freePages, pmm.bitmap
      ensures pmm.Valid()
      ensures ok ==> Progress(m0, M(), src, dst, di, InFlight(M(), table)) && Filling(m0, M(), src, di, table, 1024)
      ensures !ok ==> Stuck(m0, M(), src, dst, di, table, p)
      ensures KernelHalf(mem, dst) == old(KernelHalf(mem, dst))
    {
      hide *;
      var pi := 0;
      while pi < 1024
        invariant 0 <= pi <= 1024 && pmm.Valid()
        invariant Progress(m0, M(), src, dst, di, InFlight(M(), table))
        invariant Filling(m0, M(), src, di, table, pi)
        invariant KernelHalf(mem, dst) == old(KernelHalf(mem, dst))
      {
        ok := CopyPage(src, dst, di, sourceTable, table, pi, m0);
        if !ok { return false, pi; }
        pi := pi + 1;
      }
      return true, 0;
    }

    /** One PTE: allocate, copy the page, enter it with the source's flag bits. */
    method CopyPage(src: nat, dst: nat, di: nat, sourceTable: nat, table: nat, pi: nat, ghost m0: Machine) returns (ok: bool)
      requires pmm.Valid() && di < 768 && pi < 1024 && Progress(m0, M(), src, dst, di, InFlight(M(), table))
      requires Holds(m0, Table(src, di)) && sourceTable == FrameFor(m0, Table(src, di))
      requires Filling(m0, M(), src, di, table, pi)
      modifies this`mem, pmm`freePages, pmm.bitmap
      ensures pmm.Valid()
      ensures ok ==> Progress(m0, M(), src, dst, di, InFlight(M(), table)) && Filling(m0, M(), src, di, table, pi + 1)
      ensures !ok ==> Stuck(m0, M(), src, dst, di, table, pi)
      ensures KernelHalf(mem, dst) == old(KernelHalf(mem, dst))
    {
      hide Progress, Filling, InFlight, Inv, Fresh, Holds, EntryFor, FrameFor, Owned, Entry, FrameOf, Allocator.Free, Partial;
      ghost var m := M();
      SourceEntry(m0, m, src, dst, di, pi, InFlight(m, table));
      InRange(m0, m, src, dst, di, table, pi);
      var pte := mem[sourceTable][pi];
      if !Present(pte) {
        SkipEntry(m0, m, src, di, table, pi);
        return true;
      }
      IsPartial(m0, m, src, dst, di, table, pi);
      var phys := pmm.Alloc();
      if phys == 0 { return false; }
      var page := phys / 4096;
      CopyApart(m0, m, src, dst, di, InFlight(m, table), page);
      TableApart(m0, m, src, dst, di, table, pi);
      mem := mem[page := mem[FrameOf(pte)]];
      mem := mem[table := mem[table][pi := Entry(page, FlagsOf(pte))]];
      CopyEntry(m0, m, src, dst, di, table, pi, page);
      CopyProgress(m0, m, src, dst, di, table, pi, page, m0.mem[FrameOf(pte)], Entry(page, FlagsOf(pte)));
      return true;
    }

    /** The body of the pgdir_destroy loop for a present PDE. */
    method ReleaseTable(pd: nat, di: nat, ghost m: Machine)
      requires pmm.Valid() && Inv(m) && mem == m.mem && pd in m.dirs && di < 768 && Holds(m, Table(pd, di))
      requires pmm.Free() == m.free + Freed(m, pd, di, 0)
      modifies pmm`freePages, pmm.bitmap
      ensures pmm.Valid() && pmm.Free() == m.free + Freed(m, pd, di, 1024) + {FrameFor(m, Table(pd, di))}
    {
      hide *;
      TableFacts(m, pd, di);
      var pde := mem[pd][di];
      var table := FrameOf(pde);
      var pi := 0;
      while pi < 1024
        invariant 0 <= pi <= 1024 && pmm.Valid()
        invariant pmm.Free() == m.free + Freed(m, pd, di, pi)
      {
        FreedLeaf(m, pd, di, pi);
        LeafFacts(m, pd, di, pi);
        var pte := mem[table][pi];
        if Present(pte) {
          pmm.Release(FrameOf(pte) * 4096);
        }
        pi := pi + 1;
      }
      pmm.Release(table * 4096);
    }
  }

  /** A zeroed frame with the kernel's entries copied in is a new directory. */
  lemma NewDir(m: Machine, pd: nat, kernelDir: nat)
    requires Inv(m) && pd in m.free && Fresh(m, kernelDir)
    ensures kernelDir in m.mem && kernelDir != pd && pd != 0
    ensures var page := ZeroPage()[..768] + m.mem[kernelDir][768..];
      && |page| == 1024 && page[768..] == m.mem[kernelDir][768..]
      && (forall i | 768 <= i < 1024 :: page[i] == m.mem[kernelDir][i])
      && var n := Machine(m.free - {pd}, m.mem[pd := page], m.dirs + {pd});
      && Step(m, Create(pd, page), n) && Inv(n) && Fresh(n, kernelDir)
      && KernelHalf(n.mem, pd) == KernelHalf(m.mem, kernelDir)
  {
    var page: Page := ZeroPage()[..768] + m.mem[kernelDir][768..];
    var n := Machine(m.free - {pd}, m.mem[pd := page], m.dirs + {pd});
    assert forall di | 0 <= di < 768 :: page[di] == 0;
    assert Step(m, Create(pd, page), n);
    CreateKeeps(m, pd, page, n);
    FreshKept(m, Create(pd, page), n, kernelDir);
    hide Inv, Fresh, Step, View;
  }

  /** A free frame is not the copy's directory, and neither is the table being filled. */
  lemma CopyApart(m0: Machine, m: Machine, src: nat, dst: nat, d: nat, inflight: set<nat>, f: nat)
    requires Progress(m0, m, src, dst, d, inflight) && f in m.free
    ensures f != dst && dst in m.mem
  {
    assert Holds(m, Dir(dst)) && FrameFor(m, Dir(dst)) == dst;
  }

  lemma TableApart(m0: Machine, m: Machine, src: nat, dst: nat, d: nat, t: nat, p: nat)
    requires Progress(m0, m, src, dst, d, InFlight(m, t)) && Filling(m0, m, src, d, t, p)
    ensures t != dst && dst in m.mem
  {
    assert Holds(m, Dir(dst)) && FrameFor(m, Dir(dst)) == dst;
  }

  lemma ValidIs(vm: Paging)
    ensures vm.Valid() <==> vm.pmm.Valid() && Inv(vm.M()) && Fresh(vm.M(), vm.kernelDir)
  {
  }

  lemma MachineParts(vm: Paging)
    ensures vm.M() == Machine(vm.pmm.Free(), vm.mem, vm.dirs)
  {
  }

  lemma ProgressParts(m0: Machine, m: Machine, src: nat, dst: nat, d: nat, inflight: set<nat>)
    requires Progress(m0, m, src, dst, d, inflight)
    ensures Inv(m) && dst in m.dirs && dst != 0
  {
    assert Holds(m, Dir(dst)) && FrameFor(m, Dir(dst)) == dst;
  }

  lemma NotKernel(vm: Paging, pd: nat)
    requires vm.Valid() && pd in vm.dirs
    ensures pd != 0 && pd != vm.kernelDir
  {
    assert Holds(vm.M(), Dir(pd)) && FrameFor(vm.M(), Dir(pd)) == pd;
  }

  /** What the walk reads is what the roles say. */
  lemma DirFacts(m: Machine, pd: nat)
    requires Inv(m) && pd in m.dirs
    ensures pd in m.mem && 0 < pd * 4096 && 4096 <= pd * 4096 < 0x4000_0000 && pd * 4096 / 4096 == pd
  {
    assert Holds(m, Dir(pd));
  }

  lemma TableFacts(m: Machine, pd: nat, di: nat)
    requires Inv(m) && di < 768 && pd in m.dirs
    ensures pd in m.mem && Present(m.mem[pd][di]) == Holds(m, Table(pd, di))
    ensures Holds(m, Table(pd, di)) ==>
              && m.mem[pd][di] == EntryFor(m, Table(pd, di)) && FrameOf(m.mem[pd][di]) == FrameFor(m, Table(pd, di))
              && FrameFor(m, Table(pd, di)) in m.mem
              && 4096 <= FrameFor(m, Table(pd, di)) * 4096 < 0x4000_0000
              && FrameFor(m, Table(pd, di)) * 4096 / 4096 == FrameFor(m, Table(pd, di))
  {
    assert Holds(m, Dir(pd));
  }

  lemma LeafFacts(m: Machine, pd: nat, di: nat, pi: nat)
    requires Inv(m) && Holds(m, Table(pd, di)) && pi < 1024
    ensures var t, l := FrameFor(m, Table(pd, di)), Leaf(pd, di, pi);
            && t in m.mem && m.mem[t][pi] == EntryFor(m, l) && Present(m.mem[t][pi]) == Holds(m, l)
            && FrameOf(m.mem[t][pi]) == FrameFor(m, l)
            && (Holds(m, l) ==> FrameFor(m, l) in m.mem && 4096 <= FrameFor(m, l) * 4096 < 0x4000_0000
                                && FrameFor(m, l) * 4096 / 4096 == FrameFor(m, l))
  {
  }

  /** While cloning, the source's tables and pages still read as they did at the start. */
  lemma SourceTable(m0: Machine, m: Machine, src: nat, dst: nat, di: nat, inflight: set<nat>)
    requires Progress(m0, m, src, dst, di, inflight) && di < 768
    ensures src in m.mem && Present(m.mem[src][di]) == Holds(m0, Table(src, di))
    ensures Holds(m0, Table(src, di)) ==>
              m.mem[src][di] == EntryFor(m0, Table(src, di)) && FrameOf(m.mem[src][di]) == FrameFor(m0, Table(src, di))
  {
    TableFacts(m0, src, di);
    assert Holds(m0, Dir(src)) && FrameFor(m0, Dir(src)) == src;
  }

  lemma SourceEntry(m0: Machine, m: Machine, src: nat, dst: nat, di: nat, pi: nat, inflight: set<nat>)
    requires Progress(m0, m, src, dst, di, inflight) && di < 768 && pi < 1024 && Holds(m0, Table(src, di))
    ensures var t, l := FrameFor(m0, Table(src, di)), Leaf(src, di, pi);
            && t in m.mem && Present(m.mem[t][pi]) == Holds(m0, l) && m.mem[t][pi] == EntryFor(m0, l)
            && (Holds(m0, l) ==> FrameOf(m.mem[t][pi]) in m.mem && FrameOf(m.mem[t][pi]) in m0.mem && FrameOf(m.mem[t][pi]) !in m.free
                                 && m.mem[FrameOf(m.mem[t][pi])] == m0.mem[FrameOf(m.mem[t][pi])]
                                 && FlagsOf(m.mem[t][pi]) < 4096)
  {
    LeafFacts(m0, src, di, pi);
    assert FrameFor(m0, Table(src, di)) !in m0.free;
    if Holds(m0, Leaf(src, di, pi)) { assert FrameFor(m0, Leaf(src, di, pi)) !in m0.free; }
  }

  lemma InRange(m0: Machine, m: Machine, src: nat, dst: nat, di: nat, t: nat, p: nat)
    requires Progress(m0, m, src, dst, di, InFlight(m, t)) && Filling(m0, m, src, di, t, p)
    ensures t in m.mem && t < PAGES && dst in m.mem && t !in m.free && (forall f | f in m.free :: f < PAGES && f != t)
  {
    assert t in InFlight(m, t);
    assert t in m0.free - m.free;
  }

  // ---------------------------------------------------------------------------------------------
  // The frames pgdir_destroy has released so far
  // ---------------------------------------------------------------------------------------------

  /** Roles of the directory whose PDE is below di, and pages of PDE di below pi. */
  predicate Before(r: Role, di: nat, pi: nat) {
    match r
    case Dir(_) => false
    case Table(_, d) => d < di
    case Leaf(_, d, p) => d < di || (d == di && p < pi)
  }

  ghost predicate FreedBy(m: Machine, pd: nat, di: nat, pi: nat, f: nat) {
    exists r: Role :: Holds(m, r) && r.pd == pd && Before(r, di, pi) && FrameFor(m, r) == f
  }

  ghost function Freed(m: Machine, pd: nat, di: nat, pi: nat): set<nat> {
    set f: nat | f < PAGES && FreedBy(m, pd, di, pi, f)
  }

  lemma FreedNone(m: Machine, pd: nat)
    ensures Freed(m, pd, 0, 0) == {}
  {
  }

  lemma FreedLeaf(m: Machine, pd: nat, di: nat, pi: nat)
    requires Inv(m) && Holds(m, Table(pd, di)) && pi < 1024
    ensures var l := Leaf(pd, di, pi);
            Freed(m, pd, di, pi + 1) == Freed(m, pd, di, pi) + if Holds(m, l) then {FrameFor(m, l)} else {}
  {
    var l := Leaf(pd, di, pi);
    forall r: Role ensures Before(r, di, pi + 1) && r.pd == pd <==> (Before(r, di, pi) && r.pd == pd) || r == l {}
    forall f: nat ensures FreedBy(m, pd, di, pi + 1, f) <==> FreedBy(m, pd, di, pi, f) || (Holds(m, l) && FrameFor(m, l) == f) {
      if FreedBy(m, pd, di, pi, f) {
        var r: Role :| Holds(m, r) && r.pd == pd && Before(r, di, pi) && FrameFor(m, r) == f;
        assert Before(r, di, pi + 1);
      }
    }
  }

  lemma FreedTable(m: Machine, pd: nat, di: nat)
    requires Inv(m) && di < 768
    ensures var t := Table(pd, di);
            Freed(m, pd, di + 1, 0) == if Holds(m, t) then Freed(m, pd, di, 1024) + {FrameFor(m, t)} else Freed(m, pd, di, 0)
  {
    var t := Table(pd, di);
    if Holds(m, t) {
      forall f: nat ensures FreedBy(m, pd, di + 1, 0, f) <==> FreedBy(m, pd, di, 1024, f) || FrameFor(m, t) == f {
        if FreedBy(m, pd, di, 1024, f) {
          var r: Role :| Holds(m, r) && r.pd == pd && Before(r, di, 1024) && FrameFor(m, r) == f;
          assert Before(r, di + 1, 0);
        }
        if FrameFor(m, t) == f { assert Before(t, di + 1, 0); }
        if FreedBy(m, pd, di + 1, 0, f) {
          var r: Role :| Holds(m, r) && r.pd == pd && Before(r, di + 1, 0) && FrameFor(m, r) == f;
          assert r == t || Before(r, di, 1024);
        }
      }
    } else {
      forall f: nat ensures FreedBy(m, pd, di + 1, 0, f) <==> FreedBy(m, pd, di, 0, f) {
        if FreedBy(m, pd, di, 0, f) {
          var r: Role :| Holds(m, r) && r.pd == pd && Before(r, di, 0) && FrameFor(m, r) == f;
          assert Before(r, di + 1, 0);
        }
        if FreedBy(m, pd, di + 1, 0, f) {
          var r: Role :| Holds(m, r) && r.pd == pd && Before(r, di + 1, 0) && FrameFor(m, r) == f;
          assert Before(r, di, 0);
        }
      }
    }
  }

  lemma FreedAll(m: Machine, pd: nat)
    requires Inv(m) && pd in m.dirs
    ensures Freed(m, pd, 768, 0) + {pd} == Owned(m, pd)
  {
    assert Holds(m, Dir(pd)) && FrameFor(m, Dir(pd)) == pd;
    forall f: nat ensures OwnsFrame(m, pd, f) <==> FreedBy(m, pd, 768, 0, f) || f == pd {
      if OwnsFrame(m, pd, f) {
        var r: Role :| Holds(m, r) && r.pd == pd && FrameFor(m, r) == f;
        assert r == Dir(pd) || Before(r, 768, 0);
      }
    }
  }

  /** n is m, or m with the missing table of one PDE allocated and linked. */
  ghost predicate Linked(m: Machine, pd: nat, di: nat, n: Machine) {
    n == m || exists t :: Step(m, NewTable(pd, di, t), n)
  }

  /** Storing a PTE leaves the PDEs open, and the page is the user's, or writable, as its flags say. */
  lemma MapOpen(m: Machine, pd: nat, va: nat, mid: Machine, f: nat, flags: nat)
    requires Inv(m) && Linked(m, pd, va / 0x40_0000, mid) && va < 0xC000_0000 && f < 0x10_0000
    requires Holds(mid, Table(pd, va / 0x40_0000))
    ensures FrameFor(mid, Table(pd, va / 0x40_0000)) in mid.mem
    ensures var n := Store(mid, FrameFor(mid, Table(pd, va / 0x40_0000)), va / 4096 % 1024, Entry(f, PteFlags(flags)));
      PdesOpen(m) ==> PdesOpen(n) && (UserPage(n, pd, va / 4096) <==> flags / 8 % 2 == 1)
                      && (WritablePage(n, pd, va / 4096) <==> flags / 2 % 2 == 1)
  {
    LinkedFacts(m, pd, va / 0x40_0000, mid, f);
    StoreAtVa(mid, pd, va, Entry(f, PteFlags(flags)));
    if PdesOpen(m) {
      LinkedOpen(m, pd, va / 0x40_0000, mid);
      StoreOpen(mid, pd, va / 0x40_0000, va / 4096 % 1024, Entry(f, PteFlags(flags)));
      var n := Store(mid, FrameFor(mid, Table(pd, va / 0x40_0000)), va / 4096 % 1024, Entry(f, PteFlags(flags)));
      hide Inv, Linked, Fresh, PdesOpen, Store, UserPage, WritablePage, Holds, View;
      FlagsGrant(n, pd, va / 4096, flags);
    }
  }

  lemma LinkedOpen(m: Machine, pd: nat, di: nat, n: Machine)
    requires Inv(m) && Linked(m, pd, di, n) && PdesOpen(m)
    ensures PdesOpen(n)
  {
    if n != m {
      var t :| Step(m, NewTable(pd, di, t), n);
      NewTableOpen(m, pd, di, t, n);
    }
  }

  lemma StoreOpen(m: Machine, pd: nat, di: nat, pi: nat, e: u32)
    requires Inv(m) && Holds(m, Table(pd, di)) && pi < ENTRIES && PdesOpen(m)
    ensures FrameFor(m, Table(pd, di)) in m.mem && PdesOpen(Store(m, FrameFor(m, Table(pd, di)), pi, e))
  {
    StorePte(m, pd, di, pi, e);
    var n := Store(m, FrameFor(m, Table(pd, di)), pi, e);
    forall q: nat, d: nat | Holds(n, Table(q, d)) ensures Word(n, q, d) % 8 == 7 {
      assert Holds(m, Table(q, d)) && EntryFor(m, Table(q, d)) == EntryFor(n, Table(q, d));
    }
  }

  lemma LinkedFacts(m: Machine, pd: nat, di: nat, n: Machine, f: nat)
    requires Inv(m) && Linked(m, pd, di, n)
    ensures Inv(n) && (Fresh(m, f) ==> Fresh(n, f)) && Accounted(n) == Accounted(m)
    ensures forall q :: View(n, q) == View(m, q)
  {
    if n != m {
      var t :| Step(m, NewTable(pd, di, t), n);
      NewTableKeeps(m, pd, di, t, n);
      if Fresh(m, f) { FreshKept(m, NewTable(pd, di, t), n, f); }
    }
  }

  /** Roles and views do not depend on which frames are free. */
  lemma FreeIsUnseen(m: Machine, n: Machine, pd: nat, va: nat)
    requires m.mem == n.mem && m.dirs == n.dirs
    ensures forall q :: View(m, q) == View(n, q)
    ensures forall r :: Holds(m, r) == Holds(n, r) && EntryFor(m, r) == EntryFor(n, r)
  {
    forall q ensures View(m, q) == View(n, q) { SameView(m, n, q); }
  }

  /** The view at an address is what the walk finds there. */
  lemma ViewAtVa(m: Machine, pd: nat, va: nat)
    requires Inv(m) && va < 0xC000_0000
    ensures var t, l := Table(pd, va / 0x40_0000), Leaf(pd, va / 0x40_0000, va / 4096 % 1024);
            && (va / 4096 in View(m, pd) <==> Holds(m, l))
            && (Holds(m, t) ==> FrameFor(m, t) in m.mem && (Holds(m, l) <==> Present(m.mem[FrameFor(m, t)][va / 4096 % 1024])))
            && (Holds(m, l) ==> Holds(m, t) && View(m, pd)[va / 4096] == m.mem[FrameFor(m, t)][va / 4096 % 1024]
                                && FrameOf(View(m, pd)[va / 4096]) > 0 && FrameOf(View(m, pd)[va / 4096]) == FrameFor(m, l))
  {
    WalkIndex(va);
    if Holds(m, Table(pd, va / 0x40_0000)) { LeafFacts(m, pd, va / 0x40_0000, va / 4096 % 1024); }
  }

  /** A PTE store, in terms of the address it serves. */
  lemma StoreAtVa(m: Machine, pd: nat, va: nat, e: u32)
    requires Inv(m) && va < 0xC000_0000 && Holds(m, Table(pd, va / 0x40_0000))
    ensures FrameFor(m, Table(pd, va / 0x40_0000)) in m.mem
    ensures var n := Store(m, FrameFor(m, Table(pd, va / 0x40_0000)), va / 4096 % 1024, e);
            && (!Present(e) || Fresh(m, FrameOf(e)) ==> Inv(n))
            && View(n, pd) == (if Present(e) then View(m, pd)[va / 4096 := e] else View(m, pd) - {va / 4096})
            && forall q | q != pd :: View(n, q) == View(m, q)
  {
    WalkIndex(va);
    var di, pi := va / 0x40_0000, va / 4096 % 1024;
    StorePte(m, pd, di, pi, e);
    ViewFromRoles(m, Store(m, FrameFor(m, Table(pd, di)), pi, e), pd, di, pi);
  }

  /** The two indices of an address recover its page number. */
  lemma WalkIndex(va: nat)
    ensures 1024 * (va / 0x40_0000) + va / 4096 % 1024 == va / 4096
    ensures va / 4096 / 1024 == va / 0x40_0000
    ensures va < 0xC000_0000 ==> va / 0x40_0000 < USER_PDES && va / 4096 < USER_PAGES
  {
  }
}
