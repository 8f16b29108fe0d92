/** struct mm_struct and the operations on it: mm_mmap, mm_munmap, mm_brk, the demand-paging branch of
    the page-fault handler, mm_clone, mm_destroy and the memory arms of the system-call handler. */
module MmStruct {
  import opened Base
  import opened Pmm
  import opened PageTables
  import opened AddressSpaces
  import opened Access
  import opened CloneCount
  import opened Vmm
  import opened Ranges
  import opened Mm
  import opened Brk
  import opened BrkFrames

  /** pf in mm_mmap: VM_USER, plus VM_WRITE and VM_READ when asked for. */
  function MmapFlags(flags: nat): (pf: nat)
    ensures HasFlag(pf, VM_USER) && (HasFlag(pf, VM_WRITE) <==> HasFlag(flags, VM_WRITE)) && !HasFlag(pf, VM_NOCACHE)
    ensures pf % 2 == flags % 2
  {
    VM_USER + (if HasFlag(flags, VM_WRITE) then 2 else 0) + (if flags % 2 == 1 then 1 else 0)
  }

  class AddressSpace {
    const pgdir: nat
    var vmas: seq<Vma>
    var brk: nat
    var startBrk: nat
    var mapCount: nat

    constructor (pgdir: nat)
      ensures this.pgdir == pgdir && vmas == [] && mapCount == 0
      ensures startBrk == brk == 0x0804_8000 + 64 * 1024 * 1024
    {
      this.pgdir := pgdir;
      vmas, mapCount := [], 0;
      startBrk := 0x0804_8000 + 64 * 1024 * 1024;
      brk := 0x0804_8000 + 64 * 1024 * 1024;
    }

    ghost predicate Valid(vm: Paging)
      reads this, vm, vm.pmm, vm.pmm.bitmap
    {
      vm.Valid() && pgdir in vm.dirs && mapCount == |vmas|
    }

    /** The address space as the system calls see it. */
    ghost function Abs(vm: Paging): Space
      reads this, vm, vm.pmm, vm.pmm.bitmap
    {
      Space(startBrk, brk, View(vm.M(), pgdir).Keys, vmas)
    }

    /** Enough frames are free for every page and missing table of [addr, addr + len). */
    ghost predicate Enough(vm: Paging, addr: nat, len: nat)
      reads this, vm, vm.pmm, vm.pmm.bitmap
    {
      Need(vm.M(), pgdir, addr / 4096, (addr + len) / 4096) <= |vm.M().free|
    }

    /** mm_mmap. With enough frames the range is mapped and listed. It can also report success without
        them, leaving its last page unmapped; areaOk says whether the area record could be allocated. */
    method Mmap(vm: Paging, addr: nat, length: nat, flags: nat, areaOk: bool) returns (r: int)
      requires Valid(vm) && addr % 4096 == 0 && addr + Up(length) <= 0xC000_0000
      modifies this`vmas, this`mapCount, vm`mem, vm.pmm`freePages, vm.pmm.bitmap
      ensures Valid(vm) && Reach(old(vm.M()), vm.M())
      ensures r == 0 <==> areaOk && (old(Enough(vm, addr, Up(length)))
                                     || old(Unnoticed(vm.M(), pgdir, addr / 4096, (addr + Up(length)) / 4096)))
      ensures r != 0 ==> r == -ENOMEM && vmas == old(vmas)
      ensures r == 0 ==> vmas == old(vmas) + [Vma(addr, addr + Up(length), flags)]
      ensures old(Enough(vm, addr, Up(length))) ==>
                RangeMapped(old(vm.M()), vm.M(), pgdir, addr / 4096, (addr + Up(length)) / 4096, PteFlags(MmapFlags(flags)))
      ensures !old(Enough(vm, addr, Up(length))) ==>
                RangeShort(old(vm.M()), vm.M(), pgdir, addr / 4096, (addr + Up(length)) / 4096, PteFlags(MmapFlags(flags)))
      ensures r == 0 && old(Enough(vm, addr, Up(length))) ==> Abs(vm) == Mapped(old(Abs(vm)), addr, length, flags)
      ensures old(Enough(vm, addr, Up(length))) && PdesOpen(old(vm.M())) ==>
                RangeOpen(vm.M(), pgdir, addr / 4096, (addr + Up(length)) / 4096, flags / 2 % 2 == 1)
    {
      hide PdesOpen, RangeOpen, Inv, View, Reach, RangeMapped, RangeShort, Paging.Valid, Paging.M, Need, Unnoticed, PteFlags, MmapFlags, Range, Up;
      var len := Up(length);
      ghost var complete;
      ghost var m0 := vm.M();
      ValidIs(vm);
      r, complete := MapRange(vm, pgdir, addr, len, MmapFlags(flags));
      if complete {
        MappedKeys(m0, vm.M(), pgdir, addr / 4096, (addr + len) / 4096, PteFlags(MmapFlags(flags)));
        if PdesOpen(m0) { MmapGrants(m0, vm.M(), pgdir, addr / 4096, (addr + len) / 4096, flags); }
      }
      if r != 0 { return r; }
      if !areaOk { return -ENOMEM; }
      vmas := vmas + [Vma(addr, addr + len, flags)];
      mapCount := mapCount + 1;
    }

    /** The area loop of mm_munmap. */
    method DropAreas(addr: nat, end: nat)
      requires mapCount == |vmas|
      modifies this`vmas, this`mapCount
      ensures mapCount == |vmas| && vmas == Disjoint(old(vmas), addr, end)
    {
      var kept: seq<Vma>, i := [], 0;
      var all := vmas;
      while i < |all|
        invariant 0 <= i <= |all| && vmas == all
        invariant kept == Disjoint(all[..i], addr, end) && |kept| <= i
        invariant mapCount == |kept| + (|all| - i)
      {
        assert all[..i + 1][..i] == all[..i];
        var a := all[i];
        if a.end <= addr || a.start >= end {
          kept := kept + [a];
        } else {
          mapCount := mapCount - 1;
        }
        i := i + 1;
      }
      assert all[..i] == all;
      vmas := kept;
    }

    /** mm_munmap: frees and unmaps every page of the range, drops every area it meets. */
    method Munmap(vm: Paging, addr: nat, length: nat) returns (r: int)
      requires Valid(vm) && addr % 4096 == 0 && addr + Up(length) <= 0xC000_0000
      modifies this`vmas, this`mapCount, vm`mem, vm.pmm`freePages, vm.pmm.bitmap
      ensures Valid(vm) && Reach(old(vm.M()), vm.M()) && r == 0
      ensures RangeUnmapped(old(vm.M()), vm.M(), pgdir, addr / 4096, (addr + Up(length)) / 4096)
      ensures Abs(vm) == Unmapped(old(Abs(vm)), addr, length)
      ensures CallDone(old(vm.M()), old(Abs(vm)), Call.Unmap(addr, length), vm.M(), Abs(vm), pgdir)
    {
      hide *;
      var len := Up(length);
      ghost var m0, s0 := vm.M(), Abs(vm);
      SpaceIs(this, vm);
      UnmapRange(vm, pgdir, addr, len);
      DropAreas(addr, addr + len);
      SpaceIs(this, vm);
      UnmapDone(m0, s0, vm.M(), Abs(vm), pgdir, addr, length);
      r := 0;
    }

    /** Whether mapping [addr, addr + len) reports success. */
    ghost predicate Reports(vm: Paging, addr: nat, len: nat, areaOk: bool)
      reads this, vm, vm.pmm, vm.pmm.bitmap
    {
      areaOk && (Enough(vm, addr, len) || Unnoticed(vm.M(), pgdir, addr / 4096, (addr + len) / 4096))
    }

    /** mm_brk: refuses to go below the start, grows by mapping and shrinks by unmapping. */
    method SetBreak(vm: Paging, arg: nat, areaOk: bool) returns (r: int)
      requires Valid(vm) && startBrk % 4096 == 0 && brk % 4096 == 0 && startBrk <= brk <= 0xC000_0000 && Up(arg) <= 0xC000_0000
      modifies this`vmas, this`mapCount, this`brk, vm`mem, vm.pmm`freePages, vm.pmm.bitmap
      ensures Valid(vm) && Reach(old(vm.M()), vm.M())
      ensures r == -EINVAL <==> Up(arg) < startBrk
      ensures r == -ENOMEM <==> Up(arg) > old(brk) && !old(Reports(vm, brk, Up(arg) - brk, areaOk))
      ensures r == 0 || r == -EINVAL || r == -ENOMEM
      ensures r == -EINVAL ==> vm.M() == old(vm.M()) && Abs(vm) == old(Abs(vm))
      ensures r == -ENOMEM ==> vmas == old(vmas)
      ensures brk == if r == 0 then Up(arg) else old(brk)
      ensures Up(arg) > old(brk) && !old(Enough(vm, brk, Up(arg) - brk)) ==>
                RangeShort(old(vm.M()), vm.M(), pgdir, old(brk) / 4096, Up(arg) / 4096, PteFlags(MmapFlags(BRK_FLAGS)))
      ensures (Up(arg) > old(brk) ==> areaOk && old(Enough(vm, brk, Up(arg) - brk))) ==>
                Abs(vm) == MmBrk(old(Abs(vm)), arg) && Only(old(vm.M()), vm.M(), pgdir, old(Abs(vm)), SetBrk(arg))
      ensures r == 0 && Up(arg) > old(brk) ==> vmas == old(vmas) + [Vma(old(brk), Up(arg), 3)]
      ensures r == 0 && Up(arg) > old(brk) && old(Enough(vm, brk, Up(arg) - brk)) && PdesOpen(old(vm.M())) ==>
                RangeOpen(vm.M(), pgdir, old(brk) / 4096, Up(arg) / 4096, true)
    {
      hide PdesOpen, RangeOpen, View, Reach, Paging.Valid, Range, Disjoint, Paging.M, Up, Need, Mapped, Unmapped, RangeShort, Unnoticed, Displaced, Accounted, PteFlags, MmapFlags;
      var newBrk := Up(arg);
      NothingNew(vm.M(), pgdir, brk / 4096);
      if newBrk < startBrk { ReachSame(vm); return -EINVAL; }
      if newBrk > brk {
        r := GrowBreak(vm, newBrk, areaOk);
        if r != 0 { return r; }
      } else if newBrk < brk {
        ShrinkBreak(vm, newBrk);
      } else {
        ReachSame(vm);
      }
      brk := newBrk;
      r := 0;
    }

    method GrowBreak(vm: Paging, newBrk: nat, areaOk: bool) returns (r: int)
      requires Valid(vm) && brk % 4096 == 0 && newBrk % 4096 == 0 && brk < newBrk <= 0xC000_0000
      modifies this`vmas, this`mapCount, vm`mem, vm.pmm`freePages, vm.pmm.bitmap
      ensures Valid(vm) && Reach(old(vm.M()), vm.M())
      ensures r == if old(Reports(vm, brk, newBrk - brk, areaOk)) then 0 else -ENOMEM
      ensures r != 0 ==> vmas == old(vmas)
      ensures !old(Enough(vm, brk, newBrk - brk)) ==>
                RangeShort(old(vm.M()), vm.M(), pgdir, brk / 4096, newBrk / 4096, PteFlags(MmapFlags(BRK_FLAGS)))
      ensures old(Enough(vm, brk, newBrk - brk)) ==>
                Accounted(vm.M()) == old(Accounted(vm.M())) - Displaced(old(vm.M()), pgdir, brk / 4096, newBrk / 4096)
      ensures areaOk && old(Enough(vm, brk, newBrk - brk)) ==> Abs(vm) == Mapped(old(Abs(vm)), brk, newBrk - brk, BRK_FLAGS)
      ensures r == 0 ==> vmas == old(vmas) + [Vma(brk, newBrk, 3)]
      ensures old(Enough(vm, brk, newBrk - brk)) && PdesOpen(old(vm.M())) ==> RangeOpen(vm.M(), pgdir, brk / 4096, newBrk / 4096, true)
    {
      hide PdesOpen, RangeOpen, View, Reach, RangeMapped, RangeShort, Paging.Valid, Range, Paging.M, Up, Need, Unnoticed, Mapped, PteFlags, MmapFlags, Displaced, Accounted;
      assert Up(newBrk - brk) == newBrk - brk;
      ghost var m0 := vm.M();
      r := Mmap(vm, brk, newBrk - brk, BRK_FLAGS, areaOk);
      if old(Enough(vm, brk, newBrk - brk)) {
        MappedFrames(m0, vm.M(), pgdir, brk / 4096, newBrk / 4096, PteFlags(MmapFlags(BRK_FLAGS)));
      }
    }

    method ShrinkBreak(vm: Paging, newBrk: nat)
      requires Valid(vm) && brk % 4096 == 0 && newBrk % 4096 == 0 && newBrk < brk <= 0xC000_0000
      modifies this`vmas, this`mapCount, vm`mem, vm.pmm`freePages, vm.pmm.bitmap
      ensures Valid(vm) && Reach(old(vm.M()), vm.M())
      ensures Abs(vm) == Unmapped(old(Abs(vm)), newBrk, brk - newBrk) && Accounted(vm.M()) == old(Accounted(vm.M()))
    {
      hide View, Reach, RangeUnmapped, Paging.Valid, Range, Disjoint, Paging.M, Up, Unmapped, Displaced, Accounted;
      assert Up(brk - newBrk) == brk - newBrk;
      NothingNew(vm.M(), pgdir, brk / 4096);
      var r := Munmap(vm, newBrk, brk - newBrk);
    }

    /** The SYS_brk arm: 0 asks for the current break. */
    method SysBrk(vm: Paging, arg: nat, areaOk: bool) returns (ret: int)
      requires Valid(vm) && startBrk % 4096 == 0 && brk % 4096 == 0 && startBrk <= brk <= 0xC000_0000 && Up(arg) <= 0xC000_0000
      modifies this`vmas, this`mapCount, this`brk, vm`mem, vm.pmm`freePages, vm.pmm.bitmap
      ensures Valid(vm) && Reach(old(vm.M()), vm.M()) && brk % 4096 == 0 && startBrk <= brk <= 0xC000_0000
      ensures ret == if arg != 0 && Up(arg) < startBrk then -EINVAL
                     else if Up(arg) > old(brk) && !old(Reports(vm, brk, Up(arg) - brk, areaOk)) then -ENOMEM
                     else Signed(brk)
      ensures Up(arg) > old(brk) && !old(Reports(vm, brk, Up(arg) - brk, areaOk)) ==> brk == old(brk) && vmas == old(vmas)
      ensures Up(arg) > old(brk) && !old(Enough(vm, brk, Up(arg) - brk)) ==>
                RangeShort(old(vm.M()), vm.M(), pgdir, old(brk) / 4096, Up(arg) / 4096, PteFlags(MmapFlags(BRK_FLAGS)))
      ensures (Up(arg) > old(brk) ==> areaOk && old(Enough(vm, brk, Up(arg) - brk))) ==>
                CallDone(old(vm.M()), old(Abs(vm)), SetBrk(arg), vm.M(), Abs(vm), pgdir)
      ensures Up(arg) > old(brk) && old(Reports(vm, brk, Up(arg) - brk, areaOk)) ==> startBrk <= Up(arg) && vmas == old(vmas) + [Vma(old(brk), Up(arg), 3)]
      ensures Up(arg) > old(brk) && areaOk && old(Enough(vm, brk, Up(arg) - brk)) && PdesOpen(old(vm.M())) ==>
                RangeOpen(vm.M(), pgdir, old(brk) / 4096, Up(arg) / 4096, true)
      ensures -4096 < ret < 0 <==> (arg != 0 && Up(arg) < startBrk) || (Up(arg) > old(brk) && !old(Reports(vm, brk, Up(arg) - brk, areaOk)))
    {
      hide PdesOpen, RangeOpen, View, Reach, Paging.Valid, Paging.M, Need, MmBrk, RangeShort, Unnoticed, Displaced, Accounted, PteFlags, MmapFlags;
      var newBrk := if arg != 0 then arg else brk;
      SameNew(Abs(vm), arg);
      ret := SetBreak(vm, newBrk, areaOk);
      if ret == 0 { ret := Signed(brk); }
    }

    /** The SYS_mmap arm: address 0 takes the range at the break and moves the break past it, before
        knowing whether the mapping succeeds. */
    method SysMmap(vm: Paging, want: nat, len: nat, flags: nat, areaOk: bool) returns (ret: int)
      requires Valid(vm) && brk % 4096 == 0 && want % 4096 == 0
      requires (if want == 0 then brk else want) + Up(len) <= 0xC000_0000
      modifies this`vmas, this`mapCount, this`brk, vm`mem, vm.pmm`freePages, vm.pmm.bitmap
      ensures Valid(vm) && Reach(old(vm.M()), vm.M()) && brk % 4096 == 0
      ensures brk == old(brk) + if want == 0 then Up(len) else 0
      ensures var addr := if want == 0 then old(brk) else want;
        && ret == (if old(Reports(vm, if want == 0 then brk else want, Up(len), areaOk)) then Signed(addr) else -ENOMEM)
        && vmas == (if old(Reports(vm, if want == 0 then brk else want, Up(len), areaOk)) then old(vmas) + [Vma(addr, addr + Up(len), flags)] else old(vmas))
        && (!old(Enough(vm, if want == 0 then brk else want, Up(len))) ==>
              RangeShort(old(vm.M()), vm.M(), pgdir, addr / 4096, (addr + Up(len)) / 4096, PteFlags(MmapFlags(flags))))
      ensures areaOk && old(Enough(vm, if want == 0 then brk else want, Up(len))) ==>
                CallDone(old(vm.M()), old(Abs(vm)), if want == 0 then MmapAny(len, flags) else MmapAt(want, len, flags), vm.M(), Abs(vm), pgdir)
      ensures old(Reports(vm, if want == 0 then brk else want, Up(len), areaOk)) ==>
                ret == Signed(Reported(old(Abs(vm)), if want == 0 then MmapAny(len, flags) else MmapAt(want, len, flags)))
      ensures old(Enough(vm, if want == 0 then brk else want, Up(len))) && PdesOpen(old(vm.M())) ==>
                var addr := if want == 0 then old(brk) else want;
                RangeOpen(vm.M(), pgdir, addr / 4096, (addr + Up(len)) / 4096, flags / 2 % 2 == 1)
      ensures -4096 < ret < 0 <==> !old(Reports(vm, if want == 0 then brk else want, Up(len), areaOk))
    {
      hide PdesOpen, RangeOpen, View, Reach, RangeMapped, RangeShort, Paging.Valid, Paging.M, Need, Unnoticed, PteFlags, MmapFlags, Displaced, Accounted, Up;
      ghost var m0 := vm.M();
      var addr := want;
      if addr == 0 {
        addr := brk;
        brk := brk + Up(len);
      }
      ret := Mmap(vm, addr, len, flags, areaOk);
      if old(Enough(vm, if want == 0 then brk else want, Up(len))) {
        MappedFrames(m0, vm.M(), pgdir, addr / 4096, (addr + Up(len)) / 4096, PteFlags(MmapFlags(flags)));
      }
      if ret == 0 { ret := Signed(addr); }
    }

    /** mm_find_vma: the first area of the list that contains the address. */
    method FindVma(addr: nat) returns (k: int)
      ensures -1 <= k < |vmas|
      ensures k >= 0 ==> vmas[k].start <= addr < vmas[k].end
      ensures forall i | 0 <= i < (if k >= 0 then k else |vmas|) :: !(vmas[i].start <= addr < vmas[i].end)
    {
      k := 0;
      while k < |vmas|
        invariant 0 <= k <= |vmas|
        invariant forall i | 0 <= i < k :: !(vmas[i].start <= addr < vmas[i].end)
      {
        if addr >= vmas[k].start && addr < vmas[k].end { return; }
        k := k + 1;
      }
      k := -1;
    }

    /** page_fault_handler for a user-mode fault: a page is mapped in an area that allows the access and
        was not present; everything else ends in a signal. */
    method UserFault(vm: Paging, addr: nat, present: bool, write: bool) returns (handled: bool)
      requires Valid(vm) && addr < 0xC000_0000
      modifies vm`mem, vm.pmm`freePages, vm.pmm.bitmap
      ensures Valid(vm) && Reach(old(vm.M()), vm.M())
      ensures handled <==> && old(vm.M()).free != {} && !present
                           && exists i :: Serves(vmas, i, addr, write)
      ensures !handled ==> vm.M() == old(vm.M())
      ensures handled && |old(vm.M()).free| >= old(PageNeed(vm.M(), pgdir, addr / 4096)) ==>
                exists i :: Serves(vmas, i, addr, write) &&
                            PageAdded(old(vm.M()), vm.M(), pgdir, addr / 4096, PteFlags(WithUser(vmas[i].flags)))
      ensures handled && |old(vm.M()).free| >= old(PageNeed(vm.M(), pgdir, addr / 4096)) && PdesOpen(old(vm.M())) ==>
                UserPage(vm.M(), pgdir, addr / 4096) && (write ==> WritablePage(vm.M(), pgdir, addr / 4096))
    {
      hide PdesOpen, UserPage, WritablePage, View, Reach, PageAdded, SameViews, Inv, Fresh;
      ReachSame(vm);
      ghost var m0 := vm.M();
      ValidIs(vm);
      var k := FindVma(addr);
      if k >= 0 {
        if write && !HasFlag(vmas[k].flags, VM_WRITE) { return false; }
        if !present {
          assert Serves(vmas, k, addr, write);
          var r := MapZeroed(vm, pgdir, addr / 4096 * 4096, WithUser(vmas[k].flags));
          assert addr / 4096 * 4096 / 4096 == addr / 4096;
          if r != 0 { return false; }
          if |m0.free| >= PageNeed(m0, pgdir, addr / 4096) && PdesOpen(m0) {
            FaultGrants(m0, vm.M(), pgdir, addr / 4096, vmas[k].flags);
          }
          return true;
        }
      }
      handled := false;
    }

    /** mm_destroy: the areas are dropped and the directory with everything it owns is released. */
    method Destroy(vm: Paging)
      requires Valid(vm)
      modifies this`vmas, vm`dirs, vm.pmm`freePages, vm.pmm.bitmap
      ensures vm.Valid() && vmas == [] && Step(old(vm.M()), AddressSpaces.Destroy(pgdir), vm.M())
    {
      NotKernel(vm, pgdir);
      vmas := [];
      vm.PgdirDestroy(pgdir);
    }

    /** The area loop of mm_clone, stopping when no more records can be allocated. */
    method CopyAreas(from: seq<Vma>, available: nat) returns (ok: bool)
      requires vmas == [] && mapCount == 0
      modifies this`vmas, this`mapCount
      ensures ok <==> |from| <= available
      ensures ok ==> vmas == from
      ensures mapCount == |vmas|
    {
      var i := 0;
      while i < |from|
        invariant 0 <= i <= |from| && vmas == from[..i] && mapCount == i <= available
      {
        if i >= available { return false; }
        vmas := vmas + [from[i]];
        mapCount := mapCount + 1;
        i := i + 1;
      }
      assert from[..i] == from;
      ok := true;
    }

    /** mm_clone. The copy has the same break, areas and area count, and a cloned directory. When the
        records for the areas cannot all be allocated the clone is destroyed again: the free pages and
        every other address space are then as before. */
    method Clone(vm: Paging, recordOk: bool, available: nat) returns (dst: AddressSpace?)
      requires Valid(vm)
      modifies vm`mem, vm`dirs, vm.pmm`freePages, vm.pmm.bitmap
      ensures Valid(vm) && Reach(old(vm.M()), vm.M())
      ensures dst != null <==> recordOk && !Short(old(vm.M()), pgdir) && |vmas| <= available
      ensures dst != null ==>
                && fresh(dst) && dst.Valid(vm) && Step(old(vm.M()), AddressSpaces.Clone(pgdir, dst.pgdir), vm.M())
                && dst.vmas == vmas && dst.brk == brk && dst.startBrk == startBrk && dst.mapCount == mapCount
      ensures dst == null ==> vm.dirs == old(vm.dirs) && forall q | q in old(vm.dirs) :: View(vm.M(), q) == old(View(vm.M(), q))
      ensures recordOk && Short(old(vm.M()), pgdir) ==> FailedClone(old(vm.M()), vm.M(), pgdir)
      ensures !recordOk ==> vm.M() == old(vm.M())
      ensures dst == null && !Short(old(vm.M()), pgdir) ==> vm.M().free == old(vm.M().free)
    {
      hide View, Reach, Step, Inv, Fresh, Short, EndsBefore, LostAt, Allocator.Valid, Allocator.Free;
      ghost var m := vm.M();
      if !recordOk { ReachSame(vm); return null; }
      var pd := vm.PgdirClone(pgdir);
      ghost var n := vm.M();
      if pd == 0 {
        AfterFailedClone(m, n);
        return null;
      }
      AfterClone(m, pgdir, pd, n);
      var c := new AddressSpace(pd);
      c.brk, c.startBrk := brk, startBrk;
      var ok := c.CopyAreas(vmas, available);
      if !ok {
        c.Destroy(vm);
        AfterUndo(m, pgdir, pd, n, vm.M());
        return null;
      }
      return c;
    }
  }

  /** mm_create: a new empty address space if and only if a record and a frame for its directory are to be had. */
  method MmCreate(vm: Paging, recordOk: bool) returns (mm: AddressSpace?)
    requires vm.Valid()
    modifies vm`mem, vm`dirs, vm.pmm`freePages, vm.pmm.bitmap
    ensures vm.Valid()
    ensures mm != null <==> recordOk && old(vm.M()).free != {}
    ensures mm == null ==> vm.M() == old(vm.M())
    ensures mm != null ==> fresh(mm) && mm.Valid(vm) && mm.vmas == [] && mm.startBrk == mm.brk == 0x0804_8000 + 64 * 1024 * 1024
    ensures mm != null ==> View(vm.M(), mm.pgdir) == map[] && mm.pgdir in vm.M().mem
    ensures mm != null ==> Step(old(vm.M()), Create(mm.pgdir, vm.M().mem[mm.pgdir]), vm.M())
  {
    if !recordOk { return null; }
    ghost var m := vm.M();
    var pd := vm.PgdirCreate();
    if pd == 0 { return null; }
    CreateKeeps(m, pd, vm.M().mem[pd], vm.M());
    assert pd in vm.dirs;
    hide View, Inv, Fresh, Allocator.Valid, Allocator.Free, Paging.Valid, Step;
    mm := new AddressSpace(pd);
  }

  lemma AfterFailedClone(m: Machine, n: Machine)
    requires Inv(m) && Step(m, Lose, n)
    ensures Reach(m, n) && n.dirs == m.dirs && forall q | q in m.dirs :: View(n, q) == View(m, q)
  {
    ReachRefl(m);
    ReachStep(m, m, Lose, n);
    LoseKeeps(m, n);
  }

  lemma AfterClone(m: Machine, src: nat, dst: nat, n: Machine)
    requires Inv(m) && Step(m, AddressSpaces.Clone(src, dst), n)
    ensures Reach(m, n) && dst in n.dirs && src in n.dirs
  {
    ReachRefl(m);
    ReachStep(m, m, AddressSpaces.Clone(src, dst), n);
  }

  lemma AfterUndo(m: Machine, src: nat, dst: nat, n: Machine, k: Machine)
    requires Inv(m) && Step(m, AddressSpaces.Clone(src, dst), n) && Step(n, AddressSpaces.Destroy(dst), k)
    ensures Reach(m, k) && k.dirs == m.dirs && k.free == m.free && forall q | q in m.dirs :: View(k, q) == View(m, q)
  {
    AfterClone(m, src, dst, n);
    ReachStep(m, n, AddressSpaces.Destroy(dst), k);
    CloneThenDestroy(m, src, dst, n, k);
  }

  /** flags | VM_USER. */
  function WithUser(flags: nat): (r: nat)
    ensures HasFlag(r, VM_USER) && (HasFlag(r, VM_WRITE) <==> HasFlag(flags, VM_WRITE))
  {
    if HasFlag(flags, VM_USER) then flags else flags + VM_USER
  }

  /** Area i is the first that contains the address, and it permits the access. */
  predicate Serves(vmas: seq<Vma>, i: int, addr: nat, write: bool) {
    && 0 <= i < |vmas| && vmas[i].start <= addr < vmas[i].end && (write ==> HasFlag(vmas[i].flags, VM_WRITE))
    && forall j | 0 <= j < i :: !(vmas[j].start <= addr < vmas[j].end)
  }

  /** Pages that mm_mmap maps are the user's, and writable exactly when VM_WRITE was asked for. */
  lemma MmapGrants(m0: Machine, m: Machine, pd: nat, v0: nat, v: nat, flags: nat)
    requires Inv(m0) && PdesOpen(m0) && Reach(m0, m) && RangeMapped(m0, m, pd, v0, v, PteFlags(MmapFlags(flags)))
    ensures PdesOpen(m) && RangeOpen(m, pd, v0, v, flags / 2 % 2 == 1)
  {
    ReachKeepsOpen(m0, m);
    MmapBits(flags);
    forall w: nat | v0 <= w < v ensures UserPage(m, pd, w) && (WritablePage(m, pd, w) <==> flags / 2 % 2 == 1) {
      assert ZeroMapped(m, pd, w, PteFlags(MmapFlags(flags)));
      FlagsGrant(m, pd, w, MmapFlags(flags));
    }
  }

  lemma MmapBits(flags: nat)
    ensures MmapFlags(flags) / 8 % 2 == 1 && (MmapFlags(flags) / 2 % 2 == 1 <==> flags / 2 % 2 == 1)
  {
  }

  /** The page a fault brings in is the user's, and writable exactly when the area has VM_WRITE. */
  lemma FaultGrants(m0: Machine, m: Machine, pd: nat, v: nat, flags: nat)
    requires Inv(m0) && PdesOpen(m0) && Reach(m0, m) && PageAdded(m0, m, pd, v, PteFlags(WithUser(flags)))
    ensures PdesOpen(m) && UserPage(m, pd, v) && (WritablePage(m, pd, v) <==> flags / 2 % 2 == 1)
  {
    ReachKeepsOpen(m0, m);
    FlagsGrant(m, pd, v, WithUser(flags));
    hide View;
  }

  /** Only frames under the pages a call maps were lost. */
  ghost predicate Only(m0: Machine, m: Machine, pd: nat, s: Space, c: Call) {
    Accounted(m) == Accounted(m0) - Displaced(m0, pd, NewFrom(s, c), NewTo(s, c))
  }

  lemma NothingNew(m: Machine, pd: nat, v: nat)
    ensures Displaced(m, pd, v, v) == {} && Accounted(m) - Displaced(m, pd, v, v) == Accounted(m)
  {
  }

  lemma MappedFrames(m0: Machine, m: Machine, pd: nat, v0: nat, v: nat, flags: nat)
    requires RangeMapped(m0, m, pd, v0, v, flags)
    ensures Accounted(m) == Accounted(m0) - Displaced(m0, pd, v0, v)
  {
  }

  lemma UnmappedFrames(m0: Machine, m: Machine, pd: nat, v0: nat, v: nat)
    requires RangeUnmapped(m0, m, pd, v0, v)
    ensures Accounted(m) == Accounted(m0)
  {
  }

  lemma SpaceIs(a: AddressSpace, vm: Paging)
    ensures a.Abs(vm) == Space(a.startBrk, a.brk, View(vm.M(), a.pgdir).Keys, a.vmas)
    ensures a.Valid(vm) <==> vm.Valid() && a.pgdir in vm.dirs && a.mapCount == |a.vmas|
  {
  }

  lemma UnmapDone(m0: Machine, s0: Space, m: Machine, s: Space, pd: nat, addr: nat, length: nat)
    requires RangeUnmapped(m0, m, pd, addr / 4096, (addr + Up(length)) / 4096)
    requires s0.pages == View(m0, pd).Keys && s.pages == View(m, pd).Keys
    requires s == s0.(pages := s.pages, vmas := Disjoint(s0.vmas, addr, addr + Up(length)))
    ensures s == Unmapped(s0, addr, length) && CallDone(m0, s0, Call.Unmap(addr, length), m, s, pd)
  {
    hide *;
    UnmappedKeys(m0, m, pd, addr / 4096, (addr + Up(length)) / 4096);
    UnmappedFrames(m0, m, pd, addr / 4096, (addr + Up(length)) / 4096);
    UnmappedIs(s0, addr, length);
    KeptFrames(m0, s0, Call.Unmap(addr, length), m, s, pd);
  }

  lemma UnmappedIs(s: Space, addr: nat, len: nat)
    ensures Apply(s, Call.Unmap(addr, len)) == Unmapped(s, addr, len)
    ensures Unmapped(s, addr, len) ==
      s.(pages := s.pages - Range(addr / 4096, (addr + Up(len)) / 4096), vmas := Disjoint(s.vmas, addr, addr + Up(len)))
    ensures NewTo(s, Call.Unmap(addr, len)) == NewFrom(s, Call.Unmap(addr, len))
  {
  }

  lemma KeptFrames(m0: Machine, s0: Space, c: Call, m: Machine, s: Space, pd: nat)
    requires s0.pages == View(m0, pd).Keys && s.pages == View(m, pd).Keys && s == Apply(s0, c)
    requires Accounted(m) == Accounted(m0) && NewTo(s0, c) == NewFrom(s0, c)
    ensures CallDone(m0, s0, c, m, s, pd)
  {
    NothingNew(m0, pd, NewFrom(s0, c));
    hide View, Accounted, Displaced, Apply, NewFrom, NewTo;
  }

  /** Asking for the current break maps nothing. */
  lemma SameNew(s: Space, arg: nat)
    requires s.brk % 4096 == 0
    ensures var b := if arg != 0 then arg else s.brk; NewTo(s, SetBrk(b)) == NewTo(s, SetBrk(arg)) && (Up(b) > s.brk <==> Up(arg) > s.brk)
  {
  }

  lemma ReachSame(vm: Paging)
    ensures Reach(vm.M(), vm.M())
  {
    ReachRefl(vm.M());
  }

  lemma MappedKeys(m0: Machine, m: Machine, pd: nat, v0: nat, v: nat, flags: nat)
    requires RangeMapped(m0, m, pd, v0, v, flags)
    ensures View(m, pd).Keys == View(m0, pd).Keys + Range(v0, v)
  {
  }

  lemma UnmappedKeys(m0: Machine, m: Machine, pd: nat, v0: nat, v: nat)
    requires RangeUnmapped(m0, m, pd, v0, v)
    ensures View(m, pd).Keys == View(m0, pd).Keys - Range(v0, v)
  {
  }
}
