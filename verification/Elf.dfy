/** The PT_LOAD loop of sys_exec (kernel/elf.c): zeroed pages are mapped, then the file is copied in page by page. */
module Elf {
  import opened Base
  import opened Pmm
  import opened PageTables
  import opened AddressSpaces
  import opened Access
  import opened Vmm
  import opened Ranges
  import opened Mm
  import opened ElfImage
  import opened UserBytes

  /** The mapping of a segment: user and readable, writable and executable as its header says. */
  function SegmentFlags(ph: Phdr): (r: nat)
    ensures HasFlag(r, VM_USER) && (HasFlag(r, VM_WRITE) <==> ph.flags / 2 % 2 == 1) && !HasFlag(r, VM_NOCACHE)
    ensures r % 2 == 1 && r / 4 % 2 == ph.flags % 2
  {
    VM_USER + 1 + (if ph.flags / 2 % 2 == 1 then 2 else 0) + (if ph.flags % 2 == 1 then 4 else 0)
  }

  // ---------------------------------------------------------------------------------------------
  // Storing bytes through a translation
  // ---------------------------------------------------------------------------------------------

  function PatchedPage(p: Page, off: nat, bytes: seq<u8>): Page
    requires off + |bytes| <= 4096
  {
    PackPage(PageBytes(p)[..off] + bytes + PageBytes(p)[off + |bytes|..])
  }

  /** The same tables, translations and free frames. */
  ghost predicate SameMaps(m: Machine, n: Machine) {
    && n.free == m.free && n.dirs == m.dirs && Accounted(n) == Accounted(m) && (PdesOpen(m) ==> PdesOpen(n))
    && forall q :: View(n, q) == View(m, q) && Tables(n, q) == Tables(m, q)
  }

  ghost predicate Stored(m: Machine, n: Machine, pd: nat, v: nat, off: nat, bytes: seq<u8>)
    requires off + |bytes| <= 4096
  {
    StoredIn(UserMemory(m, pd), UserMemory(n, pd), v, off, bytes)
  }

  /** A store into a mapped page. */
  lemma StoreMapped(m: Machine, pd: nat, v: nat, page: Page, k: nat)
    requires Inv(m) && Fresh(m, k) && v in View(m, pd)
    ensures FrameOf(View(m, pd)[v]) in m.mem
    ensures var n := m.(mem := m.mem[FrameOf(View(m, pd)[v]) := page]);
      Inv(n) && Fresh(n, k) && SameMaps(m, n) && UserMemory(n, pd) == UserMemory(m, pd)[v := PageBytes(page)]
  {
    MappedPage(m, pd, v);
    WriteIsStep(m, pd, v, page);
    MemoryAfterWrite(m, pd, v, page);
    var n, op := m.(mem := m.mem[FrameOf(View(m, pd)[v]) := page]), WritePage(pd, v / 1024, v % 1024, page);
    hide *;
    FreshKept(m, op, n, k);
    if PdesOpen(m) { StepOpen(m, op, n); }
    IsSameMaps(m, n);
  }

  /** A store to an unmapped page lands in physical page 0. */
  lemma StoreZero(m: Machine, pd: nat, page: Page, k: nat)
    requires Inv(m) && Fresh(m, k)
    ensures var n := m.(mem := m.mem[0 := page]);
      Inv(n) && Fresh(n, k) && SameMaps(m, n) && UserMemory(n, pd) == UserMemory(m, pd)
  {
    WriteToPageZero(m, pd, page);
    var n := m.(mem := m.mem[0 := page]);
    assert Fresh(n, k);
    hide *;
    if PdesOpen(m) { ZeroOpen(m, page); }
    IsSameMaps(m, n);
  }

  lemma IsSameMaps(m: Machine, n: Machine)
    requires n.free == m.free && n.dirs == m.dirs && Accounted(n) == Accounted(m) && (PdesOpen(m) ==> PdesOpen(n))
    requires forall q :: View(n, q) == View(m, q) && Tables(n, q) == Tables(m, q)
    ensures SameMaps(m, n)
  {
  }

  /** A frame number from the walk, 0 for an unmapped page, and a machine with that frame patched. */
  lemma StoreFacts(m: Machine, pd: nat, v: nat, f: nat, off: nat, bytes: seq<u8>, k: nat)
    requires Inv(m) && Fresh(m, k) && off + |bytes| <= 4096
    requires f == if v in View(m, pd) then FrameOf(View(m, pd)[v]) else 0
    ensures f in m.mem
    ensures var n := m.(mem := m.mem[f := PatchedPage(m.mem[f], off, bytes)]);
      Inv(n) && Fresh(n, k) && SameMaps(m, n) && Stored(m, n, pd, v, off, bytes)
  {
    assert 0 in m.mem;
    if v in View(m, pd) {
      MappedPage(m, pd, v);
      Packed(PageBytes(m.mem[f])[..off] + bytes + PageBytes(m.mem[f])[off + |bytes|..]);
      StoreMapped(m, pd, v, PatchedPage(m.mem[f], off, bytes), k);
    } else {
      StoreZero(m, pd, PatchedPage(m.mem[0], off, bytes), k);
    }
    hide PdesOpen, Accounted, Tables, SameMaps, Inv, Fresh, View, PackPage, PageBytes;
  }

  /** No directory lies in physical page 0. */
  lemma ZeroOpen(m: Machine, page: Page)
    requires Inv(m) && PdesOpen(m)
    ensures PdesOpen(m.(mem := m.mem[0 := page]))
  {
    SameTables(m, m.(mem := m.mem[0 := page]));
  }

  /** One read of the copy loop: through the page tables into the frame behind the address. */
  method StoreBytes(vm: Paging, pd: nat, va: nat, bytes: seq<u8>)
    requires vm.Valid() && pd in vm.dirs && va < 0xC000_0000 && va % 4096 + |bytes| <= 4096
    modifies vm`mem
    ensures vm.Valid() && SameMaps(old(vm.M()), vm.M()) && Stored(old(vm.M()), vm.M(), pd, va / 4096, va % 4096, bytes)
  {
    ghost var m := vm.M();
    MappedFrame(vm, pd, va);
    var pa := vm.VirtToPhys(pd, va);
    var f, off := pa / 4096, va % 4096;
    StoreFacts(m, pd, va / 4096, f, off, bytes, vm.kernelDir);
    hide Inv, Fresh, View, SameMaps, Stored;
    vm.mem := vm.mem[f := PatchedPage(vm.mem[f], off, bytes)];
    MachineParts(vm);
  }

  // ---------------------------------------------------------------------------------------------
  // One segment
  // ---------------------------------------------------------------------------------------------

  /** The copy loop with done bytes in: the segment's image advances if its pages were all there to begin with. */
  ghost predicate Copying(m0: Machine, m: Machine, pd: nat, ph: Phdr, file: seq<u8>, done: nat)
    requires SegmentOk(ph, file)
  {
    done <= ph.filesz && SameMaps(m0, m) && CopiedIn(UserMemory(m0, pd), UserMemory(m, pd), ph, file, done)
  }

  lemma CopyStart(m: Machine, pd: nat, ph: Phdr, file: seq<u8>)
    requires SegmentOk(ph, file)
    ensures Copying(m, m, pd, ph, file, 0)
  {
  }

  lemma SameMapsTrans(m0: Machine, m: Machine, n: Machine)
    requires SameMaps(m0, m) && SameMaps(m, n)
    ensures SameMaps(m0, n)
  {
  }

  lemma CopyStep(m0: Machine, m: Machine, n: Machine, pd: nat, ph: Phdr, file: seq<u8>, done: nat, chunk: nat)
    requires Loads(ph) && SegmentOk(ph, file) && Copying(m0, m, pd, ph, file, done) && done < ph.filesz && done + chunk <= ph.filesz
    requires (ph.vaddr + done) % 4096 + chunk <= 4096 && ph.offset + done + chunk <= |file| && SameMaps(m, n)
    requires Stored(m, n, pd, (ph.vaddr + done) / 4096, (ph.vaddr + done) % 4096, file[ph.offset + done..ph.offset + done + chunk])
    ensures Copying(m0, n, pd, ph, file, done + chunk)
  {
    SameMapsTrans(m0, m, n);
    hide UserMemory, CopiedIn, StoredIn, SameMaps;
    CopiedStep(UserMemory(m0, pd), UserMemory(m, pd), UserMemory(n, pd), ph, file, done, chunk);
  }

  lemma SegmentRange(ph: Phdr, file: seq<u8>)
    requires Loads(ph) && SegmentOk(ph, file)
    ensures ph.vaddr + ph.filesz <= 0xC000_0000 && ph.offset + ph.filesz <= |file|
    ensures FirstPage(ph) < EndPage(ph) && 4096 * EndPage(ph) <= 0xC000_0000
  {
  }

  /** The copy loop of one segment: at most a page at a time, each chunk inside one page. */
  method CopyFile(vm: Paging, pd: nat, ph: Phdr, file: seq<u8>)
    requires vm.Valid() && pd in vm.dirs && Loads(ph) && SegmentOk(ph, file)
    modifies vm`mem
    ensures vm.Valid() && Copying(old(vm.M()), vm.M(), pd, ph, file, ph.filesz)
  {
    hide *;
    ghost var m0 := vm.M();
    SegmentRange(ph, file);
    CopyStart(m0, pd, ph, file);
    var toRead, va, at := ph.filesz, ph.vaddr, ph.offset;
    ghost var done := 0;
    while toRead > 0
      invariant done + toRead == ph.filesz && va == ph.vaddr + done && at == ph.offset + done
      invariant vm.Valid() && Copying(m0, vm.M(), pd, ph, file, done)
    {
      var room := 4096 - va % 4096;
      var chunk := if toRead < room then toRead else room;
      ghost var m := vm.M();
      StoreBytes(vm, pd, va, file[at..at + chunk]);
      CopyStep(m0, m, vm.M(), pd, ph, file, done, chunk);
      at, va, toRead := at + chunk, va + chunk, toRead - chunk;
      done := done + chunk;
    }
  }

  /** The segment's translations carry its flags. */
  ghost predicate SegmentFlagged(m: Machine, pd: nat, ph: Phdr) {
    forall p | FirstPage(ph) <= p < EndPage(ph) :: p in View(m, pd) && FlagsOf(View(m, pd)[p]) == PteFlags(SegmentFlags(ph))
  }

  /** Translations there before are still there. */
  ghost predicate ViewsKept(m0: Machine, m: Machine, pd: nat) {
    forall p | p in View(m0, pd) :: p in View(m, pd) && View(m, pd)[p] == View(m0, pd)[p]
  }

  /** One segment loaded: its pages, its tables and the frames they took, and nothing else. */
  ghost predicate SegmentLoaded(m0: Machine, m: Machine, pd: nat, ph: Phdr, file: seq<u8>)
    requires Loads(ph) && SegmentOk(ph, file)
  {
    && SegmentIn(UserMemory(m, pd), ph, file, ph.filesz)
    && Added(UserMemory(m0, pd), UserMemory(m, pd), FirstPage(ph), EndPage(ph))
    && SegmentFlagged(m, pd, ph) && ViewsKept(m0, m, pd)
    && Tables(m, pd) == Tables(m0, pd) + Missing(m0, pd, FirstPage(ph), EndPage(ph))
    && |m.free| == |m0.free| - Need(m0, pd, FirstPage(ph), EndPage(ph)) && Accounted(m) == Accounted(m0)
  }

  /** A segment whose pages ran short: mapped as far as the frames went, and copied to what is mapped. */
  ghost predicate SegmentShort(m0: Machine, m: Machine, pd: nat, ph: Phdr) {
    exists k :: RangeShort(m0, k, pd, FirstPage(ph), EndPage(ph), PteFlags(SegmentFlags(ph))) && SameMaps(k, m)
  }

  /** All frames but at most one are still accounted for. */
  ghost predicate LostOne(m0: Machine, m: Machine) {
    Accounted(m) <= Accounted(m0) && |Accounted(m0) - Accounted(m)| <= 1
  }

  ghost predicate Unmapped(m: Machine, pd: nat, ph: Phdr) {
    forall p | FirstPage(ph) <= p < EndPage(ph) :: p !in UserMemory(m, pd)
  }

  lemma TablesGrow(m0: Machine, m: Machine, pd: nat, v0: nat, v: nat)
    requires RangeTables(m0, m, pd, v0, v) && v0 < v <= 786432
    ensures Tables(m, pd) == Tables(m0, pd) + Missing(m0, pd, v0, v)
    ensures |m.free| == |m0.free| - Need(m0, pd, v0, v)
  {
    var missing := Missing(m0, pd, v0, v);
    forall di: nat ensures di in Tables(m, pd) <==> di in Tables(m0, pd) || di in missing {
      if di in missing {
        var w := if 1024 * di < v0 then v0 else 1024 * di;
        assert v0 <= w < v && w / 1024 == di;
      }
      if di in Tables(m, pd) && di !in Tables(m0, pd) {
        var w: nat :| v0 <= w < v && w / 1024 == di;
        assert Touches(di, v0, v);
      }
    }
    hide Tables, Touches;
    assert Tables(m, pd) == Tables(m0, pd) + missing;
    assert Tables(m0, pd) !! missing;
  }

  lemma SegmentMapped(m0: Machine, m: Machine, pd: nat, ph: Phdr, file: seq<u8>)
    requires Inv(m0) && Inv(m) && Loads(ph) && SegmentOk(ph, file)
    requires RangeMapped(m0, m, pd, FirstPage(ph), EndPage(ph), PteFlags(SegmentFlags(ph)))
    requires Unmapped(m0, pd, ph)
    ensures SegmentIn(UserMemory(m, pd), ph, file, 0)
    ensures Added(UserMemory(m0, pd), UserMemory(m, pd), FirstPage(ph), EndPage(ph))
  {
    MemoryAfterMap(m0, m, pd, FirstPage(ph), EndPage(ph), PteFlags(SegmentFlags(ph)));
    hide *;
    ZeroImage(UserMemory(m, pd), ph, file);
  }

  lemma ZeroImage(view: Memory, ph: Phdr, file: seq<u8>)
    requires SegmentOk(ph, file) && forall p: nat | FirstPage(ph) <= p < EndPage(ph) :: p in view && view[p] == Zeros()
    ensures SegmentIn(view, ph, file, 0)
  {
    forall p | FirstPage(ph) <= p < EndPage(ph) ensures PageImage(ph, file, 0, p) == Zeros() { NothingDone(ph, file, p); }
    hide PageImage, Zeros, FirstPage, EndPage;
  }

  lemma SegmentViews(m0: Machine, m: Machine, pd: nat, ph: Phdr)
    requires Inv(m0) && RangeMapped(m0, m, pd, FirstPage(ph), EndPage(ph), PteFlags(SegmentFlags(ph)))
    requires Unmapped(m0, pd, ph)
    ensures SegmentFlagged(m, pd, ph) && ViewsKept(m0, m, pd)
  {
    forall p: nat | FirstPage(ph) <= p < EndPage(ph)
      ensures p in View(m, pd) && FlagsOf(View(m, pd)[p]) == PteFlags(SegmentFlags(ph)) && p !in View(m0, pd)
    {
      assert ZeroMapped(m, pd, p, PteFlags(SegmentFlags(ph)));
      if p in View(m0, pd) { MappedPage(m0, pd, p); }
    }
  }

  lemma NoneUnder(m: Machine, pd: nat, ph: Phdr, v: nat)
    requires Inv(m) && Unmapped(m, pd, ph) && v <= EndPage(ph)
    ensures Displaced(m, pd, FirstPage(ph), v) == {}
  {
    forall w | w in View(m, pd) ensures !Within(FirstPage(ph), w, v) { MappedPage(m, pd, w); }
  }

  lemma NothingLost(m0: Machine, m: Machine, pd: nat, ph: Phdr)
    requires Inv(m0) && Unmapped(m0, pd, ph)
    requires RangeMapped(m0, m, pd, FirstPage(ph), EndPage(ph), PteFlags(SegmentFlags(ph)))
    ensures Accounted(m) == Accounted(m0)
  {
    NoneUnder(m0, pd, ph, EndPage(ph));
  }

  lemma ShortAccount(m0: Machine, k: Machine, n: Machine, pd: nat, v0: nat, v: nat, stop: nat, flags: nat)
    requires RanShort(m0, k, n, pd, v0, v, stop, flags) && Displaced(m0, pd, v0, v) == {}
    ensures Accounted(n) == Accounted(m0) - k.free && |k.free| <= 1 && n.free == {}
  {
    hide Accounted, View, Tables, KeepsContents, Displaced, RangeViews, RangeTables, RangeContents;
  }

  lemma LostFew(m0: Machine, m: Machine, few: set<nat>)
    requires Accounted(m) == Accounted(m0) - few && |few| <= 1
    ensures LostOne(m0, m)
  {
    hide Accounted;
    SubsetSize(Accounted(m0) - Accounted(m), few);
  }

  lemma ShortLosesOne(m0: Machine, m: Machine, pd: nat, ph: Phdr)
    requires Inv(m0) && Unmapped(m0, pd, ph) && SegmentShort(m0, m, pd, ph)
    ensures m.free == {} && LostOne(m0, m)
  {
    var n :| RangeShort(m0, n, pd, FirstPage(ph), EndPage(ph), PteFlags(SegmentFlags(ph))) && SameMaps(n, m);
    var k, v :| RanShort(m0, k, n, pd, FirstPage(ph), v, EndPage(ph), PteFlags(SegmentFlags(ph)));
    NoneUnder(m0, pd, ph, v);
    ShortAccount(m0, k, n, pd, FirstPage(ph), v, EndPage(ph), PteFlags(SegmentFlags(ph)));
    LostFew(m0, m, k.free);
    hide *;
  }

  /** Without a free frame nothing happens at all, and that does not go unnoticed. */
  lemma ShortLosesNone(m0: Machine, m: Machine, pd: nat, ph: Phdr)
    requires m0.free == {} && SegmentShort(m0, m, pd, ph)
    ensures m.free == {} && Accounted(m) == Accounted(m0)
  {
    hide Accounted, View, Tables, KeepsContents;
    var n :| RangeShort(m0, n, pd, FirstPage(ph), EndPage(ph), PteFlags(SegmentFlags(ph))) && SameMaps(n, m);
    var k, v :| RanShort(m0, k, n, pd, FirstPage(ph), v, EndPage(ph), PteFlags(SegmentFlags(ph)));
    SubsetSize(Tables(m0, pd), Tables(k, pd));
    assert k.free == {} && |k.free| == 0 && v == FirstPage(ph);
    assert Displaced(m0, pd, v, v) == {};
  }

  lemma EmptyNoticed(m: Machine, pd: nat, v0: nat, stop: nat)
    requires m.free == {} && v0 < stop <= 786432
    ensures !Unnoticed(m, pd, v0, stop) && Need(m, pd, v0, stop) > |m.free|
  {
    if LastOpensTable(m, pd, v0, stop) {
      var di := (stop - 1) / 1024;
      assert di in Missing(m, pd, v0, stop);
    }
  }

  lemma AfterCopy(u: Memory, v: Memory, w: Memory, ph: Phdr)
    requires Added(u, v, FirstPage(ph), EndPage(ph)) && Others(v, w, ph)
    requires forall p | FirstPage(ph) <= p < EndPage(ph) :: p !in u
    ensures Added(u, w, FirstPage(ph), EndPage(ph))
  {
  }

  lemma LoadedBytes(m0: Machine, m1: Machine, m: Machine, pd: nat, ph: Phdr, file: seq<u8>)
    requires Inv(m0) && Inv(m1) && Loads(ph) && SegmentOk(ph, file)
    requires RangeMapped(m0, m1, pd, FirstPage(ph), EndPage(ph), PteFlags(SegmentFlags(ph)))
    requires Unmapped(m0, pd, ph)
    requires Copying(m1, m, pd, ph, file, ph.filesz)
    ensures SegmentIn(UserMemory(m, pd), ph, file, ph.filesz)
    ensures Added(UserMemory(m0, pd), UserMemory(m, pd), FirstPage(ph), EndPage(ph))
  {
    SegmentMapped(m0, m1, pd, ph, file);
    hide SameMaps, RangeMapped, UserMemory, Inv, SegmentIn, Added, Others;
    AfterCopy(UserMemory(m0, pd), UserMemory(m1, pd), UserMemory(m, pd), ph);
  }

  lemma LoadedViews(m0: Machine, m1: Machine, m: Machine, pd: nat, ph: Phdr)
    requires SameMaps(m1, m) && SegmentFlagged(m1, pd, ph) && ViewsKept(m0, m1, pd)
    ensures SegmentFlagged(m, pd, ph) && ViewsKept(m0, m, pd)
    ensures m.free == m1.free && Tables(m, pd) == Tables(m1, pd) && Accounted(m) == Accounted(m1)
  {
    hide Accounted, Tables, View, PdesOpen, PteFlags, SegmentFlags;
    assert View(m, pd) == View(m1, pd);
  }

  lemma Loaded(m0: Machine, m1: Machine, m: Machine, pd: nat, ph: Phdr, file: seq<u8>)
    requires Inv(m0) && Inv(m1) && Loads(ph) && SegmentOk(ph, file)
    requires RangeMapped(m0, m1, pd, FirstPage(ph), EndPage(ph), PteFlags(SegmentFlags(ph)))
    requires Unmapped(m0, pd, ph)
    requires Copying(m1, m, pd, ph, file, ph.filesz)
    ensures SegmentLoaded(m0, m, pd, ph, file)
  {
    SegmentRange(ph, file);
    LoadedBytes(m0, m1, m, pd, ph, file);
    SegmentViews(m0, m1, pd, ph);
    LoadedViews(m0, m1, m, pd, ph);
    assert RangeTables(m0, m1, pd, FirstPage(ph), EndPage(ph));
    TablesGrow(m0, m1, pd, FirstPage(ph), EndPage(ph));
    NothingLost(m0, m1, pd, ph);
    hide RangeMapped, RangeTables, Accounted, UserMemory, Inv, SegmentIn, Added, Copying, SegmentFlagged, ViewsKept, Need, Missing, Tables, View;
  }

  /** One PT_LOAD segment: everything is there iff the free frames were enough for its pages and missing tables. */
  method LoadSegment(vm: Paging, pd: nat, ph: Phdr, file: seq<u8>) returns (r: int, ghost complete: bool)
    requires vm.Valid() && pd in vm.dirs && Loads(ph) && SegmentOk(ph, file)
    modifies vm`mem, vm.pmm`freePages, vm.pmm.bitmap
    ensures vm.Valid()
    ensures complete <==> Need(old(vm.M()), pd, FirstPage(ph), EndPage(ph)) <= |old(vm.M()).free|
    ensures r == if complete || Unnoticed(old(vm.M()), pd, FirstPage(ph), EndPage(ph)) then 0 else -ENOMEM
    ensures !complete ==> SegmentShort(old(vm.M()), vm.M(), pd, ph)
    ensures complete && Unmapped(old(vm.M()), pd, ph) ==> SegmentLoaded(old(vm.M()), vm.M(), pd, ph, file)
    ensures PdesOpen(old(vm.M())) ==> PdesOpen(vm.M())
  {
    hide *;
    ghost var m0 := vm.M();
    SegmentRange(ph, file);
    ValidIs(vm);
    var first, end := FirstPage(ph), EndPage(ph);
    r, complete := MapRange(vm, pd, 4096 * first, 4096 * (end - first), SegmentFlags(ph));
    assert 4096 * first / 4096 == first && (4096 * first + 4096 * (end - first)) / 4096 == end;
    ghost var m1 := vm.M();
    if PdesOpen(m0) { ReachKeepsOpen(m0, m1); }
    if r != 0 {
      IsShort(m0, m1, m1, pd, ph);
      return;
    }
    ValidIs(vm);
    CopyFile(vm, pd, ph, file);
    CopyMaps(m1, vm.M(), pd, ph, file);
    if !complete { IsShort(m0, m1, vm.M(), pd, ph); }
    if complete && Unmapped(m0, pd, ph) { Loaded(m0, m1, vm.M(), pd, ph, file); }
  }

  lemma IsShort(m0: Machine, k: Machine, m: Machine, pd: nat, ph: Phdr)
    requires RangeShort(m0, k, pd, FirstPage(ph), EndPage(ph), PteFlags(SegmentFlags(ph))) && (m == k || SameMaps(k, m))
    ensures SegmentShort(m0, m, pd, ph)
  {
    assert SameMaps(k, k);
  }

  lemma CopyMaps(m0: Machine, m: Machine, pd: nat, ph: Phdr, file: seq<u8>)
    requires SegmentOk(ph, file) && Copying(m0, m, pd, ph, file, ph.filesz)
    ensures SameMaps(m0, m) && (PdesOpen(m0) ==> PdesOpen(m))
  {
  }

  // ---------------------------------------------------------------------------------------------
  // All segments
  // ---------------------------------------------------------------------------------------------

  /** Some loadable segment from k on has a page behind that directory entry. */
  ghost predicate TouchedFrom(phdrs: seq<Phdr>, k: nat, di: nat) {
    exists j :: k <= j < |phdrs| && Loads(phdrs[j]) && Touches(di, FirstPage(phdrs[j]), EndPage(phdrs[j]))
  }

  ghost function MissingFrom(m: Machine, pd: nat, phdrs: seq<Phdr>, k: nat): set<nat> {
    set di: nat | di < 768 && TouchedFrom(phdrs, k, di) && di !in Tables(m, pd)
  }

  /** One frame for each page and each table that has to be made, for the segments from k on. */
  ghost function NeedFrom(m: Machine, pd: nat, phdrs: seq<Phdr>, k: nat): nat
    requires k <= |phdrs|
  {
    PagesFrom(phdrs, k) + |MissingFrom(m, pd, phdrs, k)|
  }

  lemma NeedSkip(m: Machine, pd: nat, phdrs: seq<Phdr>, k: nat)
    requires k < |phdrs| && !Loads(phdrs[k])
    ensures NeedFrom(m, pd, phdrs, k) == NeedFrom(m, pd, phdrs, k + 1)
  {
    forall di: nat ensures TouchedFrom(phdrs, k, di) == TouchedFrom(phdrs, k + 1, di) {}
    assert MissingFrom(m, pd, phdrs, k) == MissingFrom(m, pd, phdrs, k + 1);
  }

  lemma NeedLoad(m: Machine, n: Machine, pd: nat, phdrs: seq<Phdr>, k: nat)
    requires k < |phdrs| && Loads(phdrs[k])
    requires Tables(n, pd) == Tables(m, pd) + Missing(m, pd, FirstPage(phdrs[k]), EndPage(phdrs[k]))
    ensures NeedFrom(m, pd, phdrs, k) == Need(m, pd, FirstPage(phdrs[k]), EndPage(phdrs[k])) + NeedFrom(n, pd, phdrs, k + 1)
  {
    var now := Missing(m, pd, FirstPage(phdrs[k]), EndPage(phdrs[k]));
    var later := MissingFrom(n, pd, phdrs, k + 1);
    forall di: nat ensures TouchedFrom(phdrs, k, di) <==>
      TouchedFrom(phdrs, k + 1, di) || Touches(di, FirstPage(phdrs[k]), EndPage(phdrs[k])) {}
    assert MissingFrom(m, pd, phdrs, k) == now + later;
    assert now !! later;
    assert |now + later| == |now| + |later|;
  }

  /** Whatever loading leaves, the next segment needs no more than all that remain. */
  lemma NeedFirst(m: Machine, pd: nat, phdrs: seq<Phdr>, k: nat)
    requires k < |phdrs| && Loads(phdrs[k])
    ensures Need(m, pd, FirstPage(phdrs[k]), EndPage(phdrs[k])) <= NeedFrom(m, pd, phdrs, k)
  {
    var now := Missing(m, pd, FirstPage(phdrs[k]), EndPage(phdrs[k]));
    forall di | di in now ensures TouchedFrom(phdrs, k, di) {}
    SubsetSize(now, MissingFrom(m, pd, phdrs, k));
  }

  ghost predicate AllFlagged(m: Machine, pd: nat, phdrs: seq<Phdr>, k: nat) {
    forall j | 0 <= j < k && j < |phdrs| && Loads(phdrs[j]) :: SegmentFlagged(m, pd, phdrs[j])
  }

  /** The segments below k are loaded, the others' pages are free, and the frames left match the frames still needed. */
  ghost predicate Loading(m0: Machine, m: Machine, pd: nat, phdrs: seq<Phdr>, file: seq<u8>, k: nat)
    requires k <= |phdrs|
  {
    && AllIn(UserMemory(m, pd), phdrs[..k], file) && Apart(UserMemory(m, pd), phdrs, k) && AllFlagged(m, pd, phdrs, k)
    && |m.free| - NeedFrom(m, pd, phdrs, k) == |m0.free| - NeedFrom(m0, pd, phdrs, 0) && Accounted(m) == Accounted(m0)
  }

  lemma LoadingStart(m: Machine, pd: nat, phdrs: seq<Phdr>, file: seq<u8>)
    requires View(m, pd) == map[]
    ensures Loading(m, m, pd, phdrs, file, 0)
  {
  }

  lemma LoadingSkip(m0: Machine, m: Machine, pd: nat, phdrs: seq<Phdr>, file: seq<u8>, k: nat)
    requires k < |phdrs| && !Loads(phdrs[k]) && Loading(m0, m, pd, phdrs, file, k)
    ensures Loading(m0, m, pd, phdrs, file, k + 1)
  {
    NeedSkip(m, pd, phdrs, k);
    hide UserMemory, NeedFrom, SegmentFlagged, SegmentIn, Accounted;
    forall j | 0 <= j < k + 1 && Loads(phdrs[..k + 1][j]) ensures j < k && phdrs[..k][j] == phdrs[..k + 1][j] {}
  }

  lemma LoadingStep(m0: Machine, m: Machine, n: Machine, pd: nat, phdrs: seq<Phdr>, file: seq<u8>, k: nat)
    requires k < |phdrs| && ImageOk(phdrs, file) && Loads(phdrs[k]) && SegmentOk(phdrs[k], file)
    requires Loading(m0, m, pd, phdrs, file, k) && SegmentLoaded(m, n, pd, phdrs[k], file)
    ensures Loading(m0, n, pd, phdrs, file, k + 1)
  {
    NeedLoad(m, n, pd, phdrs, k);
    hide UserMemory, NeedFrom, SegmentIn, Need, Missing, Accounted;
    AllInStep(UserMemory(m, pd), UserMemory(n, pd), phdrs, file, k);
    forall j | 0 <= j < k && Loads(phdrs[j]) ensures SegmentFlagged(n, pd, phdrs[j]) { assert SegmentFlagged(m, pd, phdrs[j]); }
  }

  /** The next segment's pages are free, and if there is no room for it there is none for all. */
  lemma LoadingRoom(m0: Machine, m: Machine, pd: nat, phdrs: seq<Phdr>, file: seq<u8>, k: nat)
    requires k < |phdrs| && ImageOk(phdrs, file) && Loads(phdrs[k]) && Loading(m0, m, pd, phdrs, file, k)
    ensures Unmapped(m, pd, phdrs[k])
    ensures Need(m, pd, FirstPage(phdrs[k]), EndPage(phdrs[k])) > |m.free| ==> NeedFrom(m0, pd, phdrs, 0) > |m0.free|
  {
    NeedFirst(m, pd, phdrs, k);
    hide NeedFrom, UserMemory, AllIn, AllFlagged, Accounted;
  }

  /** Where the segment loop stands; lost says that a page could not be mapped and nobody noticed. */
  ghost predicate LoadState(m0: Machine, m: Machine, pd: nat, phdrs: seq<Phdr>, file: seq<u8>, k: nat, lost: bool)
    requires k <= |phdrs|
  {
    if lost then m.free == {} && LostOne(m0, m) && NeedFrom(m0, pd, phdrs, 0) > |m0.free|
    else Loading(m0, m, pd, phdrs, file, k)
  }

  /** One segment loaded or not. */
  lemma LoadStep(m0: Machine, m: Machine, n: Machine, pd: nat, phdrs: seq<Phdr>, file: seq<u8>, k: nat, lost: bool, r: int, complete: bool)
    requires k < |phdrs| && ImageOk(phdrs, file) && Loads(phdrs[k]) && SegmentOk(phdrs[k], file) && Inv(m)
    requires LoadState(m0, m, pd, phdrs, file, k, lost)
    requires complete <==> Need(m, pd, FirstPage(phdrs[k]), EndPage(phdrs[k])) <= |m.free|
    requires r == if complete || Unnoticed(m, pd, FirstPage(phdrs[k]), EndPage(phdrs[k])) then 0 else -ENOMEM
    requires !complete ==> SegmentShort(m, n, pd, phdrs[k])
    requires complete && Unmapped(m, pd, phdrs[k]) ==> SegmentLoaded(m, n, pd, phdrs[k], file)
    ensures !complete ==> LoadState(m0, n, pd, phdrs, file, k + 1, true)
    ensures complete ==> !lost && LoadState(m0, n, pd, phdrs, file, k + 1, false)
    ensures lost ==> r != 0
  {
    SegmentRange(phdrs[k], file);
    hide Inv, Unnoticed, Need, SegmentShort, Unmapped, SegmentLoaded, Loading, NeedFrom, Accounted;
    if lost {
      EmptyNoticed(m, pd, FirstPage(phdrs[k]), EndPage(phdrs[k]));
      ShortLosesNone(m, n, pd, phdrs[k]);
    } else {
      LoadingRoom(m0, m, pd, phdrs, file, k);
      if complete {
        LoadingStep(m0, m, n, pd, phdrs, file, k);
      } else {
        ShortLosesOne(m, n, pd, phdrs[k]);
        LoadingAccount(m0, m, pd, phdrs, file, k);
      }
    }
  }

  lemma LoadingAccount(m0: Machine, m: Machine, pd: nat, phdrs: seq<Phdr>, file: seq<u8>, k: nat)
    requires k <= |phdrs| && Loading(m0, m, pd, phdrs, file, k)
    ensures Accounted(m) == Accounted(m0)
  {
  }

  /** What sys_exec has made of the executable. */
  ghost predicate ImageLoaded(m: Machine, pd: nat, phdrs: seq<Phdr>, file: seq<u8>) {
    AllIn(UserMemory(m, pd), phdrs, file) && AllFlagged(m, pd, phdrs, |phdrs|)
  }

  /** Every page of a segment of type 1 is the user's, and writable exactly when the header says so. */
  ghost predicate ImageOpen(m: Machine, pd: nat, phdrs: seq<Phdr>) {
    forall j, p: nat | 0 <= j < |phdrs| && InImage(phdrs[j], p) ::
      UserPage(m, pd, p) && (WritablePage(m, pd, p) <==> phdrs[j].flags / 2 % 2 == 1)
  }

  predicate InImage(ph: Phdr, p: nat) {
    ph.kind == 1 && ph.memsz > 0 && 4096 * p < ph.vaddr + ph.memsz && ph.vaddr < 4096 * p + 4096
  }

  lemma InImagePages(ph: Phdr, p: nat)
    requires InImage(ph, p)
    ensures Loads(ph) && FirstPage(ph) <= p < EndPage(ph)
  {
  }

  lemma SegmentBits(ph: Phdr)
    ensures SegmentFlags(ph) / 8 % 2 == 1 && (SegmentFlags(ph) / 2 % 2 == 1 <==> ph.flags / 2 % 2 == 1)
  {
  }

  lemma ImageGrants(m: Machine, pd: nat, phdrs: seq<Phdr>, file: seq<u8>)
    requires ImageLoaded(m, pd, phdrs, file) && PdesOpen(m)
    ensures ImageOpen(m, pd, phdrs)
  {
    forall j, p: nat | 0 <= j < |phdrs| && InImage(phdrs[j], p)
      ensures UserPage(m, pd, p) && (WritablePage(m, pd, p) <==> phdrs[j].flags / 2 % 2 == 1)
    {
      InImagePages(phdrs[j], p);
      SegmentBits(phdrs[j]);
      assert SegmentFlagged(m, pd, phdrs[j]);
      FlagsGrant(m, pd, p, SegmentFlags(phdrs[j]));
    }
  }

  /** What the program finds at each address of a segment of type 1: the file's bytes, then zeros. */
  lemma ImageBytes(m: Machine, pd: nat, phdrs: seq<Phdr>, file: seq<u8>, j: nat, k: nat)
    requires ImageLoaded(m, pd, phdrs, file) && j < |phdrs| && phdrs[j].kind == 1 && k < phdrs[j].memsz
    ensures SegmentOk(phdrs[j], file)
    ensures var va, view := phdrs[j].vaddr + k, UserMemory(m, pd);
      && va / 4096 in view && |view[va / 4096]| == 4096
      && ByteAt(view, va) == if k < phdrs[j].filesz then file[phdrs[j].offset + k] else 0
  {
    hide UserMemory, AllFlagged;
    SegmentBytes(UserMemory(m, pd), phdrs[j], file, k);
  }

  lemma LoadingDone(m0: Machine, m: Machine, pd: nat, phdrs: seq<Phdr>, file: seq<u8>)
    requires Loading(m0, m, pd, phdrs, file, |phdrs|)
    ensures ImageLoaded(m, pd, phdrs, file) && |m.free| == |m0.free| - NeedFrom(m0, pd, phdrs, 0) && Accounted(m) == Accounted(m0)
  {
    assert phdrs[..|phdrs|] == phdrs;
    hide UserMemory, AllIn, AllFlagged, Apart, Accounted;
    assert MissingFrom(m, pd, phdrs, |phdrs|) == {};
  }

  lemma NextSegment(phdrs: seq<Phdr>, file: seq<u8>, k: nat)
    requires ImageOk(phdrs, file) && k < |phdrs|
    ensures Loads(phdrs[k]) ==> SegmentOk(phdrs[k], file)
    ensures LoadEnd(phdrs[..k + 1]) ==
      if Loads(phdrs[k]) && 4096 * EndPage(phdrs[k]) > LoadEnd(phdrs[..k]) then 4096 * EndPage(phdrs[k]) else LoadEnd(phdrs[..k])
  {
    assert phdrs[..k + 1][..k] == phdrs[..k];
  }

  /**
   * The segment loop of sys_exec on a new directory, and the break it sets. With enough free frames for all pages
   * and tables the whole image is in place and no frame is lost. Without, at most one frame is lost, and the outcome is
   * ENOMEM, with the directory gone again, unless only the very last page is missing.
   */
  method LoadSegments(vm: Paging, pd: nat, phdrs: seq<Phdr>, file: seq<u8>) returns (r: int, startBrk: nat)
    requires vm.Valid() && pd in vm.dirs && View(vm.M(), pd) == map[] && ImageOk(phdrs, file)
    modifies vm`mem, vm`dirs, vm.pmm`freePages, vm.pmm.bitmap
    ensures vm.Valid() && (r == 0 || r == -ENOMEM)
    ensures NeedFrom(old(vm.M()), pd, phdrs, 0) <= |old(vm.M()).free| ==>
      && r == 0 && ImageLoaded(vm.M(), pd, phdrs, file) && Accounted(vm.M()) == old(Accounted(vm.M()))
      && |vm.M().free| == |old(vm.M()).free| - NeedFrom(old(vm.M()), pd, phdrs, 0)
      && (PdesOpen(old(vm.M())) ==> ImageOpen(vm.M(), pd, phdrs))
    ensures NeedFrom(old(vm.M()), pd, phdrs, 0) > |old(vm.M()).free| ==>
      LostOne(old(vm.M()), vm.M()) && (r == 0 ==> vm.M().free == {})
    ensures r == 0 ==> startBrk == LoadEnd(phdrs) && vm.dirs == old(vm.dirs)
    ensures r != 0 ==> vm.dirs == old(vm.dirs) - {pd}
  {
    hide *;
    ghost var m0, lost := vm.M(), false;
    LoadStart(m0, pd, phdrs, file);
    NoSegments(phdrs);
    startBrk := 0;
    var i := 0;
    while i < |phdrs|
      invariant 0 <= i <= |phdrs| && vm.Valid() && vm.dirs == old(vm.dirs)
      invariant startBrk == LoadEnd(phdrs[..i]) && LoadState(m0, vm.M(), pd, phdrs, file, i, lost)
      invariant PdesOpen(m0) ==> PdesOpen(vm.M())
    {
      var ph := phdrs[i];
      ghost var m := vm.M();
      ValidIs(vm);
      NextSegment(phdrs, file, i);
      if Loads(ph) {
        var e, complete := LoadSegment(vm, pd, ph, file);
        LoadStep(m0, m, vm.M(), pd, phdrs, file, i, lost, e, complete);
        lost := !complete;
        if e != 0 {
          LostState(m0, vm.M(), pd, phdrs, file, i + 1);
          ghost var n := vm.M();
          Discard(vm, pd);
          SameLoss(m0, n, vm.M());
          return -ENOMEM, 0;
        }
        if 4096 * EndPage(ph) > startBrk { startBrk := 4096 * EndPage(ph); }
      } else {
        LoadSkip(m0, m, pd, phdrs, file, i, lost);
      }
      i := i + 1;
    }
    if lost {
      LostState(m0, vm.M(), pd, phdrs, file, i);
    } else {
      DoneState(m0, vm.M(), pd, phdrs, file);
      if PdesOpen(m0) { ImageGrants(vm.M(), pd, phdrs, file); }
    }
    assert phdrs[..i] == phdrs;
    r := 0;
  }

  lemma LoadStart(m: Machine, pd: nat, phdrs: seq<Phdr>, file: seq<u8>)
    requires View(m, pd) == map[]
    ensures LoadState(m, m, pd, phdrs, file, 0, false)
  {
    LoadingStart(m, pd, phdrs, file);
  }

  lemma LoadSkip(m0: Machine, m: Machine, pd: nat, phdrs: seq<Phdr>, file: seq<u8>, k: nat, lost: bool)
    requires k < |phdrs| && !Loads(phdrs[k]) && LoadState(m0, m, pd, phdrs, file, k, lost)
    ensures LoadState(m0, m, pd, phdrs, file, k + 1, lost)
  {
    if !lost { LoadingSkip(m0, m, pd, phdrs, file, k); }
    hide Loading, NeedFrom, Accounted;
  }

  lemma LostState(m0: Machine, m: Machine, pd: nat, phdrs: seq<Phdr>, file: seq<u8>, k: nat)
    requires k <= |phdrs| && LoadState(m0, m, pd, phdrs, file, k, true)
    ensures m.free == {} && LostOne(m0, m) && NeedFrom(m0, pd, phdrs, 0) > |m0.free|
  {
  }

  lemma DoneState(m0: Machine, m: Machine, pd: nat, phdrs: seq<Phdr>, file: seq<u8>)
    requires LoadState(m0, m, pd, phdrs, file, |phdrs|, false)
    ensures ImageLoaded(m, pd, phdrs, file) && |m.free| == |m0.free| - NeedFrom(m0, pd, phdrs, 0) && Accounted(m) == Accounted(m0)
  {
    LoadingDone(m0, m, pd, phdrs, file);
  }

  lemma SameLoss(m0: Machine, m: Machine, n: Machine)
    requires LostOne(m0, m) && Accounted(n) == Accounted(m)
    ensures LostOne(m0, n)
  {
  }

  lemma NoSegments(phdrs: seq<Phdr>)
    ensures LoadEnd(phdrs[..0]) == 0
  {
  }

  /** mm_destroy of the half-built address space. */
  method Discard(vm: Paging, pd: nat)
    requires vm.Valid() && pd in vm.dirs
    modifies vm`dirs, vm.pmm`freePages, vm.pmm.bitmap
    ensures vm.Valid() && vm.dirs == old(vm.dirs) - {pd} && Accounted(vm.M()) == old(Accounted(vm.M()))
  {
    ghost var m := vm.M();
    assert pd != 0 && pd != vm.kernelDir by { NotKernel(vm, pd); }
    vm.PgdirDestroy(pd);
    DestroyKeeps(m, pd, vm.M());
    MachineParts(vm);
  }
}
