/** Many address spaces sharing one allocator: the steps the paging code takes, and what every run
    of them keeps. */
module AddressSpaces {
  import opened Pmm
  import opened PageTables

  /** PDE_PRESENT | PDE_WRITE | PDE_USER: the flags get_pte gives a new table. */
  const NEW_TABLE_FLAGS: nat := 7

  /** The steps. Every frame taken is named, so a step holds for whatever free frame was chosen. */
  datatype Op =
    | Create(dir: nat, page: Page)                                   // pgdir_create
    | NewTable(dir: nat, di: nat, frame: nat)                        // get_pte with create
    | MapFresh(dir: nat, di: nat, pi: nat, frame: nat, page: Page, flags: nat) // alloc + map_page
    | Unmap(dir: nat, di: nat, pi: nat)                              // the munmap body on a mapped page
    | WritePage(dir: nat, di: nat, pi: nat, page: Page)              // data written through a mapping
    | Lose                                                           // frames taken and never linked
    | Clone(src: nat, dst: nat)                                      // pgdir_clone, success
    | Destroy(dir: nat)                                              // pgdir_destroy

  /** memory of frames that were in use at m is the same at n. */
  ghost predicate KeepsUsed(m: Machine, n: Machine) {
    forall f: nat | f < PAGES && f !in m.free :: f in m.mem && f in n.mem && n.mem[f] == m.mem[f]
  }

  /** dst is a copy of src on frames that were free: same tables, same pages, same flag bits, same
      contents; everything in use before is untouched. */
  ghost predicate CloneOf(m: Machine, n: Machine, src: nat, dst: nat) {
    && WellFormed(n) && KeepsUsed(m, n)
    && src in m.dirs && dst in m.free && n.dirs == m.dirs + {dst}
    && n.free <= m.free && m.free - n.free == Owned(n, dst)
    && (forall r, q | Holds(n, r) && Holds(n, q) && r != q && r.pd == dst && q.pd == dst :: FrameFor(n, r) != FrameFor(n, q))
    && (forall r | Holds(n, r) && r.pd == dst :: 0 < FrameFor(n, r) < PAGES)
    && (forall di: nat | di < USER_PDES ::
          && Holds(n, Table(dst, di)) == Holds(m, Table(src, di))
          && (Holds(m, Table(src, di)) ==>
                FlagsOf(EntryFor(n, Table(dst, di))) == FlagsOf(EntryFor(m, Table(src, di)))))
    && (forall di: nat, pi: nat | di < USER_PDES && pi < ENTRIES ::
          Holds(n, Leaf(dst, di, pi)) == Holds(m, Leaf(src, di, pi)))
    && (forall di: nat, pi: nat | Holds(m, Leaf(src, di, pi)) ::
          && FlagsOf(EntryFor(n, Leaf(dst, di, pi))) == FlagsOf(EntryFor(m, Leaf(src, di, pi)))
          && FrameFor(m, Leaf(src, di, pi)) in m.mem && FrameFor(n, Leaf(dst, di, pi)) in n.mem
          && n.mem[FrameFor(n, Leaf(dst, di, pi))] == m.mem[FrameFor(m, Leaf(src, di, pi))])
  }

  ghost predicate Step(m: Machine, op: Op, n: Machine) {
    match op
    case Create(pd, page) =>
      && pd in m.free && (forall di | 0 <= di < USER_PDES :: !Present(page[di]))
      && n == Machine(m.free - {pd}, m.mem[pd := page], m.dirs + {pd})
    case NewTable(pd, di, t) =>
      && pd in m.dirs && pd in m.mem && di < USER_PDES && !Present(Word(m, pd, di)) && t in m.free && t < PAGES && t != pd
      && n == Store(m.(free := m.free - {t}, mem := m.mem[t := ZeroPage()]), pd, di, Entry(t, NEW_TABLE_FLAGS))
    case MapFresh(pd, di, pi, f, page, flags) =>
      && Holds(m, Table(pd, di)) && FrameFor(m, Table(pd, di)) in m.mem && pi < ENTRIES
      && f in m.free && f < PAGES && flags < 4096 && flags % 2 == 1
      && n == Store(m.(free := m.free - {f}, mem := m.mem[f := page]), FrameFor(m, Table(pd, di)), pi, Entry(f, flags))
    case Unmap(pd, di, pi) =>
      && Holds(m, Leaf(pd, di, pi)) && FrameFor(m, Table(pd, di)) in m.mem
      && n == Store(m.(free := m.free + {FrameFor(m, Leaf(pd, di, pi))}), FrameFor(m, Table(pd, di)), pi, 0)
    case WritePage(pd, di, pi, page) =>
      && Holds(m, Leaf(pd, di, pi)) && n == m.(mem := m.mem[FrameFor(m, Leaf(pd, di, pi)) := page])
    case Lose =>
      WellFormed(n) && KeepsUsed(m, n) && n.dirs == m.dirs && n.free <= m.free
    case Clone(src, dst) =>
      CloneOf(m, n, src, dst)
    case Destroy(pd) =>
      pd in m.dirs && n == Machine(m.free + Owned(m, pd), m.mem, m.dirs - {pd})
  }

  // ---------------------------------------------------------------------------------------------
  // One step keeps the invariant
  // ---------------------------------------------------------------------------------------------

  /** Roles live on frames in use, so memory kept there keeps every role. */
  lemma KeptRoles(m: Machine, n: Machine, r: Role)
    requires Inv(m) && KeepsUsed(m, n) && r.pd in m.dirs && r.pd in n.dirs
    ensures Holds(m, r) == Holds(n, r) && (Holds(m, r) ==> EntryFor(m, r) == EntryFor(n, r))
  {
    assert Holds(m, Dir(r.pd)) && FrameFor(m, Dir(r.pd)) == r.pd;
    if r.Leaf? && Holds(m, Table(r.pd, r.di)) {
      assert FrameFor(m, Table(r.pd, r.di)) !in m.free;
    }
  }

  ghost predicate Used(m: Machine, f: nat) {
    exists r :: Holds(m, r) && FrameFor(m, r) == f
  }

  /** Frames that can still be reached: free, or in the role of a live directory. */
  ghost function Accounted(m: Machine): set<nat> {
    set f: nat | f < PAGES && (f in m.free || Used(m, f))
  }

  /** When everything free or used before is so afterwards, except the lost frames, and nothing else is, exactly the lost
      frames have left the account. */
  lemma AccountedAfter(m: Machine, n: Machine, lost: set<nat>)
    requires Inv(m) && Inv(n)
    requires forall f: nat | f < PAGES && f in m.free && f !in lost :: f in n.free || Used(n, f)
    requires forall r | Holds(m, r) && FrameFor(m, r) !in lost :: FrameFor(m, r) in n.free || Used(n, FrameFor(m, r))
    requires forall f | f in n.free :: (f in m.free || Used(m, f)) && f !in lost
    requires forall r | Holds(n, r) :: FrameFor(n, r) in m.free || Used(m, FrameFor(n, r))
    requires forall r | Holds(n, r) :: FrameFor(n, r) !in lost
    ensures Accounted(n) == Accounted(m) - lost
  {
    forall f: nat | f < PAGES ensures f in Accounted(n) <==> f in Accounted(m) - lost {
    }
  }

  lemma CreateRoles(m: Machine, pd: nat, page: Page, n: Machine)
    requires Inv(m) && Step(m, Create(pd, page), n)
    ensures pd !in m.dirs && Holds(n, Dir(pd)) && FrameFor(n, Dir(pd)) == pd
    ensures forall r: Role | Holds(n, r) && r.pd == pd :: r == Dir(pd)
    ensures forall r: Role | r.pd != pd :: Holds(m, r) == Holds(n, r) && (Holds(m, r) ==> EntryFor(m, r) == EntryFor(n, r))
  {
    assert pd !in m.dirs by { if pd in m.dirs { assert Holds(m, Dir(pd)); } }
    forall r: Role | r.pd != pd
      ensures Holds(m, r) == Holds(n, r) && (Holds(m, r) ==> EntryFor(m, r) == EntryFor(n, r))
    {
      if r.pd in m.dirs { KeptRoles(m, n, r); }
    }
  }

  lemma CreateKeeps(m: Machine, pd: nat, page: Page, n: Machine)
    requires Inv(m) && Step(m, Create(pd, page), n)
    ensures Inv(n) && Accounted(n) == Accounted(m)
    ensures View(n, pd) == map[] && forall q | q in m.dirs :: View(n, q) == View(m, q)
  {
    CreateRoles(m, pd, page, n);
    forall q | q in m.dirs ensures View(n, q) == View(m, q) { SameView(m, n, q); }
    assert Used(n, pd);
    forall r | Holds(m, r) ensures Used(n, FrameFor(m, r)) { assert Holds(n, r); }
    forall r | Holds(n, r) && r != Dir(pd) ensures Used(m, FrameFor(n, r)) { assert Holds(m, r); }
    AccountedAfter(m, n, {});
  }

  lemma NewTableKeeps(m: Machine, pd: nat, di: nat, t: nat, n: Machine)
    requires Inv(m) && Step(m, NewTable(pd, di, t), n)
    ensures Inv(n) && Accounted(n) == Accounted(m)
    ensures Holds(n, Table(pd, di)) && Tables(n, pd) == Tables(m, pd) + {di}
    ensures forall q :: View(n, q) == View(m, q)
  {
    var a := m.(free := m.free - {t});
    TakeFrame(m, t);
    StoreData(a, t, ZeroPage());
    var b := a.(mem := a.mem[t := ZeroPage()]);
    assert Fresh(b, t);
    ViewAfterTable(b, pd, di, Entry(t, NEW_TABLE_FLAGS));
    forall q ensures View(b, q) == View(m, q) && Tables(b, q) == Tables(m, q) { SameView(m, b, q); }
    LinkTable(b, pd, di, Entry(t, NEW_TABLE_FLAGS));
    assert FrameFor(n, Table(pd, di)) == t && Used(n, t);
    assert forall pi: nat | pi < ENTRIES :: Word(b, t, pi) == 0 && !Holds(n, Leaf(pd, di, pi));
    forall r | Holds(m, r) ensures Used(n, FrameFor(m, r)) {
      assert !BehindPde(r, pd, di) && Holds(b, r) && Holds(n, r);
    }
    forall r | Holds(n, r) && r != Table(pd, di) ensures Used(m, FrameFor(n, r)) {
      assert Holds(b, r) && Holds(m, r);
    }
    AccountedAfter(m, n, {});
  }

  lemma MapKeeps(m: Machine, pd: nat, di: nat, pi: nat, f: nat, page: Page, flags: nat, n: Machine)
    requires Inv(m) && Step(m, MapFresh(pd, di, pi, f, page, flags), n)
    ensures Inv(n) && Holds(n, Leaf(pd, di, pi)) && FrameFor(n, Leaf(pd, di, pi)) == f
    ensures forall r | r != Leaf(pd, di, pi) ::
              Holds(m, r) == Holds(n, r) && (Holds(m, r) ==> EntryFor(m, r) == EntryFor(n, r))
    ensures View(n, pd) == View(m, pd)[1024 * di + pi := Entry(f, flags)] && n.mem[f] == page
    ensures forall q | q != pd :: View(n, q) == View(m, q)
    ensures forall q :: Tables(n, q) == Tables(m, q)
  {
    var a := m.(free := m.free - {f});
    TakeFrame(m, f);
    StoreData(a, f, page);
    var b := a.(mem := a.mem[f := page]);
    assert Fresh(b, f);
    StorePte(b, pd, di, pi, Entry(f, flags));
    ViewFromRoles(m, n, pd, di, pi);
  }

  /** Mapping over an already mapped page loses the frame that was there; otherwise nothing is lost. */
  lemma MapAccount(m: Machine, pd: nat, di: nat, pi: nat, f: nat, page: Page, flags: nat, n: Machine)
    requires Inv(m) && Step(m, MapFresh(pd, di, pi, f, page, flags), n)
    ensures Accounted(n) == Accounted(m) - (if Holds(m, Leaf(pd, di, pi)) then {FrameFor(m, Leaf(pd, di, pi))} else {})
  {
    MapKeeps(m, pd, di, pi, f, page, flags, n);
    var l := Leaf(pd, di, pi);
    var lost := if Holds(m, l) then {FrameFor(m, l)} else {};
    assert Used(n, f);
    forall r | Holds(m, r) && r != l ensures Used(n, FrameFor(m, r)) { assert Holds(n, r); }
    forall r | Holds(n, r) && r != l ensures Used(m, FrameFor(n, r)) && FrameFor(n, r) !in lost {
      assert Holds(m, r);
    }
    AccountedAfter(m, n, lost);
  }

  lemma UnmapKeeps(m: Machine, pd: nat, di: nat, pi: nat, n: Machine)
    requires Inv(m) && Step(m, Unmap(pd, di, pi), n)
    ensures Inv(n) && !Holds(n, Leaf(pd, di, pi))
    ensures forall r | r != Leaf(pd, di, pi) ::
              Holds(m, r) == Holds(n, r) && (Holds(m, r) ==> EntryFor(m, r) == EntryFor(n, r))
    ensures View(n, pd) == View(m, pd) - {1024 * di + pi}
    ensures forall q | q != pd :: View(n, q) == View(m, q)
    ensures forall q :: Tables(n, q) == Tables(m, q)
  {
    var f := FrameFor(m, Leaf(pd, di, pi));
    var a := Store(m, FrameFor(m, Table(pd, di)), pi, 0);
    assert Holds(m, Table(pd, di));
    StorePte(m, pd, di, pi, 0);
    assert Fresh(a, f);
    GiveFrame(a, f);
    assert n == a.(free := a.free + {f});
    ViewFromRoles(m, n, pd, di, pi);
  }

  lemma UnmapAccount(m: Machine, pd: nat, di: nat, pi: nat, n: Machine)
    requires Inv(m) && Step(m, Unmap(pd, di, pi), n)
    ensures Accounted(n) == Accounted(m)
  {
    UnmapKeeps(m, pd, di, pi, n);
    var l := Leaf(pd, di, pi);
    assert Used(m, FrameFor(m, l));
    forall r | Holds(m, r) && r != l ensures Used(n, FrameFor(m, r)) { assert Holds(n, r); }
    forall r | Holds(n, r) ensures Used(m, FrameFor(n, r)) { assert r != l && Holds(m, r); }
    AccountedAfter(m, n, {});
  }

  lemma WriteKeeps(m: Machine, pd: nat, di: nat, pi: nat, page: Page, n: Machine)
    requires Inv(m) && Step(m, WritePage(pd, di, pi, page), n)
    ensures Inv(n) && Accounted(n) == Accounted(m)
    ensures forall q :: View(n, q) == View(m, q)
  {
    StoreData(m, FrameFor(m, Leaf(pd, di, pi)), page);
    forall q ensures View(n, q) == View(m, q) { SameView(m, n, q); }
    assert forall f :: Used(m, f) == Used(n, f);
    AccountedAfter(m, n, {});
  }

  /** Frames taken and not linked are lost, and nothing else changes. */
  lemma LoseKeeps(m: Machine, n: Machine)
    requires Inv(m) && Step(m, Lose, n)
    ensures Inv(n) && Accounted(n) == Accounted(m) - (m.free - n.free)
    ensures forall q :: View(n, q) == View(m, q) && Tables(n, q) == Tables(m, q)
  {
    forall r: Role 
      ensures Holds(m, r) == Holds(n, r) && (Holds(m, r) ==> EntryFor(m, r) == EntryFor(n, r))
    {
      if r.pd in m.dirs { KeptRoles(m, n, r); }
    }
    forall q ensures View(n, q) == View(m, q) && Tables(n, q) == Tables(m, q) { SameView(m, n, q); }
    forall f ensures Used(m, f) == Used(n, f) {
      if Used(m, f) { var r :| Holds(m, r) && FrameFor(m, r) == f; assert Holds(n, r) && Holds(m, r); }
      if Used(n, f) { var r :| Holds(n, r) && FrameFor(n, r) == f; assert Holds(n, r) && Holds(m, r); }
    }
    AccountedAfter(m, n, m.free - n.free);
  }

  lemma CloneKeeps(m: Machine, src: nat, dst: nat, n: Machine)
    requires Inv(m) && Step(m, Clone(src, dst), n)
    ensures Inv(n) && Accounted(n) == Accounted(m)
    ensures forall q | q in m.dirs :: View(n, q) == View(m, q) && Tables(n, q) == Tables(m, q)
  {
    assert dst !in m.dirs by { if dst in m.dirs { assert Holds(m, Dir(dst)); } }
    forall r: Role | r.pd in m.dirs 
      ensures Holds(m, r) == Holds(n, r) && (Holds(m, r) ==> EntryFor(m, r) == EntryFor(n, r))
    { KeptRoles(m, n, r); }
    forall q | q in m.dirs ensures View(n, q) == View(m, q) && Tables(n, q) == Tables(m, q) { SameView(m, n, q); }
    forall r | Holds(n, r) && r.pd == dst ensures FrameFor(n, r) in m.free - n.free {
      assert OwnsFrame(n, dst, FrameFor(n, r));
    }
    forall r | Holds(n, r) && r.pd != dst ensures Holds(m, r) && EntryFor(n, r) == EntryFor(m, r) && Used(m, FrameFor(n, r)) {
    }
    forall r | Holds(m, r) ensures Used(n, FrameFor(m, r)) { assert Holds(n, r); }
    forall f | f in m.free && f !in n.free ensures Used(n, f) {
      assert f in Owned(n, dst);
    }
    AccountedAfter(m, n, {});
  }

  lemma DestroyKeeps(m: Machine, pd: nat, n: Machine)
    requires Inv(m) && Step(m, Destroy(pd), n)
    ensures Inv(n) && Accounted(n) == Accounted(m)
    ensures forall q | q != pd :: View(n, q) == View(m, q) && Tables(n, q) == Tables(m, q)
  {
    forall r: Role ensures Holds(n, r) == (Holds(m, r) && r.pd != pd) && EntryFor(n, r) == EntryFor(m, r) {}
    forall q | q != pd ensures View(n, q) == View(m, q) && Tables(n, q) == Tables(m, q) { SameView(m, n, q); }
    forall r | Holds(n, r) ensures FrameFor(n, r) !in n.free {
      assert forall q: Role | Holds(m, q) && q.pd == pd :: FrameFor(m, q) != FrameFor(m, r);
      assert !OwnsFrame(m, pd, FrameFor(m, r));
    }
    forall r | Holds(m, r) ensures FrameFor(m, r) in n.free || Used(n, FrameFor(m, r)) {
      if r.pd == pd { assert OwnsFrame(m, pd, FrameFor(m, r)); } else { assert Holds(n, r); }
    }
    forall f | f in n.free ensures f in m.free || Used(m, f) {}
    AccountedAfter(m, n, {});
  }

  // ---------------------------------------------------------------------------------------------
  // Whole runs
  // ---------------------------------------------------------------------------------------------

  lemma StepKeepsInv(m: Machine, op: Op, n: Machine)
    requires Inv(m) && Step(m, op, n)
    ensures Inv(n)
  {
    match op
    case Create(pd, page) => CreateKeeps(m, pd, page, n);
    case NewTable(pd, di, t) => NewTableKeeps(m, pd, di, t, n);
    case MapFresh(pd, di, pi, f, page, flags) => MapKeeps(m, pd, di, pi, f, page, flags, n);
    case Unmap(pd, di, pi) => UnmapKeeps(m, pd, di, pi, n);
    case WritePage(pd, di, pi, page) => WriteKeeps(m, pd, di, pi, page, n);
    case Lose => LoseKeeps(m, n);
    case Clone(src, dst) => CloneKeeps(m, src, dst, n);
    case Destroy(pd) => DestroyKeeps(m, pd, n);
  }

  ghost predicate Next(m: Machine, n: Machine) {
    exists op :: Step(m, op, n)
  }

  ghost predicate IsRun(run: seq<Machine>) {
    |run| > 0 && forall i | 0 <= i < |run| - 1 :: Next(run[i], run[i + 1])
  }

  /** At every point of every run, over any number of address spaces: two different uses are two
      different frames, and a frame in use is never on offer. */
  lemma {:induction false} OwnershipInEveryRun(run: seq<Machine>, k: nat)
    requires IsRun(run) && Inv(run[0]) && k < |run|
    ensures Inv(run[k])
    ensures forall r, q | Holds(run[k], r) && Holds(run[k], q) && FrameFor(run[k], r) == FrameFor(run[k], q) :: r == q
    ensures forall r | Holds(run[k], r) :: FrameFor(run[k], r) !in run[k].free
  {
    if k > 0 {
      OwnershipInEveryRun(run, k - 1);
      assert Next(run[k - 1], run[k - 1 + 1]);
      var op :| Step(run[k - 1], op, run[k]);
      StepKeepsInv(run[k - 1], op, run[k]);
    }
  }

  /** The steps after which some frame can no longer be reached: mapping over a mapped page, and
      taking frames that are never linked. */
  ghost predicate Leaks(m: Machine, op: Op, n: Machine) {
    || (op.MapFresh? && Holds(m, Leaf(op.dir, op.di, op.pi)))
    || (op.Lose? && n.free != m.free)
  }

  lemma NoLeakIff(m: Machine, op: Op, n: Machine)
    requires Inv(m) && Step(m, op, n)
    ensures Accounted(n) == Accounted(m) <==> !Leaks(m, op, n)
    ensures Accounted(n) <= Accounted(m)
  {
    match op
    case Create(pd, page) => CreateKeeps(m, pd, page, n);
    case NewTable(pd, di, t) => NewTableKeeps(m, pd, di, t, n);
    case MapFresh(pd, di, pi, f, page, flags) =>
      MapAccount(m, pd, di, pi, f, page, flags, n);
      var l := Leaf(pd, di, pi);
      if Holds(m, l) { assert Used(m, FrameFor(m, l)) && FrameFor(m, l) in Accounted(m); }
    case Unmap(pd, di, pi) => UnmapAccount(m, pd, di, pi, n);
    case WritePage(pd, di, pi, page) => WriteKeeps(m, pd, di, pi, page, n);
    case Lose =>
      LoseKeeps(m, n);
      if n.free != m.free {
        assert exists f :: f in m.free && f !in n.free;
        var f :| f in m.free && f !in n.free;
        assert f in Accounted(m);
      }
    case Clone(src, dst) => CloneKeeps(m, src, dst, n);
    case Destroy(pd) => DestroyKeeps(m, pd, n);
  }

  /** A run none of whose steps leaks ends with every frame still free or owned. */
  lemma {:induction false} LeakFreeRun(run: seq<Machine>, ops: seq<Op>)
    requires |run| == |ops| + 1 && Inv(run[0])
    requires forall i | 0 <= i < |ops| :: Step(run[i], ops[i], run[i + 1])
    requires forall i | 0 <= i < |ops| :: !Leaks(run[i], ops[i], run[i + 1])
    ensures Inv(run[|ops|]) && Accounted(run[|ops|]) == Accounted(run[0])
  {
    if ops != [] {
      var k := |ops| - 1;
      LeakFreeRun(run[..|ops|], ops[..k]);
      StepKeepsInv(run[k], ops[k], run[k + 1]);
      NoLeakIff(run[k], ops[k], run[k + 1]);
    }
  }

  // ---------------------------------------------------------------------------------------------
  // Clone and destroy
  // ---------------------------------------------------------------------------------------------

  lemma CloneSameDomain(m: Machine, src: nat, dst: nat, n: Machine)
    requires Inv(m) && CloneOf(m, n, src, dst)
    ensures View(n, dst).Keys == View(m, src).Keys && Tables(n, dst) == Tables(m, src)
  {
    forall v: nat | v < USER_PAGES
      ensures Holds(n, Leaf(dst, v / 1024, v % 1024)) == Holds(m, Leaf(src, v / 1024, v % 1024))
    {
      assert v / 1024 < USER_PDES && v % 1024 < ENTRIES;
    }
    forall di: nat | di < USER_PDES ensures Holds(n, Table(dst, di)) == Holds(m, Table(src, di)) {}
  }

  /** A clone translates the same pages with the same flags to equal contents. */
  lemma CloneIsACopy(m: Machine, src: nat, dst: nat, n: Machine)
    requires Inv(m) && Step(m, Clone(src, dst), n)
    ensures View(n, dst).Keys == View(m, src).Keys && Tables(n, dst) == Tables(m, src)
    ensures forall v | v in View(m, src) ::
              && FlagsOf(View(n, dst)[v]) == FlagsOf(View(m, src)[v])
              && FrameOf(View(m, src)[v]) in m.mem && FrameOf(View(n, dst)[v]) in n.mem
              && n.mem[FrameOf(View(n, dst)[v])] == m.mem[FrameOf(View(m, src)[v])]
  {
    CloneSameDomain(m, src, dst, n);
    forall v | v in View(m, src)
      ensures FlagsOf(View(n, dst)[v]) == FlagsOf(View(m, src)[v])
      ensures FrameOf(View(m, src)[v]) in m.mem && FrameOf(View(n, dst)[v]) in n.mem
      ensures n.mem[FrameOf(View(n, dst)[v])] == m.mem[FrameOf(View(m, src)[v])]
    {
      assert Holds(m, Leaf(src, v / 1024, v % 1024));
    }
  }

  /** The copy lives on frames of its own, leaves the source alone, and costs one frame for the
      directory, one per table and one per page of the source. */
  lemma CloneCost(m: Machine, src: nat, dst: nat, n: Machine)
    requires Inv(m) && Step(m, Clone(src, dst), n)
    ensures View(n, src) == View(m, src) && Owned(n, dst) !! Owned(m, src)
    ensures |m.free| == |n.free| + 1 + |Tables(m, src)| + |View(m, src)|
  {
    CloneKeeps(m, src, dst, n);
    CloneSameDomain(m, src, dst, n);
    assert |View(n, dst)| == |View(m, src)| by {
      assert |View(n, dst).Keys| == |View(n, dst)| && |View(m, src).Keys| == |View(m, src)|;
    }
    OwnedSize(n, dst);
    assert m.free == n.free + (m.free - n.free);
    OwnedNotFree(m, src);
  }

  lemma OwnedNotFree(m: Machine, pd: nat)
    requires Inv(m)
    ensures Owned(m, pd) !! m.free
  {
  }

  /** pgdir_destroy undoes pgdir_clone: the free pages and every other space are as before. */
  lemma CloneThenDestroy(m: Machine, src: nat, dst: nat, n: Machine, k: Machine)
    requires Inv(m) && Step(m, Clone(src, dst), n) && Step(n, Destroy(dst), k)
    ensures k.free == m.free && k.dirs == m.dirs
    ensures forall q | q in m.dirs :: View(k, q) == View(m, q) && Tables(k, q) == Tables(m, q)
  {
    CloneKeeps(m, src, dst, n);
    DestroyKeeps(n, dst, k);
    assert dst !in m.dirs by { assert dst in m.dirs ==> Holds(m, Dir(dst)) && FrameFor(m, Dir(dst)) == dst; }
  }
}
