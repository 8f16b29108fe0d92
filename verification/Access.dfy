/** What a program may do with a page: the processor takes the AND of the bits of its PDE and its PTE. */
module Access {
  import opened Base
  import opened Pmm
  import opened PageTables
  import opened AddressSpaces

  /** Bit 2 of both entries: user mode may touch the page. */
  ghost predicate UserPage(m: Machine, pd: nat, v: nat) {
    v in View(m, pd) && Word(m, pd, v / 1024) / 4 % 2 == 1 && View(m, pd)[v] / 4 % 2 == 1
  }

  /** Bit 1 of both entries: the page may be written. */
  ghost predicate WritablePage(m: Machine, pd: nat, v: nat) {
    v in View(m, pd) && Word(m, pd, v / 1024) / 2 % 2 == 1 && View(m, pd)[v] / 2 % 2 == 1
  }

  /** Every present user PDE has PRESENT, WRITE and USER set, so that the PTE alone decides. */
  ghost predicate PdesOpen(m: Machine) {
    forall pd: nat, di: nat | Holds(m, Table(pd, di)) :: Word(m, pd, di) % 8 == 7
  }

  /** The pages of a range are the user's, and writable or not. */
  ghost predicate RangeOpen(m: Machine, pd: nat, v0: nat, v: nat, write: bool) {
    forall w: nat | v0 <= w < v :: UserPage(m, pd, w) && (WritablePage(m, pd, w) <==> write)
  }

  lemma Odd(k: nat, x: nat)
    ensures (2 * k + x) % 2 == x % 2
  {
  }

  lemma OpenBits(e: nat)
    requires e % 8 == 7
    ensures e / 2 % 2 == 1 && e / 4 % 2 == 1
  {
    var q := e / 8;
    assert e / 2 == 4 * q + 3 && e / 4 == 2 * q + 1;
    Odd(2 * q, 3);
    Odd(q, 1);
  }

  /** The address part of an entry does not reach its low bits. */
  lemma FlagBits(e: nat)
    ensures e % 4096 / 4 % 2 == e / 4 % 2 && e % 4096 / 2 % 2 == e / 2 % 2
  {
    var h, l := e / 4096, e % 4096;
    assert e == 4096 * h + l;
    assert e / 4 == 1024 * h + l / 4;
    assert e / 2 == 2048 * h + l / 2;
    Odd(512 * h, l / 4);
    Odd(1024 * h, l / 2);
  }

  /** The PTE alone decides what the program may do. */
  lemma PteDecides(m: Machine, pd: nat, v: nat)
    requires PdesOpen(m) && v in View(m, pd)
    ensures UserPage(m, pd, v) <==> FlagsOf(View(m, pd)[v]) / 4 % 2 == 1
    ensures WritablePage(m, pd, v) <==> FlagsOf(View(m, pd)[v]) / 2 % 2 == 1
  {
    assert Holds(m, Leaf(pd, v / 1024, v % 1024));
    assert Holds(m, Table(pd, v / 1024));
    OpenBits(Word(m, pd, v / 1024));
    FlagBits(View(m, pd)[v]);
    hide View, Holds, Word;
  }

  lemma SameTables(m: Machine, n: Machine)
    requires PdesOpen(m)
    requires forall pd: nat, di: nat | Holds(n, Table(pd, di)) :: Holds(m, Table(pd, di)) && Word(n, pd, di) == Word(m, pd, di)
    ensures PdesOpen(n)
  {
  }

  lemma OtherTable(m: Machine, pd: nat, di: nat, t: nat, n: Machine, q: nat, e: nat)
    requires Inv(m) && Step(m, NewTable(pd, di, t), n) && Holds(n, Table(q, e)) && (q, e) != (pd, di)
    ensures Holds(m, Table(q, e)) && Word(n, q, e) == Word(m, q, e)
  {
    assert Holds(m, Dir(q)) && FrameFor(m, Dir(q)) == q;
    assert q != t;
    hide Inv;
  }

  lemma Seven(k: nat)
    ensures (8 * k + 7) % 8 == 7
  {
  }

  lemma TableEntry(t: nat)
    requires t < PAGES
    ensures Entry(t, NEW_TABLE_FLAGS) == 4096 * t + 7 && Entry(t, NEW_TABLE_FLAGS) % 8 == 7
  {
    Seven(512 * t);
    hide FrameOf, FlagsOf, Present;
    assert Entry(t, NEW_TABLE_FLAGS) == 4096 * t + 7;
  }

  lemma StoredWord(m: Machine, f: nat, i: nat, e: u32)
    requires f in m.mem && i < 1024
    ensures Word(Store(m, f, i, e), f, i) == e
  {
  }

  lemma ThisTable(m: Machine, pd: nat, di: nat, t: nat, n: Machine)
    requires Step(m, NewTable(pd, di, t), n)
    ensures Holds(n, Table(pd, di)) && Word(n, pd, di) == 4096 * t + 7 && Word(n, pd, di) % 8 == 7
  {
    TableEntry(t);
    StoredWord(m.(free := m.free - {t}, mem := m.mem[t := ZeroPage()]), pd, di, Entry(t, NEW_TABLE_FLAGS));
    assert n.dirs == m.dirs;
    hide Word, Store, Entry, ZeroPage;
  }

  /** A table made by get_pte is linked with its low three bits set. */
  lemma NewTableOpen(m: Machine, pd: nat, di: nat, t: nat, n: Machine)
    requires Inv(m) && PdesOpen(m) && Step(m, NewTable(pd, di, t), n)
    ensures PdesOpen(n) && Holds(n, Table(pd, di)) && Word(n, pd, di) == 4096 * t + 7
  {
    ThisTable(m, pd, di, t, n);
    forall q: nat, e: nat | Holds(n, Table(q, e)) && (q, e) != (pd, di) ensures Holds(m, Table(q, e)) && Word(n, q, e) == Word(m, q, e) {
      OtherTable(m, pd, di, t, n, q, e);
    }
    hide Inv, Step, Word, Holds;
    forall q: nat, e: nat | Holds(n, Table(q, e)) ensures Word(n, q, e) % 8 == 7 {
      if (q, e) != (pd, di) { assert Holds(m, Table(q, e)); }
    }
  }

  lemma KeptOpen(m: Machine, n: Machine)
    requires Inv(m) && PdesOpen(m) && KeepsUsed(m, n)
    ensures forall pd: nat, di: nat | pd in m.dirs && Holds(n, Table(pd, di)) :: Word(n, pd, di) % 8 == 7
  {
    forall pd: nat, di: nat | pd in m.dirs && Holds(n, Table(pd, di)) ensures Word(n, pd, di) % 8 == 7 {
      KeptRoles(m, n, Table(pd, di));
    }
  }

  lemma LowThree(e: nat, d: nat)
    requires e % 4096 == d % 4096 && d % 8 == 7
    ensures e % 8 == 7
  {
    Eights(e / 4096, e % 4096);
    Eights(d / 4096, d % 4096);
  }

  lemma Eights(h: nat, l: nat)
    ensures (4096 * h + l) % 8 == l % 8
  {
    assert 4096 * h + l == 8 * (512 * h + l / 8) + l % 8;
  }

  lemma ClonedTable(m: Machine, src: nat, dst: nat, n: Machine, di: nat)
    requires PdesOpen(m) && CloneOf(m, n, src, dst) && Holds(n, Table(dst, di))
    ensures Word(n, dst, di) % 8 == 7
  {
    assert Holds(m, Table(src, di));
    assert FlagsOf(EntryFor(n, Table(dst, di))) == FlagsOf(EntryFor(m, Table(src, di)));
    LowThree(Word(n, dst, di), Word(m, src, di));
  }

  lemma CloneOpen(m: Machine, src: nat, dst: nat, n: Machine)
    requires Inv(m) && PdesOpen(m) && Step(m, Clone(src, dst), n)
    ensures PdesOpen(n)
  {
    KeptOpen(m, n);
    assert n.dirs == m.dirs + {dst};
    forall di: nat | Holds(n, Table(dst, di)) ensures Word(n, dst, di) % 8 == 7 { ClonedTable(m, src, dst, n, di); }
    hide CloneOf, Inv;
  }

  lemma StepOpen(m: Machine, op: Op, n: Machine)
    requires Inv(m) && PdesOpen(m) && Step(m, op, n)
    ensures PdesOpen(n)
  {
    match op
    case Create(pd, page) =>
      CreateRoles(m, pd, page, n);
      forall q: nat, e: nat | Holds(n, Table(q, e)) ensures Holds(m, Table(q, e)) && Word(n, q, e) == Word(m, q, e) {}
    case NewTable(pd, di, t) => NewTableOpen(m, pd, di, t, n);
    case MapFresh(pd, di, pi, f, page, flags) =>
      MapKeeps(m, pd, di, pi, f, page, flags, n);
      forall q: nat, e: nat | Holds(n, Table(q, e)) ensures Word(n, q, e) == EntryFor(n, Table(q, e)) {}
    case Unmap(pd, di, pi) =>
      UnmapKeeps(m, pd, di, pi, n);
      forall q: nat, e: nat | Holds(n, Table(q, e)) ensures Word(n, q, e) == EntryFor(n, Table(q, e)) {}
    case WritePage(pd, di, pi, page) =>
      StoreData(m, FrameFor(m, Leaf(pd, di, pi)), page);
      forall q: nat, e: nat | Holds(n, Table(q, e)) ensures Word(n, q, e) == EntryFor(n, Table(q, e)) {}
    case Lose => KeptOpen(m, n);
    case Clone(src, dst) => CloneOpen(m, src, dst, n);
    case Destroy(pd) =>
      forall q: nat, e: nat | Holds(n, Table(q, e)) ensures Holds(m, Table(q, e)) && Word(n, q, e) == Word(m, q, e) {}
  }

  /**
   * At every point of every run each present user PDE has its low three bits set, so a page is the user's, or writable,
   * exactly when its own entry says so.
   */
  lemma {:induction false} AccessInEveryRun(run: seq<Machine>, k: nat)
    requires IsRun(run) && Inv(run[0]) && PdesOpen(run[0]) && k < |run|
    ensures forall pd: nat, di: nat | Holds(run[k], Table(pd, di)) :: Word(run[k], pd, di) % 8 == 7
    ensures forall pd: nat, v: nat | v in View(run[k], pd) ::
              && (UserPage(run[k], pd, v) <==> FlagsOf(View(run[k], pd)[v]) / 4 % 2 == 1)
              && (WritablePage(run[k], pd, v) <==> FlagsOf(View(run[k], pd)[v]) / 2 % 2 == 1)
  {
    OpenInEveryRun(run, k);
    forall pd: nat, v: nat | v in View(run[k], pd)
      ensures UserPage(run[k], pd, v) <==> FlagsOf(View(run[k], pd)[v]) / 4 % 2 == 1
      ensures WritablePage(run[k], pd, v) <==> FlagsOf(View(run[k], pd)[v]) / 2 % 2 == 1
    {
      PteDecides(run[k], pd, v);
    }
  }

  lemma {:induction false} OpenInEveryRun(run: seq<Machine>, k: nat)
    requires IsRun(run) && Inv(run[0]) && PdesOpen(run[0]) && k < |run|
    ensures PdesOpen(run[k])
  {
    hide PdesOpen, Step, Inv;
    if k > 0 {
      OpenInEveryRun(run, k - 1);
      OwnershipInEveryRun(run, k - 1);
      assert Next(run[k - 1], run[k - 1 + 1]);
      var op :| Step(run[k - 1], op, run[k]);
      StepOpen(run[k - 1], op, run[k]);
    }
  }
}
