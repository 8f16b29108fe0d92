/** How far pgdir_clone has got: the invariants of its two loops and how each write advances them. */
module Cloning {
  import opened Base
  import opened Pmm
  import opened PageTables
  import opened AddressSpaces

  /** The PDEs below d are copied, the others are still empty. */
  ghost predicate TablesCopied(m0: Machine, m: Machine, src: nat, dst: nat, d: nat) {
    && (forall di: nat | di < 768 :: Holds(m, Table(dst, di)) == (di < d && Holds(m0, Table(src, di))))
    && (forall di: nat | di < d && Holds(m0, Table(src, di)) ::
          FlagsOf(EntryFor(m, Table(dst, di))) == FlagsOf(EntryFor(m0, Table(src, di))))
  }

  /** Two pages with equal flag bits and equal contents. */
  ghost predicate SamePage(m0: Machine, e0: u32, m: Machine, e: u32) {
    && FlagsOf(e) == FlagsOf(e0)
    && FrameOf(e0) in m0.mem && FrameOf(e) in m.mem && m.mem[FrameOf(e)] == m0.mem[FrameOf(e0)]
  }

  ghost predicate PagesCopied(m0: Machine, m: Machine, src: nat, dst: nat, d: nat) {
    && (forall di: nat, pi: nat | di < 768 && pi < 1024 ::
          Holds(m, Leaf(dst, di, pi)) == (di < d && Holds(m0, Leaf(src, di, pi))))
    && (forall di: nat, pi: nat | di < d && Holds(m0, Leaf(src, di, pi)) ::
          SamePage(m0, EntryFor(m0, Leaf(src, di, pi)), m, EntryFor(m, Leaf(dst, di, pi))))
  }

  /** The outer loop's invariant; inflight are the frames taken and not yet linked. */
  ghost predicate Progress(m0: Machine, m: Machine, src: nat, dst: nat, d: nat, inflight: set<nat>) {
    && Inv(m0) && Inv(m) && KeepsUsed(m0, m)
    && src in m0.dirs && dst in m0.free && m.dirs == m0.dirs + {dst}
    && m.free <= m0.free && m0.free - m.free == Owned(m, dst) + inflight
    && TablesCopied(m0, m, src, dst, d) && PagesCopied(m0, m, src, dst, d)
  }

  /** The inner loop's invariant: entries of the new table t below p are filled. */
  ghost predicate Filling(m0: Machine, m: Machine, src: nat, d: nat, t: nat, p: nat) {
    && t in m0.free && t in m.mem && Fresh(m, t)
    && (forall i | p <= i < 1024 :: m.mem[t][i] == 0)
    && (forall i: nat | i < p && i < 1024 :: Present(m.mem[t][i]) == Holds(m0, Leaf(src, d, i)))
    && (forall i: nat | i < p && i < 1024 && Present(m.mem[t][i]) ::
          && SamePage(m0, EntryFor(m0, Leaf(src, d, i)), m, m.mem[t][i])
          && FrameOf(m.mem[t][i]) in m0.free && FrameOf(m.mem[t][i]) != t && Fresh(m, FrameOf(m.mem[t][i])))
    && (forall i: nat, j: nat | i < j < p && j < 1024 && Present(m.mem[t][i]) && Present(m.mem[t][j]) ::
          FrameOf(m.mem[t][i]) != FrameOf(m.mem[t][j]))
  }

  ghost predicate Names(m: Machine, t: nat, f: nat) {
    t in m.mem && exists i: nat :: i < 1024 && Present(m.mem[t][i]) && FrameOf(m.mem[t][i]) == f
  }

  /** The unlinked table and the pages it names. */
  ghost function InFlight(m: Machine, t: nat): set<nat> {
    {t} + set f: nat | f < PAGES && Names(m, t, f)
  }

  lemma Begin(m0: Machine, src: nat, dst: nat, page: Page, m: Machine)
    requires Inv(m0) && src in m0.dirs && Step(m0, Create(dst, page), m)
    ensures Progress(m0, m, src, dst, 0, {})
  {
    CreateKeeps(m0, dst, page, m);
    forall di: nat | di < 768 ensures !Holds(m, Table(dst, di)) {}
    OwnedParts(m, dst);
    assert Owned(m, dst) == {dst};
    assert m0.free - m.free == {dst};
  }

  /** A source PDE without a table needs nothing. */
  lemma Skip(m0: Machine, m: Machine, src: nat, dst: nat, d: nat)
    requires Progress(m0, m, src, dst, d, {}) && d < 768 && !Holds(m0, Table(src, d))
    ensures Progress(m0, m, src, dst, d + 1, {})
  {
    assert forall pi: nat :: !Holds(m0, Leaf(src, d, pi));
  }

  /** Writes to frames nobody owns, and frames taken, leave what is already copied alone. */
  lemma Undisturbed(m0: Machine, m: Machine, src: nat, dst: nat, d: nat, before: set<nat>, n: Machine, after: set<nat>)
    requires Progress(m0, m, src, dst, d, before)
    requires Inv(n) && SameRoles(m, n) && n.dirs == m.dirs && n.free <= m.free && KeepsUsed(m0, n)
    requires forall f: nat | f < PAGES && n.mem[f] != m.mem[f] :: f in m.free || Fresh(m, f)
    requires after == before + (m.free - n.free)
    ensures Progress(m0, n, src, dst, d, after)
  {
    assert Owned(n, dst) == Owned(m, dst) by {
      forall f: nat ensures OwnsFrame(m, dst, f) == OwnsFrame(n, dst, f) {}
    }
    assert m0.free - n.free == (m0.free - m.free) + (m.free - n.free);
    forall di: nat, pi: nat | di < d && Holds(m0, Leaf(src, di, pi))
      ensures SamePage(m0, EntryFor(m0, Leaf(src, di, pi)), n, EntryFor(n, Leaf(dst, di, pi)))
    {
      assert di < 768 && pi < 1024;
      assert Holds(m, Leaf(dst, di, pi)) && Holds(n, Leaf(dst, di, pi));
      assert SamePage(m0, EntryFor(m0, Leaf(src, di, pi)), m, EntryFor(m, Leaf(dst, di, pi)));
    }
  }

  /** pmm_alloc_zero for the next table. */
  lemma TakeTable(m0: Machine, m: Machine, src: nat, dst: nat, d: nat, t: nat)
    requires Progress(m0, m, src, dst, d, {}) && t in m.free
    ensures var n := m.(free := m.free - {t}, mem := m.mem[t := ZeroPage()]);
            Progress(m0, n, src, dst, d, InFlight(n, t)) && Filling(m0, n, src, d, t, 0)
  {
    var a := m.(free := m.free - {t});
    TakeFrame(m, t);
    StoreData(a, t, ZeroPage());
    var n := m.(free := m.free - {t}, mem := m.mem[t := ZeroPage()]);
    assert n == a.(mem := a.mem[t := ZeroPage()]);
    assert Fresh(n, t);
    assert forall f :: !Names(n, t, f);
    assert InFlight(n, t) == {t} == m.free - n.free;
    Undisturbed(m0, m, src, dst, d, {}, n, {t});
  }

  lemma SkipEntry(m0: Machine, m: Machine, src: nat, d: nat, t: nat, p: nat)
    requires Filling(m0, m, src, d, t, p) && p < 1024 && !Holds(m0, Leaf(src, d, p))
    ensures Filling(m0, m, src, d, t, p + 1)
  {
  }

  /** The machine after one page is copied into frame f and entered at index p of the new table. */
  ghost function WithEntry(m: Machine, t: nat, p: nat, f: nat, page: Page, e: u32): Machine
    requires t in m.mem && p < 1024
  {
    m.(free := m.free - {f}, mem := m.mem[f := page][t := m.mem[t][p := e]])
  }

  lemma EntryRoles(m: Machine, t: nat, p: nat, f: nat, page: Page, e: u32)
    requires Inv(m) && t in m.mem && p < 1024 && Fresh(m, t) && f in m.free
    ensures var n := WithEntry(m, t, p, f, page, e);
            Inv(n) && SameRoles(m, n) && Fresh(n, f) && Fresh(n, t) && forall g | Fresh(m, g) :: Fresh(n, g)
  {
    var a := m.(free := m.free - {f});
    TakeFrame(m, f);
    StoreData(a, f, page);
    var b := a.(mem := a.mem[f := page]);
    StoreData(b, t, m.mem[t][p := e]);
    assert WithEntry(m, t, p, f, page, e) == b.(mem := b.mem[t := m.mem[t][p := e]]);
  }

  lemma CopyProgress(m0: Machine, m: Machine, src: nat, dst: nat, d: nat, t: nat, p: nat, f: nat, page: Page, e: u32)
    requires Progress(m0, m, src, dst, d, InFlight(m, t)) && Filling(m0, m, src, d, t, p)
    requires p < 1024 && f in m.free && Present(e) && FrameOf(e) == f
    ensures var n := WithEntry(m, t, p, f, page, e); Progress(m0, n, src, dst, d, InFlight(n, t))
  {
    var n := WithEntry(m, t, p, f, page, e);
    EntryRoles(m, t, p, f, page, e);
    forall g: nat ensures Names(n, t, g) <==> Names(m, t, g) || g == f {
      if Names(m, t, g) {
        var i: nat :| i < 1024 && Present(m.mem[t][i]) && FrameOf(m.mem[t][i]) == g;
        assert i != p && n.mem[t][i] == m.mem[t][i];
      }
      if g == f { assert n.mem[t][p] == e; }
    }
    assert InFlight(n, t) == InFlight(m, t) + {f} == InFlight(m, t) + (m.free - n.free);
    Undisturbed(m0, m, src, dst, d, InFlight(m, t), n, InFlight(n, t));
  }

  lemma CopyEntry(m0: Machine, m: Machine, src: nat, dst: nat, d: nat, t: nat, p: nat, f: nat)
    requires Progress(m0, m, src, dst, d, InFlight(m, t)) && Filling(m0, m, src, d, t, p)
    requires d < 768 && p < 1024 && Holds(m0, Leaf(src, d, p)) && f in m.free && f < PAGES
    ensures var e0 := EntryFor(m0, Leaf(src, d, p));
            && FrameOf(e0) in m0.mem
            && var n := WithEntry(m, t, p, f, m0.mem[FrameOf(e0)], Entry(f, FlagsOf(e0)));
               Filling(m0, n, src, d, t, p + 1)
  {
    var e0 := EntryFor(m0, Leaf(src, d, p));
    assert FrameFor(m0, Leaf(src, d, p)) == FrameOf(e0);
    var n := WithEntry(m, t, p, f, m0.mem[FrameOf(e0)], Entry(f, FlagsOf(e0)));
    EntryRoles(m, t, p, f, m0.mem[FrameOf(e0)], Entry(f, FlagsOf(e0)));
    FlagBit(e0);
    assert n.mem[t][p] == Entry(f, FlagsOf(e0)) && n.mem[f] == m0.mem[FrameOf(e0)];
    forall i: nat | i < p ensures n.mem[t][i] == m.mem[t][i] {}
  }

  lemma FlagBit(e: u32)
    ensures Present(e) <==> FlagsOf(e) % 2 == 1
  {
  }

  /** Writing the PDE turns the unlinked table and its pages into the copy of PDE d. */
  lemma LinkCopied(m0: Machine, m: Machine, src: nat, dst: nat, d: nat, t: nat)
    requires Progress(m0, m, src, dst, d, InFlight(m, t)) && Filling(m0, m, src, d, t, 1024)
    requires d < 768 && Holds(m0, Table(src, d)) && t < PAGES
    ensures var e := Entry(t, FlagsOf(EntryFor(m0, Table(src, d))));
            dst in m.mem && Progress(m0, Store(m, dst, d, e), src, dst, d + 1, {})
  {
    assert Holds(m, Dir(dst));
    var e0 := EntryFor(m0, Table(src, d));
    FlagBit(e0);
    var e := Entry(t, FlagsOf(e0));
    assert !Holds(m, Table(dst, d));
    assert forall i: nat | i < 1024 :: Word(m, t, i) == m.mem[t][i];
    LinkTable(m, dst, d, e);
    var n := Store(m, dst, d, e);
    LinkedOwned(m, n, dst, d, t);
    assert m0.free - n.free == Owned(n, dst);
    LinkedPages(m0, m, src, dst, d, t);
  }

  lemma LinkedOwned(m: Machine, n: Machine, dst: nat, d: nat, t: nat)
    requires Inv(m) && Inv(n) && t in m.mem && t < PAGES && Holds(n, Table(dst, d)) && FrameFor(n, Table(dst, d)) == t
    requires forall i: nat | i < 1024 ::
               Holds(n, Leaf(dst, d, i)) == Present(m.mem[t][i]) && EntryFor(n, Leaf(dst, d, i)) == m.mem[t][i]
    requires !Holds(m, Table(dst, d))
    requires forall r | !BehindPde(r, dst, d) ::
               Holds(m, r) == Holds(n, r) && (Holds(m, r) ==> EntryFor(m, r) == EntryFor(n, r))
    ensures Owned(n, dst) == Owned(m, dst) + InFlight(m, t)
  {
    forall f: nat | f < PAGES ensures OwnsFrame(n, dst, f) <==> OwnsFrame(m, dst, f) || f == t || Names(m, t, f) {
      if OwnsFrame(n, dst, f) {
        var r: Role :| Holds(n, r) && r.pd == dst && FrameFor(n, r) == f;
        if !BehindPde(r, dst, d) { assert Holds(m, r); }
        else if r.Leaf? { assert Present(m.mem[t][r.pi]); }
      }
      if OwnsFrame(m, dst, f) {
        var r: Role :| Holds(m, r) && r.pd == dst && FrameFor(m, r) == f;
        assert !BehindPde(r, dst, d) && Holds(n, r);
      }
      if Names(m, t, f) {
        var i: nat :| i < 1024 && Present(m.mem[t][i]) && FrameOf(m.mem[t][i]) == f;
        assert Holds(n, Leaf(dst, d, i));
      }
    }
  }

  lemma LinkedPages(m0: Machine, m: Machine, src: nat, dst: nat, d: nat, t: nat)
    requires Progress(m0, m, src, dst, d, InFlight(m, t)) && Filling(m0, m, src, d, t, 1024)
    requires d < 768 && Holds(m0, Table(src, d)) && t < PAGES && dst in m.mem
    ensures var n := Store(m, dst, d, Entry(t, FlagsOf(EntryFor(m0, Table(src, d)))));
            TablesCopied(m0, n, src, dst, d + 1) && PagesCopied(m0, n, src, dst, d + 1) && KeepsUsed(m0, n)
  {
    assert Holds(m, Dir(dst)) && !Holds(m, Table(dst, d));
    var e := Entry(t, FlagsOf(EntryFor(m0, Table(src, d))));
    FlagBit(EntryFor(m0, Table(src, d)));
    assert forall i: nat | i < 1024 :: Word(m, t, i) == m.mem[t][i];
    LinkTable(m, dst, d, e);
    var n := Store(m, dst, d, e);
    forall di: nat, pi: nat | di < d + 1 && Holds(m0, Leaf(src, di, pi))
      ensures SamePage(m0, EntryFor(m0, Leaf(src, di, pi)), n, EntryFor(n, Leaf(dst, di, pi)))
    {
      if di < d {
        assert Holds(m, Leaf(dst, di, pi)) && Holds(n, Leaf(dst, di, pi));
        assert SamePage(m0, EntryFor(m0, Leaf(src, di, pi)), m, EntryFor(m, Leaf(dst, di, pi)));
        assert FrameFor(m, Leaf(dst, di, pi)) != dst;
      } else {
        assert Present(m.mem[t][pi]);
        assert Fresh(m, FrameOf(m.mem[t][pi]));
      }
    }
  }

  /** When both loops are done the clone is complete. */
  lemma Finish(m0: Machine, m: Machine, src: nat, dst: nat)
    requires Progress(m0, m, src, dst, 768, {})
    ensures CloneOf(m0, m, src, dst) && Step(m0, Clone(src, dst), m) && Inv(m0)
  {
    forall di: nat, pi: nat | Holds(m0, Leaf(src, di, pi))
      ensures SamePage(m0, EntryFor(m0, Leaf(src, di, pi)), m, EntryFor(m, Leaf(dst, di, pi)))
    {
    }
  }

  /** Giving up: destroying the partial copy leaves a machine that lost at most the frames in flight. */
  lemma GiveUp(m0: Machine, m: Machine, src: nat, dst: nat, d: nat, inflight: set<nat>, n: Machine)
    requires Progress(m0, m, src, dst, d, inflight) && Step(m, Destroy(dst), n)
    ensures Step(m0, Lose, n) && m0.free - n.free <= inflight
    ensures inflight == {} ==> n.free == m0.free
  {
    assert dst !in m0.dirs by { assert dst in m0.dirs ==> Holds(m0, Dir(dst)) && FrameFor(m0, Dir(dst)) == dst; }
    assert n.dirs == m0.dirs;
    DestroyKeeps(m, dst, n);
    forall f | f in Owned(m, dst) ensures f in m0.free { assert f in Owned(m, dst) + inflight; }
    forall f | f in m0.free - n.free ensures f in inflight { assert f in m0.free - m.free; }
  }

  /** Frames nobody reached before the clone are not touched by it. */
  lemma StillFresh(m0: Machine, m: Machine, src: nat, dst: nat, d: nat, inflight: set<nat>, f: nat)
    requires Progress(m0, m, src, dst, d, inflight) && Fresh(m0, f)
    ensures Fresh(m, f)
  {
    forall r | Holds(m, r) ensures FrameFor(m, r) != f {
      if r.pd == dst {
        assert OwnsFrame(m, dst, FrameFor(m, r)) && FrameFor(m, r) in Owned(m, dst);
      } else {
        KeptRoles(m0, m, r);
      }
    }
  }
}
