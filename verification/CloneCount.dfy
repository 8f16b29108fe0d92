/** How many frames pgdir_clone needs, and exactly which of them a clone that runs out of frames loses. */
module CloneCount {
  import opened Base
  import opened Pmm
  import opened PageTables
  import opened AddressSpaces
  import opened Cloning

  /** The source's tables and pages below PDE d. */
  ghost function TablesBelow(m: Machine, src: nat, d: nat): set<nat> {
    set di | di in Tables(m, src) && di < d
  }

  predicate Below(v: nat, d: nat) { v / 1024 < d }

  ghost function PagesBelow(m: Machine, src: nat, d: nat): set<nat> {
    set v | v in View(m, src).Keys && Below(v, d)
  }

  /** The frames it takes to copy the directory and everything below PDE d. */
  ghost function CostBelow(m: Machine, src: nat, d: nat): nat {
    1 + |TablesBelow(m, src, d)| + |PagesBelow(m, src, d)|
  }

  /** Too few free frames for a directory, its tables and its pages. */
  ghost predicate Short(m: Machine, src: nat) {
    |m.free| < 1 + |Tables(m, src)| + |View(m, src)|
  }

  lemma CostOfAll(m: Machine, src: nat)
    ensures CostBelow(m, src, 768) == 1 + |Tables(m, src)| + |View(m, src)|
  {
    assert TablesBelow(m, src, 768) == Tables(m, src);
    assert PagesBelow(m, src, 768) == View(m, src).Keys;
  }

  lemma CostRises(m: Machine, src: nat, d: nat, e: nat)
    requires d <= e
    ensures CostBelow(m, src, d) <= CostBelow(m, src, e)
  {
    SubsetSize(TablesBelow(m, src, d), TablesBelow(m, src, e));
    SubsetSize(PagesBelow(m, src, d), PagesBelow(m, src, e));
  }

  /** The present entries of the source's table d. */
  ghost function Entries(m: Machine, src: nat, d: nat): set<nat> {
    set i: nat | i < 1024 && Holds(m, Leaf(src, d, i))
  }

  ghost function PagesAt(m: Machine, src: nat, d: nat): set<nat> {
    set v | v in View(m, src).Keys && Below(v, d + 1) && !Below(v, d)
  }

  lemma EntryPage(m: Machine, src: nat, d: nat, i: nat)
    requires d < 768 && i in Entries(m, src, d)
    ensures 1024 * d + i in PagesAt(m, src, d) && (1024 * d + i) % 1024 == i
  {
    KeyOf(d, i);
    var v := 1024 * d + i;
    assert Leaf(src, v / 1024, v % 1024) == Leaf(src, d, i);
    assert v in View(m, src).Keys;
  }

  lemma PageEntry(m: Machine, src: nat, d: nat, v: nat)
    requires v in PagesAt(m, src, d)
    ensures v % 1024 in Entries(m, src, d) && v / 1024 == d
  {
  }

  lemma EntriesArePages(m: Machine, src: nat, d: nat)
    requires d < 768
    ensures |PagesAt(m, src, d)| == |Entries(m, src, d)|
  {
    var f := (v: nat) => v % 1024;
    forall v | v in PagesAt(m, src, d) ensures f(v) in Entries(m, src, d) && v / 1024 == d { PageEntry(m, src, d, v); }
    forall i | i in Entries(m, src, d) ensures exists v :: v in PagesAt(m, src, d) && f(v) == i {
      EntryPage(m, src, d, i);
      assert f(1024 * d + i) == i;
    }
    hide PagesAt, Entries;
    forall v, w | v in PagesAt(m, src, d) && w in PagesAt(m, src, d) && v != w ensures f(v) != f(w) {
      assert v == 1024 * (v / 1024) + v % 1024 && w == 1024 * (w / 1024) + w % 1024;
    }
    SameSize(PagesAt(m, src, d), Entries(m, src, d), f);
  }

  lemma CostOfTable(m: Machine, src: nat, d: nat)
    requires d < 768 && Holds(m, Table(src, d))
    ensures CostBelow(m, src, d + 1) == CostBelow(m, src, d) + 1 + |Entries(m, src, d)|
  {
    assert TablesBelow(m, src, d + 1) == TablesBelow(m, src, d) + {d};
    hide View, Tables, Entries;
    EntriesArePages(m, src, d);
    assert PagesBelow(m, src, d + 1) == PagesBelow(m, src, d) + PagesAt(m, src, d);
    assert PagesBelow(m, src, d) !! PagesAt(m, src, d);
    assert |PagesBelow(m, src, d) + PagesAt(m, src, d)| == |PagesBelow(m, src, d)| + |PagesAt(m, src, d)|;
  }

  /** The copy as it stands: PDEs below d done, and, when t is not 0, the entries below p of the unlinked table t. */
  ghost predicate Partial(m0: Machine, m: Machine, src: nat, dst: nat, d: nat, t: nat, p: nat) {
    && d < 768 && p < 1024 && Progress(m0, m, src, dst, d, Unlinked(m, t))
    && (t != 0 ==> Filling(m0, m, src, d, t, p) && Holds(m0, Table(src, d)))
  }

  /** The frames taken and not yet linked. */
  ghost function Unlinked(m: Machine, t: nat): set<nat> {
    if t == 0 then {} else InFlight(m, t)
  }

  lemma IsPartial(m0: Machine, m: Machine, src: nat, dst: nat, d: nat, t: nat, p: nat)
    requires d < 768 && p < 1024 && Progress(m0, m, src, dst, d, InFlight(m, t)) && Filling(m0, m, src, d, t, p)
    requires Holds(m0, Table(src, d))
    ensures t != 0 && Partial(m0, m, src, dst, d, t, p)
  {
  }

  /** No frame is left for the next table, or for the next page of the unlinked table. */
  ghost predicate Stuck(m0: Machine, m: Machine, src: nat, dst: nat, d: nat, t: nat, p: nat) {
    && Partial(m0, m, src, dst, d, t, p) && m.free == {}
    && Holds(m0, if t == 0 then Table(src, d) else Leaf(src, d, p))
  }

  lemma OwnedSoFar(m0: Machine, m: Machine, src: nat, dst: nat, d: nat, inflight: set<nat>)
    requires d <= 768 && Progress(m0, m, src, dst, d, inflight)
    ensures |Owned(m, dst)| == CostBelow(m0, src, d)
  {
    forall di: nat ensures di in Tables(m, dst) <==> di in TablesBelow(m0, src, d) {
      if di < 768 { assert Holds(m, Table(dst, di)) == (di < d && Holds(m0, Table(src, di))); }
    }
    assert Tables(m, dst) == TablesBelow(m0, src, d);
    forall v: nat ensures v in View(m, dst) <==> v in PagesBelow(m0, src, d) {
      if v < USER_PAGES {
        assert Holds(m, Leaf(dst, v / 1024, v % 1024)) == (v / 1024 < d && Holds(m0, Leaf(src, v / 1024, v % 1024)));
      }
    }
    assert View(m, dst).Keys == PagesBelow(m0, src, d);
    OwnedSize(m, dst);
  }

  /** The entries of the unlinked table filled so far. */
  ghost function Filled(m: Machine, t: nat, p: nat): set<nat> {
    set i: nat | i < 1024 && i < p && t in m.mem && Present(m.mem[t][i])
  }

  ghost function FrameAt(m: Machine, t: nat, i: nat): nat {
    if t in m.mem && i < 1024 then FrameOf(m.mem[t][i]) else 0
  }

  lemma NamedFrames(m0: Machine, m: Machine, src: nat, d: nat, t: nat, p: nat, f: nat)
    requires Filling(m0, m, src, d, t, p) && forall g | g in m0.free :: g < PAGES
    ensures f in InFlight(m, t) <==> f == t || exists i :: i in Filled(m, t, p) && FrameAt(m, t, i) == f
  {
    if f < PAGES && Names(m, t, f) {
      var i: nat :| i < 1024 && Present(m.mem[t][i]) && FrameOf(m.mem[t][i]) == f;
      assert i in Filled(m, t, p) && FrameAt(m, t, i) == f;
    }
    if i :| i in Filled(m, t, p) && FrameAt(m, t, i) == f {
      assert Names(m, t, f);
    }
  }

  lemma FilledFrames(m0: Machine, m: Machine, src: nat, d: nat, t: nat, p: nat)
    requires Filling(m0, m, src, d, t, p)
    ensures forall i, j | i in Filled(m, t, p) && j in Filled(m, t, p) && i != j :: FrameAt(m, t, i) != FrameAt(m, t, j)
    ensures forall i | i in Filled(m, t, p) :: FrameAt(m, t, i) != t && i in Entries(m0, src, d) && i < p
  {
    forall i, j | i in Filled(m, t, p) && j in Filled(m, t, p) && i != j ensures FrameAt(m, t, i) != FrameAt(m, t, j) {
      if i < j {} else {}
    }
  }

  lemma CountNamed(flying: set<nat>, t: nat, done: set<nat>, entries: set<nat>, p: nat, f: nat -> nat)
    requires forall g :: g in flying <==> g == t || exists i :: i in done && f(i) == g
    requires forall i, j | i in done && j in done && i != j :: f(i) != f(j)
    requires forall i | i in done :: f(i) != t && i in entries && i < p
    requires p in entries
    ensures 1 <= |flying| <= |entries|
  {
    var named := flying - {t};
    SameSize(done, named, f);
    assert flying == {t} + named;
    SubsetSize(done, entries - {p});
  }

  /** One frame for the unlinked table and one for each entry filled: no more than the source's table has entries. */
  lemma PagesNamed(m0: Machine, m: Machine, src: nat, d: nat, t: nat, p: nat)
    requires Filling(m0, m, src, d, t, p) && p < 1024 && Holds(m0, Leaf(src, d, p)) && forall f | f in m0.free :: f < PAGES
    ensures 1 <= |InFlight(m, t)| <= |Entries(m0, src, d)|
  {
    FilledFrames(m0, m, src, d, t, p);
    var f := (i: nat) => FrameAt(m, t, i);
    forall g ensures g in InFlight(m, t) <==> g == t || exists i :: i in Filled(m, t, p) && f(i) == g {
      NamedFrames(m0, m, src, d, t, p, g);
    }
    assert p in Entries(m0, src, d);
    hide Filling, Filled, FrameAt, InFlight, Entries, Holds;
    CountNamed(InFlight(m, t), t, Filled(m, t, p), Entries(m0, src, d), p, f);
  }

  lemma UnlinkedApart(m0: Machine, m: Machine, src: nat, dst: nat, d: nat, t: nat, p: nat)
    requires Partial(m0, m, src, dst, d, t, p)
    ensures Unlinked(m, t) !! Owned(m, dst) && Unlinked(m, t) !! m.free && Unlinked(m, t) <= m0.free
  {
    if t != 0 {
      forall f | f in InFlight(m, t) ensures Fresh(m, f) && f !in Owned(m, dst) {
        if f != t {
          assert Names(m, t, f);
          var i: nat :| i < 1024 && Present(m.mem[t][i]) && FrameOf(m.mem[t][i]) == f;
          assert i < p;
        }
      }
    }
  }

  /** What is free before a clone that gets stuck at PDE d: enough for everything below d, not for d's table and pages. */
  lemma StuckCost(m0: Machine, m: Machine, src: nat, dst: nat, d: nat, t: nat, p: nat)
    requires Stuck(m0, m, src, dst, d, t, p)
    ensures Holds(m0, Table(src, d)) && |Unlinked(m, t)| == |m0.free| - CostBelow(m0, src, d)
    ensures CostBelow(m0, src, d) <= |m0.free| < CostBelow(m0, src, d + 1)
    ensures Unlinked(m, t) == {} <==> t == 0
  {
    UnlinkedApart(m0, m, src, dst, d, t, p);
    OwnedSoFar(m0, m, src, dst, d, Unlinked(m, t));
    CostOfTable(m0, src, d);
    assert m0.free - m.free == m0.free;
    assert |Owned(m, dst) + Unlinked(m, t)| == |Owned(m, dst)| + |Unlinked(m, t)|;
    if t != 0 { PagesNamed(m0, m, src, d, t, p); }
  }

  /**
   * A clone that failed: no translation changed, and of the free frames those are lost that were taken for the PDE it
   * got stuck at, however many were left after copying everything below.
   */
  ghost predicate FailedClone(m0: Machine, n: Machine, src: nat) {
    && Step(m0, Lose, n)
    && (if m0.free == {} then n.free == {} else exists d :: LostAt(m0, n, src, d))
  }

  ghost predicate LostAt(m0: Machine, n: Machine, src: nat, d: nat) {
    && d < 768 && Holds(m0, Table(src, d))
    && CostBelow(m0, src, d) <= |m0.free| < CostBelow(m0, src, d + 1)
    && |m0.free - n.free| == |m0.free| - CostBelow(m0, src, d)
  }

  lemma AllBack(m0: Machine, m: Machine, src: nat, dst: nat, d: nat, inflight: set<nat>, n: Machine)
    requires Progress(m0, m, src, dst, d, inflight) && Step(m, Destroy(dst), n)
    requires inflight !! Owned(m, dst) && inflight !! m.free && inflight <= m0.free
    ensures m0.free - n.free == inflight && dst in m0.free
  {
    assert n.free == m.free + Owned(m, dst);
    hide Progress, Owned, Inv;
  }

  lemma LostHere(m0: Machine, n: Machine, src: nat, d: nat, lost: set<nat>)
    requires Step(m0, Lose, n) && d < 768 && Holds(m0, Table(src, d)) && m0.free - n.free == lost && m0.free != {}
    requires CostBelow(m0, src, d) <= |m0.free| < CostBelow(m0, src, d + 1) <= 1 + |Tables(m0, src)| + |View(m0, src)|
    requires |lost| == |m0.free| - CostBelow(m0, src, d)
    ensures FailedClone(m0, n, src) && Short(m0, src)
  {
    hide CostBelow, Holds, Step, View, Tables;
    assert LostAt(m0, n, src, d);
  }

  /** Destroying the partial copy gives back all but the frames not yet linked. */
  lemma Abandon(m0: Machine, m: Machine, src: nat, dst: nat, d: nat, t: nat, p: nat, n: Machine)
    requires Stuck(m0, m, src, dst, d, t, p) && Step(m, Destroy(dst), n)
    ensures m0.free - n.free == Unlinked(m, t) && FailedClone(m0, n, src) && Short(m0, src)
  {
    GiveUp(m0, m, src, dst, d, Unlinked(m, t), n);
    UnlinkedApart(m0, m, src, dst, d, t, p);
    StuckCost(m0, m, src, dst, d, t, p);
    CostRises(m0, src, d + 1, 768);
    CostOfAll(m0, src);
    AllBack(m0, m, src, dst, d, Unlinked(m, t), n);
    hide *;
    LostHere(m0, n, src, d, Unlinked(m, t));
  }

  /** The free frames run out exactly before the table of a present PDE. */
  ghost predicate EndsBefore(m: Machine, src: nat, d: nat) {
    d < 768 && Holds(m, Table(src, d)) && |m.free| == CostBelow(m, src, d)
  }

  lemma LostNothing(m0: Machine, n: Machine, src: nat, d: nat, e: nat)
    requires LostAt(m0, n, src, d) && EndsBefore(m0, src, e)
    ensures |m0.free - n.free| == 0
  {
    if e <= d { CostRises(m0, src, e, d); } else { CostRises(m0, src, d + 1, e); }
    hide CostBelow, Holds;
  }

  /**
   * A failed clone gives back every frame if and only if there was none to take, or the free frames ran out exactly
   * before the table of some present PDE. A caller can count this beforehand.
   */
  lemma RestoredIff(m0: Machine, n: Machine, src: nat)
    requires FailedClone(m0, n, src)
    ensures n.free == m0.free <==> m0.free == {} || exists d :: EndsBefore(m0, src, d)
  {
    assert n.free <= m0.free;
    hide CostBelow, Holds, Step;
    if m0.free != {} {
      var d :| LostAt(m0, n, src, d);
      assert n.free == m0.free <==> m0.free - n.free == {};
      if |m0.free - n.free| == 0 { assert EndsBefore(m0, src, d); }
      if e :| EndsBefore(m0, src, e) { LostNothing(m0, n, src, d, e); }
    }
  }

  lemma NothingTaken(m: Machine, src: nat)
    requires Inv(m) && m.free == {}
    ensures FailedClone(m, m, src) && Short(m, src)
  {
  }

  lemma NotShort(m: Machine, n: Machine, src: nat)
    requires |m.free| == |n.free| + 1 + |Tables(m, src)| + |View(m, src)|
    ensures !Short(m, src)
  {
  }

  lemma StuckProgress(m0: Machine, m: Machine, src: nat, dst: nat, d: nat, t: nat, p: nat)
    requires Stuck(m0, m, src, dst, d, t, p)
    ensures Progress(m0, m, src, dst, d, Unlinked(m, t))
  {
  }

  lemma NoneUnlinked(m: Machine)
    ensures Unlinked(m, 0) == {}
  {
  }

  /** Directory 1 with one table in frame 2 and one page in frame 3, and two free frames. */
  ghost function OnePage(): Machine {
    var table := ZeroPage()[0 := Entry(3, 7)];
    var dir := ZeroPage()[0 := Entry(2, 7)];
    Machine({4, 5}, (map f: nat | f < PAGES && Within(0, f, PAGES) :: ZeroPage())[1 := dir][2 := table], {1})
  }

  lemma OnePageRoles(r: Role)
    ensures Holds(OnePage(), r) <==> r == Dir(1) || r == Table(1, 0) || r == Leaf(1, 0, 0)
    ensures FrameFor(OnePage(), Dir(1)) == 1 && FrameFor(OnePage(), Table(1, 0)) == 2 && FrameFor(OnePage(), Leaf(1, 0, 0)) == 3
  {
  }

  lemma OnePageInv()
    ensures Inv(OnePage())
  {
    var m := OnePage();
    forall r ensures Holds(m, r) <==> r == Dir(1) || r == Table(1, 0) || r == Leaf(1, 0, 0) { OnePageRoles(r); }
    OnePageRoles(Dir(1));
    assert WellFormed(m) && m.free == {4, 5};
    hide Holds, OnePage, FrameFor, WellFormed;
  }

  lemma OnePageView()
    ensures Tables(OnePage(), 1) == {0} && View(OnePage(), 1).Keys == {0}
    ensures forall d :: Holds(OnePage(), Table(1, d)) <==> d == 0
  {
    var m := OnePage();
    forall r ensures Holds(m, r) <==> r == Dir(1) || r == Table(1, 0) || r == Leaf(1, 0, 0) { OnePageRoles(r); }
    hide Holds, OnePage, EntryFor;
    assert 0 in Tables(m, 1) && 0 in View(m, 1);
  }

  /** Its clone finds a frame for the directory and one for the table, none for the page, and loses the table's. */
  lemma LosingClone(n: Machine)
    ensures Inv(OnePage()) && 1 in OnePage().dirs && Short(OnePage(), 1)
    ensures FailedClone(OnePage(), n, 1) ==> n.free != OnePage().free
  {
    OnePageInv();
    OnePageView();
    var m := OnePage();
    assert m.free == {4, 5};
    hide Holds, View, Tables, Step, Inv, OnePage;
    assert |m.free| == 2;
    assert TablesBelow(m, 1, 0) == {} && PagesBelow(m, 1, 0) == {};
    assert |View(m, 1)| == |View(m, 1).Keys|;
    forall d ensures !EndsBefore(m, 1, d) {}
    if FailedClone(m, n, 1) { RestoredIff(m, n, 1); }
  }
}
