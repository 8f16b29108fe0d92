/** What mapping and unmapping a range of pages does to the view of a directory, page by page. */
module Ranges {
  import opened Pmm
  import opened PageTables
  import opened AddressSpaces

  // ---------------------------------------------------------------------------------------------
  // One zeroed page
  // ---------------------------------------------------------------------------------------------

  /** Taking the page first and the table second reaches what the steps in the other order reach. */
  lemma Commute(m: Machine, pd: nat, di: nat, f: nat, t: nat)
    requires Inv(m) && pd in m.dirs && di < 768 && f in m.free && t in m.free && f != t
    requires !Present(Word(m, pd, di))
    ensures pd in m.mem && pd != f && pd != t && t < PAGES
    ensures var a := m.(free := m.free - {f}, mem := m.mem[f := ZeroPage()]);
            var mid := Store(a.(free := a.free - {t}, mem := a.mem[t := ZeroPage()]), pd, di, Entry(t, NEW_TABLE_FLAGS));
            var b := Store(m.(free := m.free - {t}, mem := m.mem[t := ZeroPage()]), pd, di, Entry(t, NEW_TABLE_FLAGS));
            mid == b.(free := b.free - {f}, mem := b.mem[f := ZeroPage()])
  {
    assert Holds(m, Dir(pd)) && FrameFor(m, Dir(pd)) == pd;
    var a := m.(free := m.free - {f}, mem := m.mem[f := ZeroPage()]);
    var mid := Store(a.(free := a.free - {t}, mem := a.mem[t := ZeroPage()]), pd, di, Entry(t, NEW_TABLE_FLAGS));
    var b := Store(m.(free := m.free - {t}, mem := m.mem[t := ZeroPage()]), pd, di, Entry(t, NEW_TABLE_FLAGS));
    var c := b.(free := b.free - {f}, mem := b.mem[f := ZeroPage()]);
    assert mid.free == c.free;
    assert mid.mem == c.mem;
  }

  /** Page v of pd now maps a zeroed frame that was free; other views are unchanged. */
  ghost predicate ViewAdded(m: Machine, n: Machine, pd: nat, v: nat, flags: nat)
    requires flags < 4096
  {
    && (exists f: nat :: f in m.free && f < PAGES && f in n.mem && n.mem[f] == ZeroPage() && View(n, pd) == View(m, pd)[v := Entry(f, flags)])
    && (forall q | q != pd :: View(n, q) == View(m, q))
  }

  /** Contents that some translation of m leads to are the same at n. */
  ghost predicate KeepsContents(m: Machine, n: Machine) {
    forall q: nat, w: nat | w in View(m, q) :: KeptPage(m, n, q, w)
  }

  /** At most the table of page v was added, and every frame taken is a page or that table. */
  ghost predicate TableAdded(m: Machine, n: Machine, pd: nat, v: nat) {
    && Tables(n, pd) == Tables(m, pd) + {v / 1024}
    && (forall q | q != pd :: Tables(n, q) == Tables(m, q))
    && n.free <= m.free && n.dirs == m.dirs
    && |m.free| + |Tables(m, pd)| == |n.free| + |Tables(n, pd)| + 1
  }

  ghost predicate PageAdded(m: Machine, n: Machine, pd: nat, v: nat, flags: nat)
    requires flags < 4096
  {
    && ViewAdded(m, n, pd, v, flags) && TableAdded(m, n, pd, v) && KeepsContents(m, n)
    && Accounted(n) == Accounted(m) - (if v in View(m, pd) then {FrameOf(View(m, pd)[v])} else {})
  }

  lemma MapKeepsContents(m: Machine, pd: nat, di: nat, pi: nat, f: nat, flags: nat, n: Machine)
    requires Inv(m) && Step(m, MapFresh(pd, di, pi, f, ZeroPage(), flags), n)
    ensures KeepsContents(m, n)
  {
    forall q: nat, w: nat | w in View(m, q) ensures KeptPage(m, n, q, w) {
      var l := Leaf(q, w / 1024, w % 1024);
      assert Holds(m, l) && FrameFor(m, l) == FrameOf(View(m, q)[w]);
      assert FrameFor(m, l) != FrameFor(m, Table(pd, di)) && FrameFor(m, l) != f;
    }
  }

  lemma MapAddsView(m: Machine, pd: nat, v: nat, f: nat, flags: nat, n: Machine)
    requires Inv(m) && v < USER_PAGES && flags < 4096
    requires Step(m, MapFresh(pd, v / 1024, v % 1024, f, ZeroPage(), flags), n)
    ensures Inv(n) && ViewAdded(m, n, pd, v, flags)
    ensures forall q :: Tables(n, q) == Tables(m, q)
  {
    MapKeeps(m, pd, v / 1024, v % 1024, f, ZeroPage(), flags, n);
    assert 1024 * (v / 1024) + v % 1024 == v;
    hide View, Inv, Holds;
    assert f in m.free && f < PAGES && f in n.mem && n.mem[f] == ZeroPage() && View(n, pd) == View(m, pd)[v := Entry(f, flags)];
  }

  lemma MapAddsTable(m: Machine, pd: nat, v: nat, f: nat, flags: nat, n: Machine)
    requires Step(m, MapFresh(pd, v / 1024, v % 1024, f, ZeroPage(), flags), n)
    requires forall q :: Tables(n, q) == Tables(m, q)
    ensures TableAdded(m, n, pd, v)
  {
    assert v / 1024 in Tables(m, pd);
    assert Tables(m, pd) + {v / 1024} == Tables(m, pd);
    assert |n.free| == |m.free| - 1;
  }

  /** alloc + map_page with the table already there. */
  lemma AddMapped(m: Machine, pd: nat, v: nat, f: nat, flags: nat, n: Machine)
    requires Inv(m) && v < USER_PAGES && flags < 4096
    requires Step(m, MapFresh(pd, v / 1024, v % 1024, f, ZeroPage(), flags), n)
    ensures Inv(n) && PageAdded(m, n, pd, v, flags)
  {
    MapAddsView(m, pd, v, f, flags, n);
    MapAddsTable(m, pd, v, f, flags, n);
    MapAccount(m, pd, v / 1024, v % 1024, f, ZeroPage(), flags, n);
    MapKeepsContents(m, pd, v / 1024, v % 1024, f, flags, n);
    assert v in View(m, pd) <==> Holds(m, Leaf(pd, v / 1024, v % 1024));
    hide Accounted, KeepsContents, Inv, ViewAdded, TableAdded, Step;
  }

  /** get_pte first creating the table, then the page. */
  lemma AddBoth(m: Machine, pd: nat, v: nat, t: nat, b: Machine, f: nat, flags: nat, n: Machine)
    requires Inv(m) && v < USER_PAGES && flags < 4096
    requires Step(m, NewTable(pd, v / 1024, t), b)
    requires Step(b, MapFresh(pd, v / 1024, v % 1024, f, ZeroPage(), flags), n)
    ensures Inv(n) && PageAdded(m, n, pd, v, flags)
  {
    var di := v / 1024;
    NewTableKeeps(m, pd, di, t, b);
    AddMapped(b, pd, v, f, flags, n);
    TableAddedOthers(m, pd, di, t, b);
    assert di !in Tables(m, pd);
    assert |b.free| == |m.free| - 1 && |Tables(b, pd)| == |Tables(m, pd)| + 1;
    assert Tables(n, pd) == Tables(m, pd) + {di};
  }

  lemma TableAddedOthers(m: Machine, pd: nat, di: nat, t: nat, b: Machine)
    requires Inv(m) && Step(m, NewTable(pd, di, t), b)
    ensures forall q | q != pd :: Tables(b, q) == Tables(m, q)
    ensures forall q: nat, w: nat | w in View(m, q) :: KeptPage(m, b, q, w)
  {
    assert Holds(m, Dir(pd)) && FrameFor(m, Dir(pd)) == pd;
    forall q | q != pd ensures Tables(b, q) == Tables(m, q) {
      forall d: nat | d < USER_PDES ensures Holds(b, Table(q, d)) == Holds(m, Table(q, d)) {
        if q in m.dirs { assert Holds(m, Dir(q)) && FrameFor(m, Dir(q)) == q; }
      }
    }
    forall q: nat, w: nat | w in View(m, q)
      ensures KeptPage(m, b, q, w)
    {
      var l := Leaf(q, w / 1024, w % 1024);
      assert Holds(m, l) && FrameFor(m, l) == FrameOf(View(m, q)[w]);
    }
  }

  // ---------------------------------------------------------------------------------------------
  // A range of zeroed pages
  // ---------------------------------------------------------------------------------------------

  /** The frames that mapping over [v0, v) displaced. */
  ghost function Displaced(m: Machine, pd: nat, v0: nat, v: nat): set<nat> {
    set w: nat | w in View(m, pd) && Within(v0, w, v) :: FrameOf(View(m, pd)[w])
  }

  ghost predicate ZeroMapped(m: Machine, pd: nat, w: nat, flags: nat) {
    && w in View(m, pd) && FlagsOf(View(m, pd)[w]) == flags
    && FrameOf(View(m, pd)[w]) in m.mem && m.mem[FrameOf(View(m, pd)[w])] == ZeroPage()
  }

  /** Pages [v0, v) of pd are mapped to zeroed frames; every other translation is as before. */
  ghost predicate RangeViews(m0: Machine, m: Machine, pd: nat, v0: nat, v: nat, flags: nat) {
    && View(m, pd).Keys == View(m0, pd).Keys + Range(v0, v)
    && (forall w: nat | v0 <= w < v :: ZeroMapped(m, pd, w, flags))
    && (forall w | w in View(m0, pd) && !Within(v0, w, v) :: View(m, pd)[w] == View(m0, pd)[w])
    && (forall q | q != pd :: View(m, q) == View(m0, q))
  }

  /** Tables of touched PDEs exist, no others appeared, and frames are conserved: each page and each
      new table took one. */
  ghost predicate RangeTables(m0: Machine, m: Machine, pd: nat, v0: nat, v: nat) {
    && m.dirs == m0.dirs && m.free <= m0.free
    && (forall q | q != pd :: Tables(m, q) == Tables(m0, q))
    && (forall w: nat | v0 <= w < v :: w / 1024 in Tables(m, pd))
    && Tables(m0, pd) <= Tables(m, pd)
    && (forall di | di in Tables(m, pd) && di !in Tables(m0, pd) :: exists w: nat :: v0 <= w < v && w / 1024 == di)
    && |m.free| + |Tables(m, pd)| + (v - v0) == |m0.free| + |Tables(m0, pd)|
  }

  /** Contents mapped before are untouched, except where the range replaced the mapping. */
  ghost predicate RangeContents(m0: Machine, m: Machine, pd: nat, v0: nat, v: nat) {
    forall q: nat, w: nat | w in View(m0, q) && Outside(q, w, pd, v0, v) :: KeptPage(m0, m, q, w)
  }

  predicate Outside(q: nat, w: nat, pd: nat, v0: nat, v: nat) { q != pd || !Within(v0, w, v) }

  /** The frame page w of q had at m holds the same bytes at n. */
  ghost predicate KeptPage(m: Machine, n: Machine, q: nat, w: nat)
    requires w in View(m, q)
  {
    var f := FrameOf(View(m, q)[w]); f in m.mem && f in n.mem && n.mem[f] == m.mem[f]
  }

  ghost predicate RangeMapped(m0: Machine, m: Machine, pd: nat, v0: nat, v: nat, flags: nat) {
    && v0 <= v
    && RangeViews(m0, m, pd, v0, v, flags) && RangeTables(m0, m, pd, v0, v) && RangeContents(m0, m, pd, v0, v)
    && Accounted(m) == Accounted(m0) - Displaced(m0, pd, v0, v)
  }

  lemma RangeStart(m: Machine, pd: nat, v: nat, flags: nat)
    requires Inv(m)
    ensures RangeMapped(m, m, pd, v, v, flags)
  {
    assert Displaced(m, pd, v, v) == {};
    assert Range(v, v) == {};
    forall q: nat, w: nat | w in View(m, q) ensures FrameOf(View(m, q)[w]) in m.mem {
      var l := Leaf(q, w / 1024, w % 1024);
      assert Holds(m, l) && FrameFor(m, l) == FrameOf(View(m, q)[w]);
    }
  }

  lemma ExtendViews(m0: Machine, m: Machine, pd: nat, v0: nat, v: nat, flags: nat, n: Machine)
    requires v0 <= v && flags < 4096
    requires RangeViews(m0, m, pd, v0, v, flags) && ViewAdded(m, n, pd, v, flags) && KeepsContents(m, n)
    ensures RangeViews(m0, n, pd, v0, v + 1, flags)
  {
    hide View;
    var f: nat :| f in m.free && f < PAGES && f in n.mem && n.mem[f] == ZeroPage() && View(n, pd) == View(m, pd)[v := Entry(f, flags)];
    assert View(n, pd).Keys == View(m0, pd).Keys + Range(v0, v + 1) by {
      RangeStep(View(m0, pd).Keys, v0, v);
      assert View(n, pd).Keys == View(m, pd).Keys + {v};
    }
    forall w: nat | v0 <= w < v + 1 ensures ZeroMapped(n, pd, w, flags) {
      if w < v { assert ZeroMapped(m, pd, w, flags); }
    }
    forall w | w in View(m0, pd) && !Within(v0, w, v + 1) ensures View(n, pd)[w] == View(m0, pd)[w] {
      assert !Within(v0, w, v);
    }
  }

  lemma ExtendAccount(m0: Machine, m: Machine, pd: nat, v0: nat, v: nat, flags: nat, n: Machine)
    requires v0 <= v && RangeViews(m0, m, pd, v0, v, flags)
    requires Accounted(m) == Accounted(m0) - Displaced(m0, pd, v0, v)
    requires Accounted(n) == Accounted(m) - (if v in View(m, pd) then {FrameOf(View(m, pd)[v])} else {})
    ensures Accounted(n) == Accounted(m0) - Displaced(m0, pd, v0, v + 1)
  {
    hide View, Accounted;
    assert v !in Range(v0, v);
    assert v in View(m, pd).Keys <==> v in View(m0, pd).Keys;
    if v in View(m0, pd) { assert !Within(v0, v, v) && View(m, pd)[v] == View(m0, pd)[v]; }
    assert Displaced(m0, pd, v0, v + 1) ==
           Displaced(m0, pd, v0, v) + if v in View(m0, pd) then {FrameOf(View(m0, pd)[v])} else {} by {
      if v in View(m0, pd) { assert Within(v0, v, v + 1); }
      forall w | w in View(m0, pd) ensures Within(v0, w, v + 1) <==> Within(v0, w, v) || w == v {}
    }
  }

  lemma ExtendTables(m0: Machine, m: Machine, pd: nat, v0: nat, v: nat, n: Machine)
    requires v0 <= v && RangeTables(m0, m, pd, v0, v) && TableAdded(m, n, pd, v)
    ensures RangeTables(m0, n, pd, v0, v + 1)
  {
    hide Tables;
    forall di | di in Tables(n, pd) && di !in Tables(m0, pd) ensures exists w: nat :: v0 <= w < v + 1 && w / 1024 == di {
      if di in Tables(m, pd) { var w: nat :| v0 <= w < v && w / 1024 == di; assert w < v + 1; }
      else { assert v / 1024 == di; }
    }
  }

  lemma ExtendContents(m0: Machine, m: Machine, pd: nat, v0: nat, v: nat, flags: nat, n: Machine)
    requires v0 <= v && RangeViews(m0, m, pd, v0, v, flags) && RangeContents(m0, m, pd, v0, v) && KeepsContents(m, n)
    ensures RangeContents(m0, n, pd, v0, v + 1)
  {
    hide View;
    forall q: nat, w: nat | w in View(m0, q) && Outside(q, w, pd, v0, v + 1) ensures KeptPage(m0, n, q, w) {
      assert Outside(q, w, pd, v0, v);
      assert w in View(m, q) by { if q == pd { assert w in View(m0, pd).Keys + Range(v0, v); } }
      assert View(m, q)[w] == View(m0, q)[w];
      assert KeptPage(m0, m, q, w) && KeptPage(m, n, q, w);
    }
  }

  lemma ExtendRange(m0: Machine, m: Machine, pd: nat, v0: nat, v: nat, flags: nat, n: Machine)
    requires RangeMapped(m0, m, pd, v0, v, flags) && flags < 4096 && PageAdded(m, n, pd, v, flags)
    ensures RangeMapped(m0, n, pd, v0, v + 1, flags)
  {
    hide RangeViews, RangeTables, RangeContents, ViewAdded, TableAdded, KeepsContents, View, Accounted, Displaced;
    ExtendViews(m0, m, pd, v0, v, flags, n);
    ExtendAccount(m0, m, pd, v0, v, flags, n);
    ExtendTables(m0, m, pd, v0, v, n);
    ExtendContents(m0, m, pd, v0, v, flags, n);
  }

  // ---------------------------------------------------------------------------------------------
  // How many frames a range needs
  // ---------------------------------------------------------------------------------------------

  /** Page frames of table di meet [v, stop). */
  predicate Touches(di: nat, v: nat, stop: nat) {
    v < stop && v < 1024 * di + 1024 && 1024 * di < stop
  }

  ghost function Missing(m: Machine, pd: nat, v: nat, stop: nat): set<nat> {
    set di: nat | di < USER_PDES && Touches(di, v, stop) && di !in Tables(m, pd)
  }

  /** One frame per page, one per table that has to be created. */
  ghost function Need(m: Machine, pd: nat, v: nat, stop: nat): nat
    requires v <= stop
  {
    stop - v + |Missing(m, pd, v, stop)|
  }

  ghost function PageNeed(m: Machine, pd: nat, v: nat): nat {
    if v / 1024 in Tables(m, pd) then 1 else 2
  }

  lemma NeedStep(m: Machine, pd: nat, v: nat, stop: nat, flags: nat, n: Machine)
    requires v < stop <= USER_PAGES && flags < 4096 && PageAdded(m, n, pd, v, flags)
    ensures Need(m, pd, v, stop) == PageNeed(m, pd, v) + Need(n, pd, v + 1, stop)
  {
    var di := v / 1024;
    forall d: nat | d != di ensures Touches(d, v, stop) == Touches(d, v + 1, stop) {}
    assert Touches(di, v, stop) && di < USER_PDES;
    assert Missing(n, pd, v + 1, stop) == Missing(m, pd, v, stop) - {di};
  }

  lemma NeedAtLeast(m: Machine, pd: nat, v: nat, stop: nat)
    requires v < stop <= USER_PAGES
    ensures Need(m, pd, v, stop) >= PageNeed(m, pd, v) + (stop - v - 1)
    ensures stop == v + 1 ==> Need(m, pd, v, stop) == PageNeed(m, pd, v)
  {
    var di := v / 1024;
    assert Touches(di, v, stop) && di < USER_PDES;
    if di !in Tables(m, pd) {
      assert di in Missing(m, pd, v, stop);
      if stop == v + 1 { assert Missing(m, pd, v, stop) == {di}; }
    } else if stop == v + 1 {
      assert Missing(m, pd, v, stop) == {};
    }
  }

  /** The last page would be the first use of a table that does not exist yet. */
  ghost predicate LastOpensTable(m: Machine, pd: nat, v0: nat, stop: nat) {
    v0 < stop && (stop - 1) / 1024 !in Tables(m, pd) && ((stop - 1) % 1024 == 0 || stop - 1 == v0)
  }

  lemma LastStillOpens(m0: Machine, m: Machine, pd: nat, v0: nat, v: nat, stop: nat, flags: nat)
    requires RangeMapped(m0, m, pd, v0, v, flags) && v < stop
    ensures LastOpensTable(m, pd, v0, stop) == LastOpensTable(m0, pd, v0, stop)
    ensures v == stop - 1 && v / 1024 !in Tables(m, pd) ==> LastOpensTable(m, pd, v0, stop)
  {
    if v == stop - 1 && v > v0 && v % 1024 != 0 {
      assert (v - 1) / 1024 == v / 1024;
    }
  }

  // ---------------------------------------------------------------------------------------------
  // A range unmapped
  // ---------------------------------------------------------------------------------------------

  /** Page v is gone from the view of pd and its frame, if it had one, is free again. */
  ghost predicate PageDropped(m: Machine, n: Machine, pd: nat, v: nat) {
    && View(n, pd) == View(m, pd) - {v}
    && (forall q | q != pd :: View(n, q) == View(m, q))
    && (forall q :: Tables(n, q) == Tables(m, q)) && n.dirs == m.dirs
    && n.free == m.free + (if v in View(m, pd) then {FrameOf(View(m, pd)[v])} else {})
    && (v in View(m, pd) ==> FrameOf(View(m, pd)[v]) !in m.free)
    && Accounted(n) == Accounted(m) && KeepsContents(m, n)
  }

  lemma DropMapped(m: Machine, pd: nat, v: nat, n: Machine)
    requires Inv(m) && v < USER_PAGES && Step(m, Unmap(pd, v / 1024, v % 1024), n)
    ensures Inv(n) && PageDropped(m, n, pd, v)
  {
    var l := Leaf(pd, v / 1024, v % 1024);
    assert 1024 * (v / 1024) + v % 1024 == v;
    UnmapKeeps(m, pd, v / 1024, v % 1024, n);
    UnmapAccount(m, pd, v / 1024, v % 1024, n);
    UnmapKeepsContents(m, pd, v / 1024, v % 1024, n);
    assert v in View(m, pd) && FrameOf(View(m, pd)[v]) == FrameFor(m, l) && FrameFor(m, l) !in m.free;
    hide View, Inv, KeepsContents, Accounted, Holds;
  }

  lemma UnmapKeepsContents(m: Machine, pd: nat, di: nat, pi: nat, n: Machine)
    requires Inv(m) && Step(m, Unmap(pd, di, pi), n)
    ensures KeepsContents(m, n)
  {
    forall q: nat, w: nat | w in View(m, q) ensures KeptPage(m, n, q, w) {
      var l := Leaf(q, w / 1024, w % 1024);
      assert Holds(m, l) && FrameFor(m, l) == FrameOf(View(m, q)[w]);
      assert Holds(m, Table(pd, di)) && FrameFor(m, l) != FrameFor(m, Table(pd, di));
    }
  }

  lemma DropUnmapped(m: Machine, pd: nat, v: nat)
    requires Inv(m) && v !in View(m, pd)
    ensures PageDropped(m, m, pd, v)
  {
    forall q: nat, w: nat | w in View(m, q) ensures KeptPage(m, m, q, w) {
      var l := Leaf(q, w / 1024, w % 1024);
      assert Holds(m, l) && FrameFor(m, l) == FrameOf(View(m, q)[w]);
    }
  }

  /** Pages [v0, v) have left the view of pd; no table and no other translation changed. */
  ghost predicate ViewsWithout(m0: Machine, m: Machine, pd: nat, v0: nat, v: nat) {
    && View(m, pd) == View(m0, pd) - Range(v0, v)
    && (forall q | q != pd :: View(m, q) == View(m0, q))
    && (forall q :: Tables(m, q) == Tables(m0, q)) && m.dirs == m0.dirs
  }

  /** Exactly the frames of [v0, v) were freed, one per mapped page, and none was lost. */
  ghost predicate FramesBack(m0: Machine, m: Machine, pd: nat, v0: nat, v: nat) {
    && m.free == m0.free + Displaced(m0, pd, v0, v)
    && |m.free| == |m0.free| + |View(m0, pd).Keys * Range(v0, v)|
    && Accounted(m) == Accounted(m0)
  }

  ghost predicate RangeUnmapped(m0: Machine, m: Machine, pd: nat, v0: nat, v: nat) {
    v0 <= v && ViewsWithout(m0, m, pd, v0, v) && FramesBack(m0, m, pd, v0, v) && RangeContents(m0, m, pd, v0, v)
  }

  lemma UnmapStart(m: Machine, pd: nat, v: nat)
    requires Inv(m)
    ensures RangeUnmapped(m, m, pd, v, v)
  {
    assert Displaced(m, pd, v, v) == {};
    assert Range(v, v) == {};
    assert View(m, pd).Keys * Range(v, v) == {};
    forall q: nat, w: nat | w in View(m, q) ensures KeptPage(m, m, q, w) {
      var l := Leaf(q, w / 1024, w % 1024);
      assert Holds(m, l) && FrameFor(m, l) == FrameOf(View(m, q)[w]);
    }
  }

  lemma DisplacedStep(m: Machine, pd: nat, v0: nat, v: nat)
    requires v0 <= v
    ensures Displaced(m, pd, v0, v + 1) ==
            Displaced(m, pd, v0, v) + if v in View(m, pd) then {FrameOf(View(m, pd)[v])} else {}
    ensures View(m, pd).Keys * Range(v0, v + 1) ==
            View(m, pd).Keys * Range(v0, v) + if v in View(m, pd) then {v} else {}
    ensures v !in View(m, pd).Keys * Range(v0, v)
  {
    hide View;
    if v in View(m, pd) { assert Within(v0, v, v + 1); }
    forall w | w in View(m, pd) ensures Within(v0, w, v + 1) <==> Within(v0, w, v) || w == v {}
  }

  lemma FramesSets(free0: set<nat>, free: set<nat>, d: set<nat>, k: set<nat>, f: set<nat>, v: set<nat>)
    requires free == free0 + d && |free| == |free0| + |k|
    requires |f| == |v| && f !! free && v !! k
    ensures free + f == free0 + (d + f)
    ensures |free + f| == |free0| + |k + v|
  {
    assert |free + f| == |free| + |f|;
    assert |k + v| == |k| + |v|;
  }

  lemma ExtendFrames(m0: Machine, m: Machine, pd: nat, v0: nat, v: nat, n: Machine)
    requires v0 <= v && FramesBack(m0, m, pd, v0, v)
    requires v in View(m0, pd) ==> FrameOf(View(m0, pd)[v]) !in m.free
    requires n.free == m.free + (if v in View(m0, pd) then {FrameOf(View(m0, pd)[v])} else {})
    requires Accounted(n) == Accounted(m)
    ensures FramesBack(m0, n, pd, v0, v + 1)
  {
    hide View, Accounted, Displaced, Range, FrameOf;
    DisplacedStep(m0, pd, v0, v);
    var f := if v in View(m0, pd) then {FrameOf(View(m0, pd)[v])} else {};
    var k := if v in View(m0, pd) then {v} else {};
    assert |f| == |k| && f !! m.free && k !! View(m0, pd).Keys * Range(v0, v);
    FramesSets(m0.free, m.free, Displaced(m0, pd, v0, v), View(m0, pd).Keys * Range(v0, v), f, k);
  }

  lemma ExtendWithout(m0: Machine, m: Machine, pd: nat, v0: nat, v: nat, n: Machine)
    requires v0 <= v && ViewsWithout(m0, m, pd, v0, v) && RangeContents(m0, m, pd, v0, v) && PageDropped(m, n, pd, v)
    ensures ViewsWithout(m0, n, pd, v0, v + 1) && RangeContents(m0, n, pd, v0, v + 1)
  {
    hide View, Accounted, Tables;
    assert View(n, pd) == View(m0, pd) - Range(v0, v + 1) by {
      RangeStep({}, v0, v);
      assert Range(v0, v + 1) == Range(v0, v) + {v};
    }
    forall q: nat, w: nat | w in View(m0, q) && Outside(q, w, pd, v0, v + 1) ensures KeptPage(m0, n, q, w) {
      assert Outside(q, w, pd, v0, v);
      assert w in View(m, q) && View(m, q)[w] == View(m0, q)[w];
      assert KeptPage(m0, m, q, w) && KeptPage(m, n, q, w);
    }
  }

  lemma ExtendUnmapped(m0: Machine, m: Machine, pd: nat, v0: nat, v: nat, n: Machine)
    requires RangeUnmapped(m0, m, pd, v0, v) && PageDropped(m, n, pd, v)
    ensures RangeUnmapped(m0, n, pd, v0, v + 1)
  {
    assert v !in Range(v0, v);
    hide View, FramesBack, RangeContents, Accounted;
    assert v in View(m, pd) <==> v in View(m0, pd);
    ExtendFrames(m0, m, pd, v0, v, n);
    ExtendWithout(m0, m, pd, v0, v, n);
  }
}
