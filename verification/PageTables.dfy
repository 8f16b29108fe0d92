/** Two-level page tables held in physical memory, as values: entries, the walk, the role every
    frame plays, and the ownership invariant. */
module PageTables {
  import opened Base
  import opened Pmm

  const USER_PDES: nat := 768
  const ENTRIES: nat := 1024

  /** Bit 0 of an entry: PDE_PRESENT / PTE_PRESENT. */
  predicate Present(e: u32) { e % 2 == 1 }

  /** PTE_ADDR, as a frame number. */
  function FrameOf(e: u32): nat { e / 4096 }

  /** The low 12 bits. */
  function FlagsOf(e: u32): nat { e % 4096 }

  /** A frame address combined with flag bits. */
  function Entry(frame: nat, flags: nat): (e: u32)
    requires frame < 0x10_0000 && flags < 4096
    ensures FrameOf(e) == frame && FlagsOf(e) == flags && Present(e) == (flags % 2 == 1)
  {
    frame * 4096 + flags
  }

  type Page = p: seq<u32> | |p| == 1024 witness seq(1024, _ => 0)

  function ZeroPage(): Page { seq(1024, _ => 0) }

  /** Physical memory with the allocator's free pages; dirs are the live user page directories. */
  datatype Machine = Machine(free: set<nat>, mem: map<nat, Page>, dirs: set<nat>)

  function Word(m: Machine, f: nat, i: nat): u32 {
    if f in m.mem && i < 1024 then m.mem[f][i] else 0
  }

  /** What a frame is used for: a directory, the table behind one user PDE, or one user page. */
  datatype Role = Dir(pd: nat) | Table(pd: nat, di: nat) | Leaf(pd: nat, di: nat, pi: nat)

  predicate Holds(m: Machine, r: Role) {
    match r
    case Dir(pd) => pd in m.dirs
    case Table(pd, di) => pd in m.dirs && di < USER_PDES && Present(Word(m, pd, di))
    case Leaf(pd, di, pi) =>
      && pd in m.dirs && di < USER_PDES && Present(Word(m, pd, di))
      && pi < ENTRIES && Present(Word(m, FrameOf(Word(m, pd, di)), pi))
  }

  /** The entry that names the frame (a directory is named by its own address). */
  function EntryFor(m: Machine, r: Role): u32 {
    match r
    case Dir(pd) => if pd < PAGES then Entry(pd, 0) else 0
    case Table(pd, di) => Word(m, pd, di)
    case Leaf(pd, di, pi) => Word(m, FrameOf(Word(m, pd, di)), pi)
  }

  function FrameFor(m: Machine, r: Role): nat { FrameOf(EntryFor(m, r)) }

  ghost predicate WellFormed(m: Machine) {
    && (forall f: nat | f < PAGES :: f in m.mem)
    && (forall f | f in m.free :: 0 < f < PAGES)
    && (forall pd | pd in m.dirs :: 0 < pd < PAGES)
  }

  /** Frames in use are real, are marked used, and no frame has two uses. */
  ghost predicate Inv(m: Machine) {
    && WellFormed(m)
    && (forall r | Holds(m, r) :: 0 < FrameFor(m, r) < PAGES && FrameFor(m, r) !in m.free)
    && (forall r, q | Holds(m, r) && Holds(m, q) && r != q :: FrameFor(m, r) != FrameFor(m, q))
  }

  /** A frame taken from the allocator that no role names yet. */
  ghost predicate Fresh(m: Machine, f: nat) {
    0 < f < PAGES && f !in m.free && forall r | Holds(m, r) :: FrameFor(m, r) != f
  }

  /** Both machines give every role the same entry. */
  ghost predicate SameRoles(m: Machine, n: Machine) {
    forall r :: Holds(m, r) == Holds(n, r) && (Holds(m, r) ==> EntryFor(m, r) == EntryFor(n, r))
  }

  function Store(m: Machine, f: nat, i: nat, e: u32): Machine
    requires f in m.mem && i < 1024
  {
    m.(mem := m.mem[f := m.mem[f][i := e]])
  }

  /** pmm_alloc: any free frame may be taken. */
  lemma TakeFrame(m: Machine, f: nat)
    requires Inv(m) && f in m.free
    ensures var n := m.(free := m.free - {f}); Inv(n) && Fresh(n, f) && SameRoles(m, n)
  {
    var n := m.(free := m.free - {f});
    assert SameRoles(m, n);
  }

  lemma GiveFrame(m: Machine, f: nat)
    requires Inv(m) && Fresh(m, f)
    ensures var n := m.(free := m.free + {f}); Inv(n) && SameRoles(m, n)
  {
    var n := m.(free := m.free + {f});
    assert SameRoles(m, n);
  }

  /** Overwriting a frame that is neither a directory nor a table changes no role. */
  lemma StoreData(m: Machine, f: nat, p: Page)
    requires Inv(m) && f < PAGES
    requires forall r | Holds(m, r) && !r.Leaf? :: FrameFor(m, r) != f
    ensures var n := m.(mem := m.mem[f := p]); Inv(n) && SameRoles(m, n)
  {
    var n := m.(mem := m.mem[f := p]);
    forall r ensures Holds(m, r) == Holds(n, r) && (Holds(m, r) ==> EntryFor(m, r) == EntryFor(n, r)) {
      KeepRole(m, n, r, f);
    }
  }

  lemma KeepRole(m: Machine, n: Machine, r: Role, f: nat)
    requires WellFormed(m) && WellFormed(n) && m.dirs == n.dirs
    requires forall g: nat | g < PAGES && g != f :: m.mem[g] == n.mem[g]
    requires forall r | Holds(m, r) :: 0 < FrameFor(m, r) < PAGES
    requires forall q | Holds(m, q) && !q.Leaf? && q.pd == r.pd && (q.Table? && r.Leaf? ==> q.di == r.di) :: FrameFor(m, q) != f
    ensures Holds(m, r) == Holds(n, r) && (Holds(m, r) ==> EntryFor(m, r) == EntryFor(n, r))
  {
    if r.pd in m.dirs {
      assert Holds(m, Dir(r.pd));
      if r.Leaf? {
        var t := Table(r.pd, r.di);
        if Holds(m, t) { assert FrameFor(m, t) != f; }
      }
    }
  }

  /** Writing an absent PDE links a filled table: the table and its present entries gain roles,
      every other role keeps its frame. */
  lemma LinkTable(m: Machine, pd: nat, di: nat, e: u32)
    requires Inv(m) && pd in m.dirs && di < USER_PDES
    requires !Present(Word(m, pd, di)) && Present(e) && Fresh(m, FrameOf(e))
    requires forall i | 0 <= i < 1024 && Present(Word(m, FrameOf(e), i)) ::
               Fresh(m, FrameOf(Word(m, FrameOf(e), i))) && FrameOf(Word(m, FrameOf(e), i)) != FrameOf(e)
    requires forall i, j | 0 <= i < j < 1024 && Present(Word(m, FrameOf(e), i)) && Present(Word(m, FrameOf(e), j)) ::
               FrameOf(Word(m, FrameOf(e), i)) != FrameOf(Word(m, FrameOf(e), j))
    ensures var n := Store(m, pd, di, e);
            && Inv(n)
            && Holds(n, Table(pd, di)) && EntryFor(n, Table(pd, di)) == e
            && (forall pi: nat | pi < ENTRIES :: Holds(n, Leaf(pd, di, pi)) == Present(Word(m, FrameOf(e), pi)))
            && (forall pi: nat | pi < ENTRIES :: EntryFor(n, Leaf(pd, di, pi)) == Word(m, FrameOf(e), pi))
            && (forall r | !BehindPde(r, pd, di) ::
                  Holds(m, r) == Holds(n, r) && (Holds(m, r) ==> EntryFor(m, r) == EntryFor(n, r)))
  {
    var n := Store(m, pd, di, e);
    var t := FrameOf(e);
    assert Holds(m, Dir(pd));
    forall r | !BehindPde(r, pd, di)
      ensures Holds(m, r) == Holds(n, r) && (Holds(m, r) ==> EntryFor(m, r) == EntryFor(n, r))
    {
      OtherRole(m, pd, di, e, r);
    }
    assert forall i: nat | i < 1024 :: Word(n, t, i) == Word(m, t, i);
    forall r | Holds(n, r) ensures 0 < FrameFor(n, r) < PAGES && FrameFor(n, r) !in n.free {
      if BehindPde(r, pd, di) && r.Leaf? { assert Present(Word(m, t, r.pi)); }
    }
  }

  predicate BehindPde(r: Role, pd: nat, di: nat) {
    !r.Dir? && r.pd == pd && r.di == di
  }

  lemma OtherRole(m: Machine, pd: nat, di: nat, e: u32, r: Role)
    requires Inv(m) && pd in m.dirs && di < USER_PDES && !BehindPde(r, pd, di)
    ensures var n := Store(m, pd, di, e);
            Holds(m, r) == Holds(n, r) && (Holds(m, r) ==> EntryFor(m, r) == EntryFor(n, r))
  {
    var n := Store(m, pd, di, e);
    assert Holds(m, Dir(pd));
    if r.pd in m.dirs && !r.Dir? && r.di < USER_PDES {
      assert Holds(m, Dir(r.pd));
      assert Word(n, r.pd, r.di) == Word(m, r.pd, r.di);
      if Holds(m, Table(r.pd, r.di)) { assert FrameFor(m, Table(r.pd, r.di)) != pd; }
    }
  }

  /** Writing one PTE of a linked table changes that page only. */
  lemma StorePte(m: Machine, pd: nat, di: nat, pi: nat, e: u32)
    requires Inv(m) && Holds(m, Table(pd, di)) && pi < ENTRIES
    ensures var n := Store(m, FrameFor(m, Table(pd, di)), pi, e);
            && (!Present(e) || Fresh(m, FrameOf(e)) ==> Inv(n))
            && Holds(n, Leaf(pd, di, pi)) == Present(e)
            && EntryFor(n, Leaf(pd, di, pi)) == e
            && (forall r | r != Leaf(pd, di, pi) ::
                  Holds(m, r) == Holds(n, r) && (Holds(m, r) ==> EntryFor(m, r) == EntryFor(n, r)))
  {
    var t := FrameFor(m, Table(pd, di));
    var n := Store(m, t, pi, e);
    assert Holds(m, Dir(pd));
    assert t != pd;
    forall r | r != Leaf(pd, di, pi)
      ensures Holds(m, r) == Holds(n, r) && (Holds(m, r) ==> EntryFor(m, r) == EntryFor(n, r))
    {
      if r.pd in m.dirs {
        assert Holds(m, Dir(r.pd));
        assert r.pd != t;
        if r.Leaf? && Holds(m, Table(r.pd, r.di)) && FrameFor(m, Table(r.pd, r.di)) == t {
          assert r.pd == pd && r.di == di;
        }
      }
    }
  }

  // ---------------------------------------------------------------------------------------------
  // The view of one directory as a finite map
  // ---------------------------------------------------------------------------------------------

  const USER_PAGES: nat := 786432

  /** The user half of a directory as a map from page number to page-table entry. */
  ghost function View(m: Machine, pd: nat): map<nat, u32> {
    map v: nat | v < USER_PAGES && Holds(m, Leaf(pd, v / 1024, v % 1024)) :: EntryFor(m, Leaf(pd, v / 1024, v % 1024))
  }

  /** The PDEs of the user half that have a table. */
  ghost function Tables(m: Machine, pd: nat): set<nat> {
    set di: nat | di < USER_PDES && Holds(m, Table(pd, di))
  }

  lemma SameView(m: Machine, n: Machine, pd: nat)
    requires forall r: Role | r.pd == pd :: Holds(m, r) == Holds(n, r) && (Holds(m, r) ==> EntryFor(m, r) == EntryFor(n, r))
    ensures View(m, pd) == View(n, pd) && Tables(m, pd) == Tables(n, pd)
  {
  }

  /** When one page's role changes and nothing else does, one key of one view changes. */
  lemma ViewFromRoles(m: Machine, n: Machine, pd: nat, di: nat, pi: nat)
    requires di < USER_PDES && pi < ENTRIES
    requires forall r | r != Leaf(pd, di, pi) ::
               Holds(m, r) == Holds(n, r) && (Holds(m, r) ==> EntryFor(m, r) == EntryFor(n, r))
    ensures View(n, pd) == if Holds(n, Leaf(pd, di, pi)) then View(m, pd)[1024 * di + pi := EntryFor(n, Leaf(pd, di, pi))]
                           else View(m, pd) - {1024 * di + pi}
    ensures forall q | q != pd :: View(n, q) == View(m, q)
    ensures forall q :: Tables(n, q) == Tables(m, q)
  {
    forall q | q != pd ensures View(n, q) == View(m, q) { SameView(m, n, q); }
    OneKeyView(m, n, pd, di, pi);
  }

  lemma KeyOf(di: nat, pi: nat)
    requires di < USER_PDES && pi < ENTRIES
    ensures (1024 * di + pi) / 1024 == di && (1024 * di + pi) % 1024 == pi && 1024 * di + pi < USER_PAGES
    ensures forall w: nat | w != 1024 * di + pi :: w / 1024 != di || w % 1024 != pi
  {
  }

  lemma OneKeyView(m: Machine, n: Machine, pd: nat, di: nat, pi: nat)
    requires di < USER_PDES && pi < ENTRIES
    requires forall r | r != Leaf(pd, di, pi) ::
               Holds(m, r) == Holds(n, r) && (Holds(m, r) ==> EntryFor(m, r) == EntryFor(n, r))
    ensures View(n, pd) == if Holds(n, Leaf(pd, di, pi)) then View(m, pd)[1024 * di + pi := EntryFor(n, Leaf(pd, di, pi))]
                           else View(m, pd) - {1024 * di + pi}
  {
    var v, l := 1024 * di + pi, Leaf(pd, di, pi);
    KeyOf(di, pi);
    hide Holds, EntryFor;
    forall w: nat | w < USER_PAGES && w != v
      ensures (w in View(n, pd) <==> w in View(m, pd)) && (w in View(m, pd) ==> View(n, pd)[w] == View(m, pd)[w])
    {
      assert Leaf(pd, w / 1024, w % 1024) != l;
    }
    assert v in View(n, pd) <==> Holds(n, l);
    assert Holds(n, l) ==> View(n, pd)[v] == EntryFor(n, l);
    assert forall w | w in View(n, pd) || w in View(m, pd) :: w < USER_PAGES;
    MapFromKeys(View(m, pd), View(n, pd), v);
  }

  lemma MapFromKeys(a: map<nat, u32>, b: map<nat, u32>, v: nat)
    requires forall w | w != v && (w in a || w in b) :: w in a && w in b && a[w] == b[w]
    ensures b == if v in b then a[v := b[v]] else a - {v}
  {
    assert b.Keys == (if v in b then a[v := b[v]] else a - {v}).Keys;
  }

  /** Linking an empty table adds no translation. */
  lemma ViewAfterTable(m: Machine, pd: nat, di: nat, e: u32)
    requires Inv(m) && pd in m.dirs && di < USER_PDES
    requires !Present(Word(m, pd, di)) && Present(e) && Fresh(m, FrameOf(e))
    requires forall i | 0 <= i < 1024 :: !Present(Word(m, FrameOf(e), i))
    ensures var n := Store(m, pd, di, e);
            && Inv(n) && Holds(n, Table(pd, di)) && EntryFor(n, Table(pd, di)) == e
            && Tables(n, pd) == Tables(m, pd) + {di}
            && (forall q | q != pd :: Tables(n, q) == Tables(m, q))
            && forall q :: View(n, q) == View(m, q)
  {
    LinkTable(m, pd, di, e);
    var n := Store(m, pd, di, e);
    forall r: Role | !(r == Table(pd, di))
      ensures Holds(m, r) == Holds(n, r) && (Holds(m, r) ==> EntryFor(m, r) == EntryFor(n, r))
    {
      if BehindPde(r, pd, di) { assert r.Leaf?; }
    }
    forall q ensures View(n, q) == View(m, q) { assert View(n, q).Keys == View(m, q).Keys; }
  }

  // ---------------------------------------------------------------------------------------------
  // Ownership and conservation
  // ---------------------------------------------------------------------------------------------

  ghost predicate OwnsFrame(m: Machine, pd: nat, f: nat) {
    exists r: Role :: Holds(m, r) && r.pd == pd && FrameFor(m, r) == f
  }

  /** Every frame the directory uses: itself, its tables and its pages. */
  ghost function Owned(m: Machine, pd: nat): set<nat> {
    set f: nat | f < PAGES && OwnsFrame(m, pd, f)
  }

  lemma {:induction false} ImageSize(keys: set<nat>, f: nat -> nat)
    requires forall x, y | x in keys && y in keys && x != y :: f(x) != f(y)
    ensures |set x | x in keys :: f(x)| == |keys|
  {
    if keys == {} {
      assert (set x | x in keys :: f(x)) == {};
    } else {
      var k :| k in keys;
      ImageSize(keys - {k}, f);
      assert (set x | x in keys :: f(x)) == (set x | x in keys - {k} :: f(x)) + {f(k)};
    }
  }

  /** Sets that a function matches one to one have the same size. */
  lemma SameSize(keys: set<nat>, image: set<nat>, f: nat -> nat)
    requires forall x, y | x in keys && y in keys && x != y :: f(x) != f(y)
    requires forall x | x in keys :: f(x) in image
    requires forall y | y in image :: exists x :: x in keys && f(x) == y
    ensures |keys| == |image|
  {
    ImageSize(keys, f);
    assert image == set x | x in keys :: f(x);
  }

  ghost function TableFrames(m: Machine, pd: nat): set<nat> {
    set di: nat | di in Tables(m, pd) :: FrameFor(m, Table(pd, di))
  }

  ghost function PageFrames(m: Machine, pd: nat): set<nat> {
    set v: nat | v in View(m, pd).Keys :: FrameFor(m, Leaf(pd, v / 1024, v % 1024))
  }

  lemma TableFramesSize(m: Machine, pd: nat)
    requires Inv(m)
    ensures |TableFrames(m, pd)| == |Tables(m, pd)|
  {
    var f := (di: nat) => FrameFor(m, Table(pd, di));
    ImageSize(Tables(m, pd), f);
    assert TableFrames(m, pd) == set x: nat | x in Tables(m, pd) :: f(x);
  }

  lemma PageFramesSize(m: Machine, pd: nat)
    requires Inv(m)
    ensures |PageFrames(m, pd)| == |View(m, pd)|
  {
    var f := (v: nat) => FrameFor(m, Leaf(pd, v / 1024, v % 1024));
    forall v, w | v in View(m, pd).Keys && w in View(m, pd).Keys && v != w ensures f(v) != f(w) {
      assert v / 1024 != w / 1024 || v % 1024 != w % 1024;
    }
    ImageSize(View(m, pd).Keys, f);
    assert PageFrames(m, pd) == set x: nat | x in View(m, pd).Keys :: f(x);
  }

  /** A directory uses exactly one frame for itself, one per table and one per page. */
  lemma OwnedSize(m: Machine, pd: nat)
    requires Inv(m) && pd in m.dirs
    ensures |Owned(m, pd)| == 1 + |Tables(m, pd)| + |View(m, pd)|
  {
    hide *;
    TableFramesSize(m, pd);
    PageFramesSize(m, pd);
    OwnedParts(m, pd);
    PartsApart(m, pd);
    var ts, ps := TableFrames(m, pd), PageFrames(m, pd);
    assert |{pd} + ts| == 1 + |ts|;
    assert |{pd} + ts + ps| == |{pd} + ts| + |ps|;
  }

  lemma PartsApart(m: Machine, pd: nat)
    requires Inv(m) && pd in m.dirs
    ensures pd !in TableFrames(m, pd) && pd !in PageFrames(m, pd)
    ensures TableFrames(m, pd) !! PageFrames(m, pd)
  {
    assert Holds(m, Dir(pd)) && FrameFor(m, Dir(pd)) == pd;
    forall f | f in PageFrames(m, pd) ensures f != pd && f !in TableFrames(m, pd) {
      var v :| v in View(m, pd).Keys && f == FrameFor(m, Leaf(pd, v / 1024, v % 1024));
      forall di | di in Tables(m, pd) ensures FrameFor(m, Table(pd, di)) != f {
      }
    }
  }

  lemma OwnedParts(m: Machine, pd: nat)
    requires Inv(m) && pd in m.dirs
    ensures Owned(m, pd) == {pd} + TableFrames(m, pd) + PageFrames(m, pd)
  {
    var tfs, pfs := TableFrames(m, pd), PageFrames(m, pd);
    assert Holds(m, Dir(pd)) && FrameFor(m, Dir(pd)) == pd;
    forall f | f in Owned(m, pd) ensures f in {pd} + tfs + pfs {
      var r: Role :| Holds(m, r) && r.pd == pd && FrameFor(m, r) == f;
      match r {
        case Dir(_) =>
        case Table(_, di) => assert di in Tables(m, pd);
        case Leaf(_, di, pi) =>
          var v := 1024 * di + pi;
          assert v / 1024 == di && v % 1024 == pi && v in View(m, pd).Keys;
      }
    }
    forall f | f in {pd} + tfs + pfs ensures f in Owned(m, pd) {
      if f == pd { assert OwnsFrame(m, pd, f); }
      else if f in tfs { var di :| di in Tables(m, pd) && f == FrameFor(m, Table(pd, di)); assert Holds(m, Table(pd, di)); assert OwnsFrame(m, pd, f); }
      else {
        var v :| v in View(m, pd).Keys && f == FrameFor(m, Leaf(pd, v / 1024, v % 1024));
        assert Holds(m, Leaf(pd, v / 1024, v % 1024)); assert OwnsFrame(m, pd, f);
      }
    }
  }
}
