/** The bytes a program sees through its page tables. */
module UserBytes {
  import opened Base
  import opened Pmm
  import opened PageTables
  import opened AddressSpaces
  import opened Ranges
  import opened ElfImage

  /** The k-th byte of a word in memory, lowest first. */
  function WordByte(w: u32, k: nat): u8 {
    if k == 0 then w % 256 else if k == 1 then w / 256 % 256 else if k == 2 then w / 65536 % 256 else w / 16777216 % 256
  }

  /** The bytes of a word are its base-256 digits, the lowest first. */
  lemma LittleEndian(w: u32)
    ensures w == WordByte(w, 0) + 256 * WordByte(w, 1) + 65536 * WordByte(w, 2) + 16777216 * WordByte(w, 3)
  {
    var b, c, d := w / 256, w / 65536, w / 16777216;
    assert w == 256 * b + w % 256;
    assert b == 256 * c + b % 256;
    assert c == 256 * d + c % 256;
    assert d < 256;
  }

  function WordOf(a: u8, b: u8, c: u8, d: u8): (w: u32)
    ensures WordByte(w, 0) == a && WordByte(w, 1) == b && WordByte(w, 2) == c && WordByte(w, 3) == d
  {
    a + 256 * b + 65536 * c + 16777216 * d
  }

  /** A page's 1024 words as 4096 bytes, and back. */
  function PageBytes(p: Page): (r: seq<u8>)
    ensures |r| == 4096 && forall o | 0 <= o < 4096 :: r[o] == WordByte(p[o / 4], o % 4)
  {
    seq<u8>(4096, o requires 0 <= o < 4096 => WordByte(p[o / 4], o % 4))
  }

  function PackPage(b: seq<u8>): (p: Page)
    requires |b| == 4096
    ensures forall i | 0 <= i < 1024 :: p[i] == WordOf(b[4 * i], b[4 * i + 1], b[4 * i + 2], b[4 * i + 3])
  {
    seq<u32>(1024, i requires 0 <= i < 1024 => WordOf(b[4 * i], b[4 * i + 1], b[4 * i + 2], b[4 * i + 3]))
  }

  lemma PackedAt(b: seq<u8>, i: nat, k: nat)
    requires |b| == 4096 && i < 1024 && k < 4
    ensures WordByte(PackPage(b)[i], k) == b[4 * i + k]
  {
    hide WordOf, WordByte, PackPage;
    var w := WordOf(b[4 * i], b[4 * i + 1], b[4 * i + 2], b[4 * i + 3]);
    assert PackPage(b)[i] == w;
    if k == 0 { assert WordByte(w, 0) == b[4 * i]; }
    else if k == 1 { assert WordByte(w, 1) == b[4 * i + 1]; }
    else if k == 2 { assert WordByte(w, 2) == b[4 * i + 2]; }
    else { assert k == 3 && WordByte(w, 3) == b[4 * i + 3]; }
  }

  lemma Packed(b: seq<u8>)
    requires |b| == 4096
    ensures PageBytes(PackPage(b)) == b
  {
    hide WordByte, PackPage, PageBytes;
    forall o | 0 <= o < 4096 ensures PageBytes(PackPage(b))[o] == b[o] {
      PackedAt(b, o / 4, o % 4);
      assert o == 4 * (o / 4) + o % 4;
    }
  }

  lemma ZeroBytes()
    ensures PageBytes(ZeroPage()) == Zeros()
  {
  }

  /** The pages of a directory's user half, as bytes. */
  ghost function UserMemory(m: Machine, pd: nat): Memory {
    map v | v in View(m, pd) && FrameOf(View(m, pd)[v]) in m.mem :: PageBytes(m.mem[FrameOf(View(m, pd)[v])])
  }

  lemma MappedPage(m: Machine, pd: nat, v: nat)
    requires Inv(m) && v in View(m, pd)
    ensures var l := Leaf(pd, v / 1024, v % 1024);
      && Holds(m, l) && FrameFor(m, l) == FrameOf(View(m, pd)[v])
      && 0 < FrameFor(m, l) < PAGES && FrameFor(m, l) in m.mem && v in UserMemory(m, pd)
  {
  }

  /** Mapping a range of zeroed pages adds just those to what the program sees. */
  lemma MemoryAfterMap(m0: Machine, m: Machine, pd: nat, v0: nat, v: nat, flags: nat)
    requires Inv(m0) && Inv(m) && RangeMapped(m0, m, pd, v0, v, flags)
    requires forall w | v0 <= w < v :: w !in UserMemory(m0, pd)
    ensures Added(UserMemory(m0, pd), UserMemory(m, pd), v0, v)
    ensures forall w | v0 <= w < v :: UserMemory(m, pd)[w] == Zeros()
  {
    ZeroBytes();
    forall w: nat ensures w in UserMemory(m, pd) <==> w in UserMemory(m0, pd) || v0 <= w < v {
      if w in View(m, pd) { MappedPage(m, pd, w); }
      if w in View(m0, pd) { MappedPage(m0, pd, w); }
      assert w in Range(v0, v) <==> v0 <= w < v;
    }
    forall w | w in UserMemory(m0, pd) ensures UserMemory(m, pd)[w] == UserMemory(m0, pd)[w] {
      assert Outside(pd, w, pd, v0, v) && KeptPage(m0, m, pd, w);
    }
    forall w: nat | v0 <= w < v ensures UserMemory(m, pd)[w] == Zeros() { assert ZeroMapped(m, pd, w, flags); }
  }

  lemma PagesApart(m: Machine, pd: nat, v: nat, w: nat)
    requires Inv(m) && v in View(m, pd) && w in View(m, pd) && v != w
    ensures FrameOf(View(m, pd)[v]) != FrameOf(View(m, pd)[w])
  {
    MappedPage(m, pd, v);
    MappedPage(m, pd, w);
    assert w / 1024 != v / 1024 || w % 1024 != v % 1024;
    hide View, UserMemory, Holds, FrameFor;
  }

  lemma WriteIsStep(m: Machine, pd: nat, v: nat, page: Page)
    requires Inv(m) && v in View(m, pd)
    ensures var n := m.(mem := m.mem[FrameOf(View(m, pd)[v]) := page]);
      && Step(m, WritePage(pd, v / 1024, v % 1024, page), n) && Inv(n) && Accounted(n) == Accounted(m)
      && (forall q :: View(n, q) == View(m, q) && Tables(n, q) == Tables(m, q))
  {
    MappedPage(m, pd, v);
    var f := FrameOf(View(m, pd)[v]);
    var n := m.(mem := m.mem[f := page]);
    hide View, UserMemory, Tables;
    WriteKeeps(m, pd, v / 1024, v % 1024, page, n);
    StoreData(m, f, page);
    forall q ensures Tables(n, q) == Tables(m, q) { SameView(m, n, q); }
  }

  /** Writing into the frame of a mapped page changes that page of that directory and nothing else. */
  lemma MemoryAfterWrite(m: Machine, pd: nat, v: nat, page: Page)
    requires Inv(m) && v in View(m, pd)
    ensures var n := m.(mem := m.mem[FrameOf(View(m, pd)[v]) := page]);
      UserMemory(n, pd) == UserMemory(m, pd)[v := PageBytes(page)]
  {
    var f := FrameOf(View(m, pd)[v]);
    var n := m.(mem := m.mem[f := page]);
    WriteIsStep(m, pd, v, page);
    MappedPage(m, pd, v);
    forall w | w in View(m, pd) && w != v ensures FrameOf(View(m, pd)[w]) != f { PagesApart(m, pd, v, w); }
    hide View, Inv, Step, PageBytes;
  }

  lemma SameAccount(m: Machine, n: Machine)
    requires SameRoles(m, n) && n.free == m.free
    ensures Accounted(n) == Accounted(m)
  {
    forall f ensures Used(m, f) == Used(n, f) {
      if r :| Holds(m, r) && FrameFor(m, r) == f { assert Holds(n, r) && FrameFor(n, r) == f; }
      if r :| Holds(n, r) && FrameFor(n, r) == f { assert Holds(m, r) && FrameFor(m, r) == f; }
    }
  }

  /** Physical page 0 is nobody's. */
  lemma WriteToPageZero(m: Machine, pd: nat, page: Page)
    requires Inv(m)
    ensures var n := m.(mem := m.mem[0 := page]);
      && Inv(n) && SameRoles(m, n) && (forall q :: View(n, q) == View(m, q) && Tables(n, q) == Tables(m, q))
      && UserMemory(n, pd) == UserMemory(m, pd) && Accounted(n) == Accounted(m)
  {
    var n := m.(mem := m.mem[0 := page]);
    StoreData(m, 0, page);
    forall q ensures View(n, q) == View(m, q) && Tables(n, q) == Tables(m, q) { SameView(m, n, q); }
    forall w | w in View(m, pd) ensures FrameOf(View(m, pd)[w]) != 0 { MappedPage(m, pd, w); }
    SameAccount(m, n);
  }
}
