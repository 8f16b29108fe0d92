/** What the PT_LOAD segments of an executable look like in memory (kernel/elf.c). */
module ElfImage {
  import opened Base

  const PT_LOAD: nat := 1

  datatype Phdr = Phdr(kind: nat, offset: nat, vaddr: nat, filesz: nat, memsz: nat, flags: nat)

  /** The headers the loop acts on. */
  predicate Loads(ph: Phdr) {
    ph.kind == PT_LOAD && ph.memsz != 0
  }

  /** First page, and the page after the last. */
  function FirstPage(ph: Phdr): nat {
    ph.vaddr / 4096
  }

  function EndPage(ph: Phdr): (r: nat)
    ensures Loads(ph) ==> FirstPage(ph) < r
    ensures ph.vaddr + ph.memsz <= 4096 * r < ph.vaddr + ph.memsz + 4096
  {
    (ph.vaddr + ph.memsz + 4095) / 4096
  }

  /** A loadable segment within the file and the user half. */
  predicate SegmentOk(ph: Phdr, file: seq<u8>) {
    ph.filesz <= ph.memsz && ph.offset + ph.filesz <= |file| && ph.vaddr + ph.memsz <= 0xC000_0000
  }

  predicate PagesApart(a: Phdr, b: Phdr) {
    EndPage(a) <= FirstPage(b) || EndPage(b) <= FirstPage(a)
  }

  predicate ImageOk(phdrs: seq<Phdr>, file: seq<u8>) {
    && (forall i | 0 <= i < |phdrs| && Loads(phdrs[i]) :: SegmentOk(phdrs[i], file))
    && (forall i, j | 0 <= i < j < |phdrs| && Loads(phdrs[i]) && Loads(phdrs[j]) :: PagesApart(phdrs[i], phdrs[j]))
  }

  /** The byte at an address once the first done bytes of a segment's file part are in. */
  function Image(ph: Phdr, file: seq<u8>, done: nat, va: nat): u8
    requires SegmentOk(ph, file) && done <= ph.filesz
  {
    if ph.vaddr <= va < ph.vaddr + done then file[ph.offset + (va - ph.vaddr)] else 0
  }

  function PageImage(ph: Phdr, file: seq<u8>, done: nat, page: nat): (r: seq<u8>)
    requires SegmentOk(ph, file) && done <= ph.filesz
    ensures |r| == 4096 && forall o | 0 <= o < 4096 :: r[o] == Image(ph, file, done, 4096 * page + o)
  {
    seq<u8>(4096, o requires 0 <= o < 4096 => Image(ph, file, done, 4096 * page + o))
  }

  function Zeros(): (z: seq<u8>)
    ensures |z| == 4096 && forall i | 0 <= i < 4096 :: z[i] == 0
  {
    seq(4096, _ => 0)
  }

  /** What an address space shows its program: page number to the page's bytes. */
  type Memory = map<nat, seq<u8>>

  /** The segment's pages hold its image. */
  ghost predicate SegmentIn(view: Memory, ph: Phdr, file: seq<u8>, done: nat)
    requires SegmentOk(ph, file) && done <= ph.filesz
  {
    forall p | FirstPage(ph) <= p < EndPage(ph) :: p in view && view[p] == PageImage(ph, file, done, p)
  }

  /** The byte found at a mapped address. */
  function ByteAt(view: Memory, va: nat): u8
    requires va / 4096 in view && |view[va / 4096]| == 4096
  {
    view[va / 4096][va % 4096]
  }

  /** What a loaded segment looks like from user space: the file's bytes, then zeros. */
  lemma SegmentBytes(view: Memory, ph: Phdr, file: seq<u8>, k: nat)
    requires Loads(ph) && SegmentOk(ph, file) && SegmentIn(view, ph, file, ph.filesz) && k < ph.memsz
    ensures var va := ph.vaddr + k;
      && va / 4096 in view && |view[va / 4096]| == 4096
      && ByteAt(view, va) == if k < ph.filesz then file[ph.offset + k] else 0
  {
    var p := (ph.vaddr + k) / 4096;
    assert FirstPage(ph) <= p < EndPage(ph);
  }

  lemma NothingDone(ph: Phdr, file: seq<u8>, p: nat)
    requires SegmentOk(ph, file)
    ensures PageImage(ph, file, 0, p) == Zeros()
  {
  }

  /** A chunk that stays inside its page takes that page's image forward and leaves every other page's as it is. */
  lemma ChunkImage(ph: Phdr, file: seq<u8>, done: nat, chunk: nat, p: nat)
    requires SegmentOk(ph, file) && done + chunk <= ph.filesz && (ph.vaddr + done) % 4096 + chunk <= 4096
    ensures var off, page := (ph.vaddr + done) % 4096, PageImage(ph, file, done, p);
      var bytes := file[ph.offset + done..ph.offset + done + chunk];
      PageImage(ph, file, done + chunk, p) ==
        if p == (ph.vaddr + done) / 4096 then page[..off] + bytes + page[off + chunk..] else page
  {
    var va := ph.vaddr + done;
    var off := va % 4096;
    assert va == 4096 * (va / 4096) + off;
  }

  function SegmentPages(ph: Phdr): nat {
    if Loads(ph) then EndPage(ph) - FirstPage(ph) else 0
  }

  /** The pages of the segments from k on. */
  function PagesFrom(phdrs: seq<Phdr>, k: nat): nat
    requires k <= |phdrs|
    decreases |phdrs| - k
  {
    if k == |phdrs| then 0 else SegmentPages(phdrs[k]) + PagesFrom(phdrs, k + 1)
  }

  /** The end of the highest segment, rounded up to a page: zero when nothing is loaded. */
  function LoadEnd(phdrs: seq<Phdr>): nat {
    if phdrs == [] then 0
    else
      var e, ph := LoadEnd(phdrs[..|phdrs| - 1]), phdrs[|phdrs| - 1];
      if Loads(ph) && 4096 * EndPage(ph) > e then 4096 * EndPage(ph) else e
  }

  /** Exactly the pages from first to end were added, and the others still hold what they held. */
  ghost predicate Added(v: Memory, w: Memory, first: nat, end: nat) {
    && (forall p | p in v :: p in w && w[p] == v[p])
    && (forall p :: p in w <==> p in v || first <= p < end)
  }

  /** Only pages of the segment may have changed. */
  ghost predicate Others(v: Memory, w: Memory, ph: Phdr) {
    v.Keys == w.Keys && forall p | p in v && !(FirstPage(ph) <= p < EndPage(ph)) :: w[p] == v[p]
  }

  lemma InSegment(ph: Phdr, file: seq<u8>, done: nat)
    requires Loads(ph) && SegmentOk(ph, file) && done < ph.filesz
    ensures done < ph.memsz && ph.offset + ph.filesz <= |file|
    ensures FirstPage(ph) <= (ph.vaddr + done) / 4096 < EndPage(ph)
  {
  }

  lemma SegmentStep(v: Memory, w: Memory, ph: Phdr, file: seq<u8>, done: nat, chunk: nat)
    requires Loads(ph) && SegmentOk(ph, file) && done + chunk <= ph.filesz && done < ph.filesz
    requires (ph.vaddr + done) % 4096 + chunk <= 4096 && SegmentIn(v, ph, file, done)
    requires var va := ph.vaddr + done; var p, off := va / 4096, va % 4096;
      p in v && |v[p]| == 4096
      && w == v[p := v[p][..off] + file[ph.offset + done..ph.offset + done + chunk] + v[p][off + chunk..]]
    ensures SegmentIn(w, ph, file, done + chunk) && Others(v, w, ph)
  {
    InSegment(ph, file, done);
    forall p | FirstPage(ph) <= p < EndPage(ph) ensures p in w && w[p] == PageImage(ph, file, done + chunk, p) {
      ChunkImage(ph, file, done, chunk, p);
    }
  }

  lemma SegmentAt(v: Memory, ph: Phdr, file: seq<u8>, done: nat, p: nat)
    requires SegmentOk(ph, file) && done <= ph.filesz && SegmentIn(v, ph, file, done) && FirstPage(ph) <= p < EndPage(ph)
    ensures p in v && |v[p]| == 4096
  {
  }

  lemma OthersTrans(u: Memory, v: Memory, w: Memory, ph: Phdr)
    requires Others(u, v, ph) && Others(v, w, ph)
    ensures Others(u, w, ph)
  {
  }

  /** Bytes stored into one page, if it is there. */
  ghost predicate StoredIn(u: Memory, w: Memory, p: nat, off: nat, bytes: seq<u8>)
    requires off + |bytes| <= 4096
  {
    w == if p in u && |u[p]| == 4096 then u[p := u[p][..off] + bytes + u[p][off + |bytes|..]] else u
  }

  /** The copy loop so far, counted from pages that were all zero, if they were. */
  ghost predicate CopiedIn(u: Memory, w: Memory, ph: Phdr, file: seq<u8>, done: nat)
    requires SegmentOk(ph, file) && done <= ph.filesz
  {
    SegmentIn(u, ph, file, 0) ==> SegmentIn(w, ph, file, done) && Others(u, w, ph)
  }

  lemma CopiedStep(u: Memory, v: Memory, w: Memory, ph: Phdr, file: seq<u8>, done: nat, chunk: nat)
    requires Loads(ph) && SegmentOk(ph, file) && done < ph.filesz && done + chunk <= ph.filesz && CopiedIn(u, v, ph, file, done)
    requires (ph.vaddr + done) % 4096 + chunk <= 4096 && ph.offset + done + chunk <= |file|
    requires StoredIn(v, w, (ph.vaddr + done) / 4096, (ph.vaddr + done) % 4096, file[ph.offset + done..ph.offset + done + chunk])
    ensures CopiedIn(u, w, ph, file, done + chunk)
  {
    hide SegmentIn, Others, FirstPage, EndPage;
    if SegmentIn(u, ph, file, 0) {
      InSegment(ph, file, done);
      SegmentAt(v, ph, file, done, (ph.vaddr + done) / 4096);
      SegmentStep(v, w, ph, file, done, chunk);
      OthersTrans(u, v, w, ph);
    }
  }

  /** Every loadable segment's pages hold its image. */
  ghost predicate AllIn(view: Memory, phdrs: seq<Phdr>, file: seq<u8>) {
    forall j | 0 <= j < |phdrs| && Loads(phdrs[j]) ::
      SegmentOk(phdrs[j], file) && SegmentIn(view, phdrs[j], file, phdrs[j].filesz)
  }

  /** The segments from i on have no page mapped yet. */
  ghost predicate Apart(view: Memory, phdrs: seq<Phdr>, i: nat) {
    forall j, p | i <= j < |phdrs| && Loads(phdrs[j]) && FirstPage(phdrs[j]) <= p < EndPage(phdrs[j]) :: p !in view
  }

  lemma AllInStep(v: Memory, w: Memory, phdrs: seq<Phdr>, file: seq<u8>, i: nat)
    requires ImageOk(phdrs, file) && i < |phdrs| && Loads(phdrs[i])
    requires AllIn(v, phdrs[..i], file) && Apart(v, phdrs, i)
    requires SegmentOk(phdrs[i], file) && SegmentIn(w, phdrs[i], file, phdrs[i].filesz)
    requires Added(v, w, FirstPage(phdrs[i]), EndPage(phdrs[i]))
    ensures AllIn(w, phdrs[..i + 1], file) && Apart(w, phdrs, i + 1)
  {
    forall j | 0 <= j < i + 1 && Loads(phdrs[j]) ensures SegmentOk(phdrs[j], file) && SegmentIn(w, phdrs[j], file, phdrs[j].filesz) {
      if j < i { assert phdrs[..i][j] == phdrs[j]; }
    }
    forall j, p | i + 1 <= j < |phdrs| && Loads(phdrs[j]) && FirstPage(phdrs[j]) <= p < EndPage(phdrs[j]) ensures p !in w {
      assert PagesApart(phdrs[i], phdrs[j]);
    }
  }

  /** The break starts on a page boundary at or above the end of every segment, and no higher than it must. */
  lemma {:induction false} LoadEndSpec(phdrs: seq<Phdr>, j: nat)
    ensures LoadEnd(phdrs) % 4096 == 0
    ensures j < |phdrs| && Loads(phdrs[j]) ==> phdrs[j].vaddr + phdrs[j].memsz <= LoadEnd(phdrs)
    ensures LoadEnd(phdrs) == 0 || exists i | 0 <= i < |phdrs| && Loads(phdrs[i]) :: LoadEnd(phdrs) < phdrs[i].vaddr + phdrs[i].memsz + 4096
  {
    if phdrs != [] {
      var front := phdrs[..|phdrs| - 1];
      LoadEndSpec(front, j);
      if LoadEnd(phdrs) == LoadEnd(front) && LoadEnd(front) != 0 {
        var i :| 0 <= i < |front| && Loads(front[i]) && LoadEnd(front) < front[i].vaddr + front[i].memsz + 4096;
        assert phdrs[i] == front[i];
      }
    }
  }
}
