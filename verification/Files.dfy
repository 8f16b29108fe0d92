/** The descriptor system calls and the files_* helpers, updating the tables and counts in place. */
module Files {
  import opened Base
  import opened FilesSpec

  /** One atomic step. */
  ghost predicate Stepped(s: State, e: Step, n: State) {
    Enabled(s, e) && n == Apply(s, e)
  }

  lemma StepIs(s: State, e: Step)
    requires Enabled(s, e)
    ensures Stepped(s, e, Apply(s, e))
  {
  }

  /** Some sequence of atomic steps leads from one state to the other. */
  ghost predicate Reached(s: State, n: State) {
    exists steps :: Leads(s, steps, n)
  }

  lemma ReachedSelf(s: State)
    ensures Reached(s, s)
  {
    assert Leads(s, [], s);
  }

  lemma {:induction false} LeadsTrans(s: State, first: seq<Step>, m: State, steps: seq<Step>, n: State)
    requires Leads(s, first, m) && Leads(m, steps, n)
    ensures Reached(s, n)
    decreases |steps|
  {
    if steps != [] {
      var last := |steps| - 1;
      var k :| Leads(m, steps[..last], k) && Enabled(k, steps[last]) && n == Apply(k, steps[last]);
      LeadsTrans(s, first, m, steps[..last], k);
      ReachedStep(s, k, steps[last], n);
    }
  }

  lemma ReachedTrans(s: State, m: State, n: State)
    requires Reached(s, m) && Reached(m, n)
    ensures Reached(s, n)
  {
    var first :| Leads(s, first, m);
    var steps :| Leads(m, steps, n);
    LeadsTrans(s, first, m, steps, n);
  }

  lemma ReachedStep(s: State, m: State, e: Step, n: State)
    requires Reached(s, m) && Stepped(m, e, n)
    ensures Reached(s, n)
  {
    var steps :| Leads(s, steps, m);
    LeadsStep(s, steps, m, e);
  }

  /** The lowest empty slot of a table. */
  predicate IsLowest(table: seq<Slot>, fd: nat) {
    fd < |table| && table[fd] == Empty && forall i | 0 <= i < fd :: table[i].Names?
  }

  predicate InUse(table: seq<Slot>, fd: int) {
    0 <= fd < |table| && table[fd].Names?
  }

  lemma StoreTwice(tables: map<nat, seq<Slot>>, t: nat, i: nat, u: Slot, v: Slot)
    requires t in tables && i < |tables[t]|
    ensures var m := tables[t := tables[t][i := u]]; m[t := m[t][i := v]] == tables[t := tables[t][i := v]]
  {
    assert tables[t][i := u][i := v] == tables[t][i := v];
  }

  lemma StoreBack(tables: map<nat, seq<Slot>>, t: nat, i: nat, u: Slot)
    requires t in tables && i < |tables[t]| && tables[t][i] == Empty
    ensures var m := tables[t := tables[t][i := u]]; m[t := m[t][i := Empty]] == tables
  {
    StoreTwice(tables, t, i, u, Empty);
    assert tables[t][i := Empty] == tables[t];
  }

  /** One more reference to one file. */
  predicate MoreRefs(files: map<nat, File>, now: map<nat, File>, f: nat) {
    f in files && now == files[f := files[f].(refs := files[f].refs + 1)]
  }

  /** Taking a reference and storing it: one more reference, one more slot, nothing left in hand. */
  lemma GetThenInstall(s: State, f: nat, t: nat, i: nat)
    requires f in s.files && t in s.tables && i < |s.tables[t]| && s.tables[t][i] == Empty
    ensures var g := Apply(s, Get(f));
      && g.tables == s.tables && f in g.held && Enabled(g, Install(t, i, f))
      && Apply(g, Install(t, i, f)) == s.(files := s.files[f := s.files[f].(refs := s.files[f].refs + 1)],
                                          tables := s.tables[t := s.tables[t][i := Names(f)]])
  {
    assert s.held + multiset{f} - multiset{f} == s.held;
  }

  /** A slot in use names a live file. */
  ghost function ClearsAlive(s: State, t: nat, i: nat): (f: nat)
    requires Inv(s) && t in s.tables && InUse(s.tables[t], i)
    ensures f == s.tables[t][i].file && f in s.files && s.files[f].refs > 0
  {
    AliveIffReferenced(s, s.tables[t][i].file);
    s.tables[t][i].file
  }

  lemma FreshUnheld(s: State, f: nat)
    requires Inv(s) && f !in s.used
    ensures f !in s.held && f !in s.files
  {
    AliveIffReferenced(s, f);
  }

  /** Opening a file and dropping the only reference to it leaves everything but the history as it was. */
  lemma OpenThenPut(s: State, f: nat)
    requires s.files.Keys <= s.used && f !in s.used && f !in s.held
    ensures Enabled(Apply(s, Open(f)), Put(f)) && Apply(Apply(s, Open(f)), Put(f)) == s.(used := s.used + {f})
  {
    var n := Apply(s, Open(f));
    assert n.files - {f} == s.files;
    assert n.held - multiset{f} == s.held;
  }

  lemma OpenThenInstall(s: State, t: nat, i: nat, f: nat)
    requires t in s.tables && i < |s.tables[t]| && s.tables[t][i] == Empty && f !in s.used
    ensures var b := Apply(s, Open(f));
      && f in b.held && b.tables == s.tables && Enabled(b, Install(t, i, f))
      && Apply(b, Install(t, i, f)) == s.(files := s.files[f := File(1, Plain)], used := s.used + {f},
                                          tables := s.tables[t := s.tables[t][i := Names(f)]])
  {
    assert s.held + multiset{f} - multiset{f} == s.held;
  }

  lemma PutFacts(s: State, f: nat)
    requires Inv(s) && f in s.held
    ensures f in s.files && s.files[f].refs > 0 && Enabled(s, Put(f)) && Inv(Apply(s, Put(f)))
    ensures var m := s.(held := s.held - multiset{f});
      && PipesOk(m) && Apply(s, Put(f)) == FilePut(m, f)
      && FilePut(m, f).tables == s.tables && FilePut(m, f).used == s.used && FilePut(m, f).made == s.made
  {
    AliveIffReferenced(s, f);
    StepKeeps(s, Put(f));
    var m := s.(held := s.held - multiset{f});
    SamePipes(s, m);
    FilePutRefs(m, f);
  }

  /** A file has just been opened, from state a. */
  ghost predicate Opened(a: State, f: nat, s: State) {
    && a.files.Keys <= a.used && f !in a.used && f !in a.held && Reached(a, s)
    && s == Apply(a, Open(f))
  }

  lemma OpenedFacts(a: State, f: nat, s: State)
    requires Inv(a) && Stepped(a, Open(f), s)
    ensures Opened(a, f, s) && s.tables == a.tables && s.pipes == a.pipes
  {
    FreshUnheld(a, f);
    ReachedSelf(a);
    ReachedStep(a, a, Open(f), s);
  }

  /** Room for two descriptors. */
  predicate TwoEmpty(table: seq<Slot>) {
    exists i, j :: 0 <= i < j < |table| && table[i] == Empty && table[j] == Empty
  }

  lemma RoomForTwo(table: seq<Slot>, fd: nat, rest: seq<Slot>)
    requires IsLowest(table, fd) && |rest| == |table| && rest[fd].Names? && rest == table[fd := rest[fd]]
    ensures TwoEmpty(table) <==> exists i :: 0 <= i < |rest| && rest[i] == Empty
  {
    if i :| 0 <= i < |rest| && rest[i] == Empty {
      assert fd < i && table[fd] == Empty && table[i] == Empty;
    }
    if i, j :| 0 <= i < j < |table| && table[i] == Empty && table[j] == Empty {
      assert rest[if i == fd then j else i] == Empty;
    }
  }

  /** A table copied up to slot i, and one cleared up to slot i. */
  function Upto(table: seq<Slot>, i: nat): seq<Slot>
    requires i <= |table|
  {
    seq(|table|, j requires 0 <= j < |table| => if j < i then table[j] else Empty)
  }

  function From(table: seq<Slot>, i: nat): seq<Slot>
    requires i <= |table|
  {
    seq(|table|, j requires 0 <= j < |table| => if j < i then Empty else table[j])
  }

  lemma UptoStep(tables: map<nat, seq<Slot>>, src: nat, dst: nat, i: nat)
    requires src in tables && i < |tables[src]|
    ensures var m := tables[dst := Upto(tables[src], i)];
      && i < |m[dst]| && m[dst][i] == Empty
      && m[dst := m[dst][i := tables[src][i]]] == tables[dst := Upto(tables[src], i + 1)]
      && (tables[src][i] == Empty ==> m == tables[dst := Upto(tables[src], i + 1)])
  {
    assert Upto(tables[src], i)[i := tables[src][i]] == Upto(tables[src], i + 1);
    assert tables[src][i] == Empty ==> Upto(tables[src], i) == Upto(tables[src], i + 1);
  }

  lemma UptoEnds(table: seq<Slot>)
    ensures Upto(table, 0) == seq(|table|, _ => Empty) && Upto(table, |table|) == table
  {
  }

  lemma FromStep(tables: map<nat, seq<Slot>>, t: nat, i: nat)
    requires t in tables && i < |tables[t]|
    ensures var m := tables[t := From(tables[t], i)];
      && i < |m[t]| && m[t][i] == tables[t][i]
      && m[t := m[t][i := Empty]] == tables[t := From(tables[t], i + 1)]
      && (tables[t][i] == Empty ==> m == tables[t := From(tables[t], i + 1)])
  {
    assert From(tables[t], i)[i := Empty] == From(tables[t], i + 1);
    assert tables[t][i] == Empty ==> From(tables[t], i) == From(tables[t], i + 1);
  }

  lemma FromEnds(tables: map<nat, seq<Slot>>, t: nat)
    requires t in tables
    ensures tables[t := From(tables[t], 0)] == tables
    ensures forall j | 0 <= j < |tables[t]| :: From(tables[t], |tables[t]|)[j] == Empty
    ensures tables[t := From(tables[t], |tables[t]|)] - {t} == tables - {t}
  {
    assert From(tables[t], 0) == tables[t];
  }

  /** A pipe's counters and its two files as vfs_pipe leaves them. */
  predicate BothEnds(s: State, p: nat, r: nat, w: nat) {
    && r != w && r in s.files && s.files[r] == File(1, ReadEnd(p)) && w in s.files && s.files[w] == File(1, WriteEnd(p))
    && p in s.pipes && s.pipes[p] == PipeEnds(1, 1, r, w)
  }

  lemma SteppedTo(s: State, t: nat, i: nat, n: State)
    requires Stepped(s, Drop(t, i), n)
    ensures n.files == FilePut(s, s.tables[t][i].file).files && n.pipes == FilePut(s, s.tables[t][i].file).pipes
  {
  }

  /** What vfs_pipe adds to the files and pipes of a. */
  predicate WithPipe(a: State, s: State, p: nat, r: nat, w: nat) {
    && p !in a.pipes && r !in a.files && w !in a.files && r != w && BothEnds(s, p, r, w)
    && s.files == a.files[r := File(1, ReadEnd(p))][w := File(1, WriteEnd(p))]
    && s.pipes == a.pipes[p := PipeEnds(1, 1, r, w)]
  }

  lemma PipeMade(a: State, p: nat, r: nat, w: nat, s: State)
    requires Inv(a) && Stepped(a, MakePipe(p, r, w), s)
    ensures WithPipe(a, s, p, r, w) && s.held == a.held + multiset{r, w} && s.tables == a.tables
  {
    FreshUnheld(a, r);
    FreshUnheld(a, w);
  }

  /** A new pipe whose two files, the only new ones, are named by the two lowest slots that were free. */
  predicate PipeIn(a: State, s: State, t: nat, rfd: int, wfd: int, p: nat, r: nat, w: nat) {
    && WithPipe(a, s, p, r, w) && t in a.tables && rfd >= 0 && wfd >= 0
    && IsLowest(a.tables[t], rfd) && IsLowest(a.tables[t][rfd := Names(r)], wfd)
    && s.tables == a.tables[t := a.tables[t][rfd := Names(r)][wfd := Names(w)]]
  }

  ghost predicate PipeInstalled(a: State, s: State, t: nat, rfd: int, wfd: int) {
    exists p, r, w :: PipeIn(a, s, t, rfd, wfd, p, r, w)
  }

  lemma StoreBoth(tables: map<nat, seq<Slot>>, t: nat, table: seq<Slot>, j: nat, v: Slot)
    requires j < |table|
    ensures var m := tables[t := table]; m[t := m[t][j := v]] == tables[t := table[j := v]]
  {
  }

  lemma ReaderGone(s: State, p: nat, r: nat, w: nat)
    requires BothEnds(s, p, r, w)
    ensures FilePut(s, r).files == s.files - {r} && FilePut(s, r).pipes == s.pipes[p := PipeEnds(0, 1, r, w)]
  {
  }

  lemma WriterGone(s: State, p: nat, r: nat, w: nat)
    requires w in s.files && s.files[w] == File(1, WriteEnd(p)) && p in s.pipes && s.pipes[p] == PipeEnds(0, 1, r, w)
    ensures FilePut(s, w).files == s.files - {w} && FilePut(s, w).pipes == s.pipes - {p}
  {
  }

  /** Dropping both files of a new pipe, reader first, brings back the files and pipes there were before. */
  lemma PipeUndone(files: map<nat, File>, pipes: map<nat, PipeEnds>, p: nat, r: nat, w: nat)
    requires p !in pipes && r !in files && w !in files && r != w
    ensures files[r := File(1, ReadEnd(p))][w := File(1, WriteEnd(p))] - {r} - {w} == files
    ensures pipes[p := PipeEnds(1, 1, r, w)][p := PipeEnds(0, 1, r, w)] - {p} == pipes
  {
  }

  class Descriptors {
    var files: map<nat, File>
    var tables: map<nat, seq<Slot>>
    var pipes: map<nat, PipeEnds>
    var nextFile: nat
    var nextPipe: nat
    // The same state with the references in hand and the allocation history added.
    ghost var s: State

    ghost predicate Valid()
      reads this
    {
      && Inv(s) && s.files == files && s.tables == tables && s.pipes == pipes
      && (forall f | f in s.used :: f < nextFile) && (forall p | p in s.made :: p < nextPipe)
    }

    constructor ()
      ensures Valid() && s == State(map[], map[], multiset{}, {}, map[], {}, multiset{})
    {
      files, tables, pipes := map[], map[], map[];
      nextFile, nextPipe := 0, 0;
      s := State(map[], map[], multiset{}, {}, map[], {}, multiset{});
    }

    /** file_alloc for an opened path. */
    method FileAlloc() returns (f: nat)
      requires Valid()
      modifies this
      ensures Valid() && Stepped(old(s), Open(f), s)
    {
      f := nextFile;
      StepKeeps(s, Open(f));
      hide Inv;
      files := files[f := File(1, Plain)];
      nextFile := nextFile + 1;
      s := Apply(s, Open(f));
    }

    /** vfs_pipe: the pipe's info, with one reader and one writer, and a file for each end; ENOMEM without memory. */
    method VfsPipe(memory: bool) returns (e: int, p: nat, r: nat, w: nat)
      requires Valid()
      modifies this
      ensures Valid() && e == (if memory then 0 else -ENOMEM)
      ensures if memory then Stepped(old(s), MakePipe(p, r, w), s) else s == old(s)
    {
      if !memory { return -ENOMEM, 0, 0, 0; }
      e := 0;
      p, r, w := nextPipe, nextFile, nextFile + 1;
      StepKeeps(s, MakePipe(p, r, w));
      hide Inv;
      files := files[r := File(1, ReadEnd(p))][w := File(1, WriteEnd(p))];
      pipes := pipes[p := PipeEnds(1, 1, r, w)];
      nextFile, nextPipe := nextFile + 2, nextPipe + 1;
      s := Apply(s, MakePipe(p, r, w));
    }

    /** file_get. */
    method FileGet(f: nat)
      requires Valid() && f in files
      modifies this`files, this`s
      ensures Valid() && Stepped(old(s), Get(f), s)
    {
      StepKeeps(s, Get(f));
      hide Inv;
      files := files[f := files[f].(refs := files[f].refs + 1)];
      s := Apply(s, Get(f));
    }

    /** pipe_read_release and pipe_write_release. */
    method ReleaseEnd(end: End, ghost m: State)
      requires m.pipes == pipes
      requires !end.Plain? ==> end.pipe in pipes && (if end.ReadEnd? then pipes[end.pipe].readers else pipes[end.pipe].writers) > 0
      modifies this`pipes
      ensures pipes == Release(m, end).pipes
    {
      if !end.Plain? {
        var e := pipes[end.pipe];
        if end.ReadEnd? { e := e.(readers := e.readers - 1); } else { e := e.(writers := e.writers - 1); }
        if e.readers == 0 && e.writers == 0 {
          pipes := pipes - {end.pipe};
        } else {
          pipes := pipes[end.pipe := e];
        }
      }
    }

    /** file_put: drops one reference, and the last one runs file_free. */
    method FilePut(f: nat, ghost m: State)
      requires PipesOk(m) && m.files == files && m.pipes == pipes && f in files && files[f].refs > 0
      modifies this`files, this`pipes
      ensures files == FilesSpec.FilePut(m, f).files && pipes == FilesSpec.FilePut(m, f).pipes
    {
      var file := files[f];
      if file.refs - 1 == 0 {
        assert EndOk(m, f) && (!file.end.Plain? ==> PipeOk(m, file.end.pipe));
        hide PipesOk;
        files := files - {f};
        ReleaseEnd(file.end, m.(files := m.files - {f}));
      } else {
        files := files[f := file.(refs := file.refs - 1)];
      }
    }

    /** file_put of a reference in hand. */
    method PutHeld(f: nat)
      requires Valid() && f in s.held
      modifies this`files, this`pipes, this`s
      ensures Valid() && Stepped(old(s), Put(f), s)
    {
      PutFacts(s, f);
      ghost var m, n := s.(held := s.held - multiset{f}), Apply(s, Put(f));
      StepIs(s, Put(f));
      hide Inv, PipesOk, FilesSpec.FilePut, Enabled, Apply, Stepped;
      FilePut(f, m);
      s := n;
    }

    /** Storing a reference in hand into an empty slot. */
    method Store(t: nat, i: nat, f: nat)
      requires Valid() && t in tables && i < |tables[t]| && tables[t][i] == Empty && f in s.held
      modifies this`tables, this`s
      ensures Valid() && Stepped(old(s), Install(t, i, f), s)
    {
      StepKeeps(s, Install(t, i, f));
      hide Inv;
      tables := tables[t := tables[t][i := Names(f)]];
      s := Apply(s, Install(t, i, f));
    }

    /** files_free_fd on a slot in use. */
    method Clear(t: nat, i: nat)
      requires Valid() && t in tables && i < |tables[t]| && tables[t][i].Names?
      modifies this`files, this`pipes, this`tables, this`s
      ensures Valid() && Stepped(old(s), Drop(t, i), s)
    {
      var f := tables[t][i].file;
      assert Enabled(s, Drop(t, i)) by { AliveIffReferenced(s, f); }
      StepKeeps(s, Drop(t, i));
      FilePutRefs(s, f);
      hide Inv, PipesOk, FilesSpec.FilePut;
      FilePut(f, s);
      tables := tables[t := tables[t][i := Empty]];
      s := Apply(s, Drop(t, i));
    }

    /** files_free_fd: nothing happens for a descriptor out of range or not in use. */
    method FilesFreeFd(t: nat, fd: int)
      requires Valid() && t in tables
      modifies this`files, this`pipes, this`tables, this`s
      ensures Valid() && Reached(old(s), s) && s.held == old(s.held)
      ensures InUse(old(tables[t]), fd) ==>
        Stepped(old(s), Drop(t, fd), s) && tables == old(tables)[t := old(tables[t])[fd := Empty]]
      ensures !InUse(old(tables[t]), fd) ==> s == old(s)
    {
      ghost var a := s;
      ReachedSelf(a);
      if 0 <= fd < 1024 && tables[t][fd].Names? {
        FilePutRefs(a, ClearsAlive(a, t, fd));
        Clear(t, fd);
        ReachedStep(a, a, Drop(t, fd), s);
      }
    }

    /** files_create: 1024 empty slots. */
    method FilesCreate() returns (t: nat)
      requires Valid()
      modifies this`tables, this`s
      ensures Valid() && Stepped(old(s), NewTable(t), s)
    {
      t := UnusedTable();
      StepKeeps(s, NewTable(t));
      hide Inv;
      tables := tables[t := seq(1024, _ => Empty)];
      s := Apply(s, NewTable(t));
    }

    method UnusedTable() returns (t: nat)
      ensures t !in tables
    {
      t := 0;
      ghost var seen: set<nat> := {};
      while t in tables
        invariant seen <= tables.Keys && |seen| == t && forall u | u in seen :: u < t
        decreases |tables| - t
      {
        SubsetSize(seen + {t}, tables.Keys);
        seen := seen + {t};
        t := t + 1;
      }
    }

    /** files_alloc_fd: the lowest empty slot, or EMFILE when there is none. */
    method FilesAllocFd(t: nat) returns (fd: int)
      requires t in tables && |tables[t]| == 1024
      ensures fd >= 0 ==> IsLowest(tables[t], fd)
      ensures fd < 0 ==> fd == -EMFILE && forall i | 0 <= i < 1024 :: tables[t][i].Names?
    {
      fd := 0;
      while fd < 1024
        invariant 0 <= fd <= 1024 && forall i | 0 <= i < fd :: tables[t][i].Names?
      {
        if tables[t][fd] == Empty { return; }
        fd := fd + 1;
      }
      fd := -EMFILE;
    }

    /** sys_open on table t, once the path has been opened or not. */
    method SysOpen(t: nat, found: bool) returns (fd: int)
      requires Valid() && t in tables
      modifies this
      ensures Valid() && Reached(old(s), s) && s.held == old(s.held)
      ensures pipes == old(pipes)
      ensures fd < 0 ==> tables == old(tables) && files == old(files) && (fd == -ENOENT <==> !found)
      ensures fd < 0 && found ==> fd == -EMFILE && forall i | 0 <= i < OPEN_MAX :: old(tables[t])[i].Names?
      ensures fd >= 0 ==> found && IsLowest(old(tables[t]), fd)
      ensures fd >= 0 ==> exists f | f !in old(s.used) ::
        files == old(files)[f := File(1, Plain)] && tables == old(tables)[t := old(tables[t])[fd := Names(f)]]
    {
      ghost var a := s;
      ReachedSelf(s);
      if !found { return -ENOENT; }
      var f := FileAlloc();
      OpenedFacts(a, f, s);
      assert |tables[t]| == 1024;
      hide Inv, Reached, Stepped;
      fd := FilesAllocFd(t);
      if fd < 0 {
        DropOpened(a, f);
      } else {
        InstallOpened(a, t, fd, f);
      }
    }

    method DropOpened(ghost a: State, f: nat)
      requires Valid() && Opened(a, f, s)
      modifies this`files, this`pipes, this`s
      ensures Valid() && Reached(a, s) && s == a.(used := s.used)
    {
      ghost var b := s;
      OpenThenPut(a, f);
      assert f in s.held;
      hide Inv, Reached;
      PutHeld(f);
      ReachedStep(a, b, Put(f), s);
    }

    method InstallOpened(ghost a: State, t: nat, fd: nat, f: nat)
      requires Valid() && Opened(a, f, s) && t in tables && fd < |tables[t]| && tables[t][fd] == Empty
      modifies this`tables, this`s
      ensures Valid() && Reached(a, s) && s.held == a.held && s.pipes == a.pipes
      ensures s.files == a.files[f := File(1, Plain)] && s.tables == a.tables[t := a.tables[t][fd := Names(f)]]
    {
      ghost var b := s;
      OpenThenInstall(a, t, fd, f);
      hide Inv, Reached, Apply;
      Store(t, fd, f);
      ReachedStep(a, b, Install(t, fd, f), s);
    }

    /** sys_close. */
    method SysClose(t: nat, fd: int) returns (r: int)
      requires Valid() && t in tables
      modifies this`files, this`pipes, this`tables, this`s
      ensures Valid() && Reached(old(s), s) && s.held == old(s.held)
      ensures r == (if InUse(old(tables[t]), fd) then 0 else -EBADF)
      ensures tables == if r == 0 then old(tables)[t := old(tables[t])[fd := Empty]] else old(tables)
      ensures if r == 0 then Stepped(old(s), Drop(t, fd), s) else s == old(s)
    {
      if fd < 0 || fd >= 1024 || tables[t][fd] == Empty {
        ReachedSelf(s);
        return -EBADF;
      }
      FilesFreeFd(t, fd);
      r := 0;
    }

    /** file_get on what a slot names, then storing it into an empty slot of some table. */
    method Share(t: nat, fd: nat, u: nat, i: nat)
      requires Valid() && t in tables && InUse(tables[t], fd)
      requires u in tables && i < |tables[u]| && tables[u][i] == Empty
      modifies this`files, this`tables, this`s
      ensures Valid() && Reached(old(s), s) && s.held == old(s.held)
      ensures tables == old(tables)[u := old(tables[u])[i := old(tables[t][fd])]]
      ensures pipes == old(pipes) && MoreRefs(old(files), files, old(tables[t][fd]).file)
    {
      ghost var a := s;
      var f := tables[t][fd].file;
      assert f in files by { ghost var g := ClearsAlive(a, t, fd); }
      GetThenInstall(a, f, u, i);
      hide Inv, Apply;
      FileGet(f);
      ReachedSelf(a);
      ReachedStep(a, a, Get(f), s);
      ghost var b := s;
      Store(u, i, f);
      ReachedStep(a, b, Install(u, i, f), s);
    }

    /** sys_dup: the same file under the lowest free descriptor. */
    method SysDup(t: nat, fd: int) returns (r: int)
      requires Valid() && t in tables
      modifies this`files, this`tables, this`s
      ensures Valid() && Reached(old(s), s) && s.held == old(s.held)
      ensures r == -EBADF <==> !InUse(old(tables[t]), fd)
      ensures r == -EMFILE <==> InUse(old(tables[t]), fd) && forall i | 0 <= i < OPEN_MAX :: old(tables[t])[i].Names?
      ensures r >= 0 || ((r == -EBADF || r == -EMFILE) && s == old(s))
      ensures r >= 0 ==> IsLowest(old(tables[t]), r) && tables == old(tables)[t := old(tables[t])[r := old(tables[t])[fd]]]
      ensures r >= 0 ==> pipes == old(pipes) && MoreRefs(old(files), files, old(tables[t])[fd].file)
    {
      ReachedSelf(s);
      if fd < 0 || fd >= 1024 || tables[t][fd] == Empty { return -EBADF; }
      r := FilesAllocFd(t);
      if r >= 0 { Share(t, fd, t, r); }
    }

    /** sys_dup2: what nw named is closed, and nw then names what fd names. */
    method SysDup2(t: nat, fd: int, nw: int) returns (r: int)
      requires Valid() && t in tables
      modifies this`files, this`pipes, this`tables, this`s
      ensures Valid() && Reached(old(s), s) && s.held == old(s.held)
      ensures r == (if fd == nw || (InUse(old(tables[t]), fd) && 0 <= nw < OPEN_MAX) then nw else -EBADF)
      ensures fd == nw || !InUse(old(tables[t]), fd) || !(0 <= nw < OPEN_MAX) ==> s == old(s)
      ensures fd != nw && InUse(old(tables[t]), fd) && 0 <= nw < OPEN_MAX ==>
        tables == old(tables)[t := old(tables[t])[nw := old(tables[t])[fd]]]
    {
      ghost var a := s;
      ReachedSelf(s);
      if fd == nw { return nw; }
      if fd < 0 || fd >= 1024 || tables[t][fd] == Empty { return -EBADF; }
      if nw < 0 || nw >= 1024 { return -EBADF; }
      r := nw;
      Replace(t, fd, nw);
    }

    method Replace(t: nat, fd: nat, nw: nat)
      requires Valid() && t in tables && InUse(tables[t], fd) && nw < 1024 && fd != nw
      modifies this`files, this`pipes, this`tables, this`s
      ensures Valid() && Reached(old(s), s) && s.held == old(s.held)
      ensures tables == old(tables)[t := old(tables[t])[nw := old(tables[t])[fd]]]
    {
      ghost var a := s;
      assert |tables[t]| == 1024;
      StoreTwice(tables, t, nw, Empty, tables[t][fd]);
      FilesFreeFd(t, nw);
      ghost var b := s;
      hide Inv, Reached;
      assert tables[t][nw] == Empty && tables[t][fd] == a.tables[t][fd];
      Share(t, fd, t, nw);
      ReachedTrans(a, b, s);
    }

    /** The error paths of sys_pipe: the reader's reference is gone, and now the writer's goes too. */
    method DropWriter(ghost a: State, p: nat, r: nat, w: nat)
      requires Valid() && Reached(a, s) && s.held == a.held + multiset{w} && tables == a.tables
      requires p !in a.pipes && r !in a.files && w !in a.files && r != w
      requires files == a.files[r := File(1, ReadEnd(p))][w := File(1, WriteEnd(p))] - {r}
      requires pipes == a.pipes[p := PipeEnds(1, 1, r, w)][p := PipeEnds(0, 1, r, w)]
      modifies this`files, this`pipes, this`s
      ensures Valid() && Reached(a, s) && s.held == a.held
      ensures tables == a.tables && files == a.files && pipes == a.pipes
    {
      ghost var b := s;
      PipeUndone(a.files, a.pipes, p, r, w);
      WriterGone(s.(held := s.held - multiset{w}), p, r, w);
      assert s.held - multiset{w} == a.held;
      PutFacts(s, w);
      hide Inv, FilesSpec.FilePut;
      PutHeld(w);
      ReachedStep(a, b, Put(w), s);
    }

    /** No descriptor for the reader. */
    method DropBoth(ghost a: State, p: nat, r: nat, w: nat)
      requires Valid() && Reached(a, s) && WithPipe(a, s, p, r, w)
      requires s.held == a.held + multiset{r, w} && tables == a.tables
      modifies this`files, this`pipes, this`s
      ensures Valid() && Reached(a, s) && s.held == a.held
      ensures tables == a.tables && files == a.files && pipes == a.pipes
    {
      ghost var b := s;
      PutFacts(s, r);
      ReaderGone(s.(held := s.held - multiset{r}), p, r, w);
      assert s.held - multiset{r} == a.held + multiset{w};
      hide Inv, FilesSpec.FilePut, Reached;
      PutHeld(r);
      ReachedStep(a, b, Put(r), s);
      DropWriter(a, p, r, w);
    }

    /** No descriptor for the writer. */
    method DropInstalled(ghost a: State, t: nat, fd: nat, p: nat, r: nat, w: nat)
      requires Valid() && Reached(a, s) && WithPipe(a, s, p, r, w)
      requires t in a.tables && fd < |a.tables[t]| && a.tables[t][fd] == Empty
      requires s.held == a.held + multiset{w} && tables == a.tables[t := a.tables[t][fd := Names(r)]]
      modifies this`files, this`pipes, this`tables, this`s
      ensures Valid() && Reached(a, s) && s.held == a.held
      ensures tables == a.tables && files == a.files && pipes == a.pipes
    {
      ghost var b := s;
      ReaderGone(s, p, r, w);
      StoreBack(a.tables, t, fd, Names(r));
      assert InUse(tables[t], fd);
      hide Inv, FilesSpec.FilePut, Reached, InUse, Stepped, Apply, Enabled;
      FilesFreeFd(t, fd);
      SteppedTo(b, t, fd, s);
      ReachedTrans(a, b, s);
      DropWriter(a, p, r, w);
    }

    /** sys_pipe: two new descriptors, or nothing at all without memory or room in the table for both. */
    method SysPipe(t: nat, memory: bool) returns (r: int, rfd: int, wfd: int)
      requires Valid() && t in tables
      modifies this
      ensures Valid() && Reached(old(s), s) && s.held == old(s.held)
      ensures r == if !memory then -ENOMEM else if TwoEmpty(old(tables[t])) then 0 else -EMFILE
      ensures r != 0 ==> tables == old(tables) && files == old(files) && pipes == old(pipes)
      ensures r == 0 ==> PipeInstalled(old(s), s, t, rfd, wfd)
    {
      ghost var a := s;
      ReachedSelf(a);
      r, rfd, wfd := 0, -1, -1;
      var e, p, x, w := VfsPipe(memory);
      if e != 0 { return e, -1, -1; }
      PipeMade(a, p, x, w, s);
      ReachedStep(a, a, MakePipe(p, x, w), s);
      assert |tables[t]| == 1024;
      hide Inv, Reached;
      rfd := FilesAllocFd(t);
      if rfd < 0 {
        r := rfd;
        DropBoth(a, p, x, w);
      } else {
        r, wfd := InstallBoth(a, t, rfd, p, x, w);
      }
    }

    method InstallBoth(ghost a: State, t: nat, rfd: nat, p: nat, x: nat, w: nat) returns (r: int, wfd: int)
      requires Valid() && Reached(a, s) && WithPipe(a, s, p, x, w) && s.held == a.held + multiset{x, w}
      requires t in a.tables && tables == a.tables && IsLowest(a.tables[t], rfd)
      modifies this`files, this`pipes, this`tables, this`s
      ensures Valid() && Reached(a, s) && s.held == a.held
      ensures r == if TwoEmpty(a.tables[t]) then 0 else -EMFILE
      ensures r != 0 ==> tables == a.tables && files == a.files && pipes == a.pipes
      ensures r == 0 ==> PipeInstalled(a, s, t, rfd, wfd)
    {
      ghost var b := s;
      assert |tables[t]| == 1024;
      RoomForTwo(a.tables[t], rfd, a.tables[t][rfd := Names(x)]);
      hide Inv, Reached, TwoEmpty;
      Store(t, rfd, x);
      ReachedStep(a, b, Install(t, rfd, x), s);
      ghost var c := s;
      assert s.held == a.held + multiset{w};
      wfd := FilesAllocFd(t);
      if wfd < 0 {
        r := wfd;
        DropInstalled(a, t, rfd, p, x, w);
      } else {
        r := 0;
        Store(t, wfd, w);
        ReachedStep(a, c, Install(t, wfd, w), s);
        assert s.held == a.held;
        StoreBoth(a.tables, t, a.tables[t][rfd := Names(x)], wfd, Names(w));
        assert PipeIn(a, s, t, rfd, wfd, p, x, w);
      }
    }

    /** files_clone: the child's table names what the parent's names, slot for slot. */
    method FilesClone(src: nat) returns (dst: nat)
      requires Valid() && src in tables
      modifies this`files, this`tables, this`s
      ensures Valid() && Reached(old(s), s) && s.held == old(s.held)
      ensures dst !in old(tables) && tables == old(tables)[dst := old(tables)[src]]
    {
      ghost var a := s;
      ReachedSelf(a);
      dst := FilesCreate();
      ReachedStep(a, a, NewTable(dst), s);
      assert |a.tables[src]| == 1024;
      UptoEnds(a.tables[src]);
      hide Inv, Reached, Upto;
      var i := 0;
      while i < 1024
        invariant 0 <= i <= 1024 && Valid() && Reached(a, s) && s.held == a.held
        invariant tables == a.tables[dst := Upto(a.tables[src], i)]
      {
        ghost var b := s;
        UptoStep(a.tables, src, dst, i);
        if tables[src][i].Names? {
          Share(src, i, dst, i);
          ReachedTrans(a, b, s);
        }
        i := i + 1;
      }
    }

    /** files_destroy: every slot's reference is dropped and the table is gone. */
    method FilesDestroy(t: nat)
      requires Valid() && t in tables
      modifies this`files, this`pipes, this`tables, this`s
      ensures Valid() && Reached(old(s), s) && s.held == old(s.held) && tables == old(tables) - {t}
    {
      ghost var a := s;
      FromEnds(tables, t);
      assert |a.tables[t]| == 1024;
      DropSlots(t);
      ghost var b := s;
      hide Inv, Reached, From;
      Discard(t);
      ReachedStep(a, b, FreeTable(t), s);
    }

    method DropSlots(t: nat)
      requires Valid() && t in tables && |tables[t]| == 1024
      modifies this`files, this`pipes, this`tables, this`s
      ensures Valid() && Reached(old(s), s) && s.held == old(s.held)
      ensures tables == old(tables)[t := From(old(tables)[t], 1024)]
    {
      ghost var a := s;
      ReachedSelf(a);
      FromEnds(a.tables, t);
      hide Inv, Reached, From, Stepped;
      var i := 0;
      while i < 1024
        invariant 0 <= i <= 1024 && Valid() && Reached(a, s) && s.held == a.held
        invariant tables == a.tables[t := From(a.tables[t], i)]
      {
        ghost var b := s;
        FromStep(a.tables, t, i);
        if tables[t][i].Names? {
          FilesFreeFd(t, i);
          ReachedTrans(a, b, s);
        }
        i := i + 1;
      }
    }

    method Discard(t: nat)
      requires Valid() && t in tables && forall i | 0 <= i < |tables[t]| :: tables[t][i] == Empty
      modifies this`tables, this`s
      ensures Valid() && Stepped(old(s), FreeTable(t), s)
    {
      StepKeeps(s, FreeTable(t));
      hide Inv;
      tables := tables - {t};
      s := Apply(s, FreeTable(t));
    }
  }
}
