/**
 * Open files, descriptor tables and pipe ends (fs/vfs.c, kernel/process.c, fs/pipe.c) as atomic steps on one state.
 * File, table and pipe numbers name allocations, so they are never used twice.
 */
module FilesSpec {
  import opened PipeSpec

  datatype End = Plain | ReadEnd(pipe: nat) | WriteEnd(pipe: nat)

  datatype File = File(refs: nat, end: End)

  datatype Slot = Empty | Names(file: nat)

  /** A live pipe: its two counters and the two files vfs_pipe made for it. */
  datatype PipeEnds = PipeEnds(readers: nat, writers: nat, reader: nat, writer: nat)

  /** held counts the references kernel code has in hand, outside any table; freed counts the pipes released. */
  datatype State = State(files: map<nat, File>, tables: map<nat, seq<Slot>>, held: multiset<nat>, used: set<nat>,
                         pipes: map<nat, PipeEnds>, made: set<nat>, freed: multiset<nat>)

  const OPEN_MAX: nat := 1024

  function Slots(tables: map<nat, seq<Slot>>, f: nat): set<(nat, nat)> {
    set t, i | t in tables && 0 <= i < |tables[t]| && tables[t][i] == Names(f) :: (t, i)
  }

  function RefsOf(s: State, f: nat): nat {
    if f in s.files then s.files[f].refs else 0
  }

  /** Each file's count is the number of descriptor slots naming it, over all tables, plus the references in hand. */
  ghost predicate Counted(s: State) {
    && (forall f: nat :: RefsOf(s, f) == |Slots(s.tables, f)| + s.held[f])
    && (forall f | f in s.files :: s.files[f].refs > 0)
  }

  /** A pipe's counters say which of its two files are alive, and at least one is. */
  predicate PipeOk(s: State, p: nat)
    requires p in s.pipes
  {
    var e := s.pipes[p];
    && e.reader != e.writer && e.reader in s.used && e.writer in s.used
    && (e.reader in s.files ==> s.files[e.reader].end == ReadEnd(p))
    && (e.writer in s.files ==> s.files[e.writer].end == WriteEnd(p))
    && e.readers == (if e.reader in s.files then 1 else 0)
    && e.writers == (if e.writer in s.files then 1 else 0)
    && e.readers + e.writers > 0
  }

  /** A pipe end's pipe is alive and knows it. */
  predicate EndOk(s: State, f: nat)
    requires f in s.files
  {
    match s.files[f].end
    case Plain => true
    case ReadEnd(p) => p in s.pipes && s.pipes[p].reader == f
    case WriteEnd(p) => p in s.pipes && s.pipes[p].writer == f
  }

  /** Each pipe ever made is either alive or has been freed once. */
  ghost predicate FreedOnce(s: State) {
    && (forall p | p in s.made :: (p in s.pipes && s.freed[p] == 0) || (p !in s.pipes && s.freed[p] == 1))
    && (forall p | p in s.pipes || p in s.freed :: p in s.made)
  }

  ghost predicate PipesOk(s: State) {
    && s.files.Keys <= s.used
    && (forall p | p in s.pipes :: PipeOk(s, p))
    && (forall f | f in s.files :: EndOk(s, f))
    && FreedOnce(s)
  }

  predicate TablesOk(s: State) {
    forall t | t in s.tables :: |s.tables[t]| == OPEN_MAX
  }

  ghost predicate Inv(s: State) {
    Counted(s) && PipesOk(s) && TablesOk(s)
  }

  datatype Step =
    | Open(f: nat)
    | MakePipe(p: nat, r: nat, w: nat)
    | Get(f: nat)
    | Install(t: nat, i: nat, f: nat)
    | Put(f: nat)
    | Drop(t: nat, i: nat)
    | NewTable(t: nat)
    | FreeTable(t: nat)

  predicate Enabled(s: State, e: Step) {
    match e
    case Open(f) => f !in s.used
    case MakePipe(p, r, w) => p !in s.made && r !in s.used && w !in s.used && r != w
    case Get(f) => f in s.files
    case Install(t, i, f) => t in s.tables && i < |s.tables[t]| && s.tables[t][i] == Empty && f in s.held
    case Put(f) => f in s.held && f in s.files && s.files[f].refs > 0
    case Drop(t, i) => t in s.tables && i < |s.tables[t]| && s.tables[t][i].Names? && s.tables[t][i].file in s.files && s.files[s.tables[t][i].file].refs > 0
    case NewTable(t) => t !in s.tables
    case FreeTable(t) => t in s.tables && forall i | 0 <= i < |s.tables[t]| :: s.tables[t][i] == Empty
  }

  /** The two release functions of a pipe: the end's counter goes down, and the last end frees the pipe. */
  function Release(s: State, end: End): State {
    if end.Plain? || end.pipe !in s.pipes then s
    else
      var e := s.pipes[end.pipe];
      var n := if end.ReadEnd? then e.(readers := if e.readers > 0 then e.readers - 1 else 0)
               else e.(writers := if e.writers > 0 then e.writers - 1 else 0);
      if n.readers == 0 && n.writers == 0 then s.(pipes := s.pipes - {end.pipe}, freed := s.freed + multiset{end.pipe})
      else s.(pipes := s.pipes[end.pipe := n])
  }

  /** file_put: the last reference runs file_free. */
  function FilePut(s: State, f: nat): State
    requires f in s.files && s.files[f].refs > 0
  {
    var file := s.files[f];
    if file.refs > 1 then s.(files := s.files[f := file.(refs := file.refs - 1)])
    else Release(s.(files := s.files - {f}), file.end)
  }

  function SetSlot(s: State, t: nat, i: nat, v: Slot): State
    requires t in s.tables && i < |s.tables[t]|
  {
    s.(tables := s.tables[t := s.tables[t][i := v]])
  }

  function Apply(s: State, e: Step): State
    requires Enabled(s, e)
  {
    match e
    case Open(f) => s.(files := s.files[f := File(1, Plain)], held := s.held + multiset{f}, used := s.used + {f})
    case MakePipe(p, r, w) =>
      s.(files := s.files[r := File(1, ReadEnd(p))][w := File(1, WriteEnd(p))], held := s.held + multiset{r, w},
         used := s.used + {r, w}, pipes := s.pipes[p := PipeEnds(1, 1, r, w)], made := s.made + {p})
    case Get(f) => s.(files := s.files[f := s.files[f].(refs := s.files[f].refs + 1)], held := s.held + multiset{f})
    case Install(t, i, f) => SetSlot(s.(held := s.held - multiset{f}), t, i, Names(f))
    case Put(f) => FilePut(s.(held := s.held - multiset{f}), f)
    case Drop(t, i) => SetSlot(FilePut(s, s.tables[t][i].file), t, i, Empty)
    case NewTable(t) => s.(tables := s.tables[t := seq(OPEN_MAX, _ => Empty)])
    case FreeTable(t) => s.(tables := s.tables - {t})
  }

  lemma SlotsSet(tables: map<nat, seq<Slot>>, t: nat, i: nat, v: Slot, g: nat)
    requires t in tables && i < |tables[t]|
    ensures Slots(tables[t := tables[t][i := v]], g) ==
      if v == Names(g) then Slots(tables, g) + {(t, i)} else Slots(tables, g) - {(t, i)}
    ensures (t, i) in Slots(tables, g) <==> tables[t][i] == Names(g)
  {
  }

  /** What storing into one slot does to the number of slots naming a file. */
  lemma SlotsSize(tables: map<nat, seq<Slot>>, t: nat, i: nat, v: Slot, g: nat)
    requires t in tables && i < |tables[t]|
    ensures |Slots(tables[t := tables[t][i := v]], g)| ==
      |Slots(tables, g)| - (if tables[t][i] == Names(g) then 1 else 0) + if v == Names(g) then 1 else 0
  {
    SlotsSet(tables, t, i, v, g);
    hide Slots;
  }

  lemma SlotsOfEmpty(tables: map<nat, seq<Slot>>, t: nat, g: nat)
    requires t in tables ==> forall i | 0 <= i < |tables[t]| :: tables[t][i] == Empty
    ensures Slots(tables - {t}, g) == Slots(tables, g)
  {
  }

  /** file_put takes one off the file's own count and touches neither the tables nor the references in hand. */
  lemma FilePutRefs(s: State, f: nat)
    requires f in s.files && s.files[f].refs > 0
    ensures var n := FilePut(s, f);
      && n.tables == s.tables && n.held == s.held && n.used == s.used && n.made == s.made
      && (forall g :: RefsOf(n, g) == RefsOf(s, g) - if f == g then 1 else 0)
      && (forall g | g in n.files :: g in s.files && (g != f ==> n.files[g] == s.files[g]))
      && (f in n.files ==> n.files[f].refs > 0)
  {
  }

  lemma InstallCounts(s: State, t: nat, i: nat, f: nat)
    requires Counted(s) && Enabled(s, Install(t, i, f))
    ensures Counted(Apply(s, Install(t, i, f)))
  {
    var n := Apply(s, Install(t, i, f));
    forall g: nat ensures RefsOf(n, g) == |Slots(n.tables, g)| + n.held[g] {
      SlotsSize(s.tables, t, i, Names(f), g);
      hide Slots;
    }
  }

  lemma PutCount(s: State, f: nat, g: nat)
    requires Counted(s) && Enabled(s, Put(f))
    ensures var n := Apply(s, Put(f)); RefsOf(n, g) == |Slots(n.tables, g)| + n.held[g]
  {
    var m := s.(held := s.held - multiset{f});
    FilePutRefs(m, f);
    assert RefsOf(s, g) == |Slots(s.tables, g)| + s.held[g] && RefsOf(m, g) == RefsOf(s, g);
    assert m.held[g] == s.held[g] - if f == g then 1 else 0;
    hide Slots, FilePut, RefsOf, Counted;
  }

  lemma PutCounts(s: State, f: nat)
    requires Counted(s) && Enabled(s, Put(f))
    ensures Counted(Apply(s, Put(f)))
  {
    FilePutRefs(s.(held := s.held - multiset{f}), f);
    forall g: nat ensures var n := Apply(s, Put(f)); RefsOf(n, g) == |Slots(n.tables, g)| + n.held[g] { PutCount(s, f, g); }
    hide Slots, FilePut, RefsOf;
  }

  lemma DropCounts(s: State, t: nat, i: nat)
    requires Counted(s) && Enabled(s, Drop(t, i))
    ensures Counted(Apply(s, Drop(t, i)))
  {
    FilePutRefs(s, s.tables[t][i].file);
    hide Slots, FilePut;
    var n := Apply(s, Drop(t, i));
    forall g: nat ensures RefsOf(n, g) == |Slots(n.tables, g)| + n.held[g] {
      SlotsSize(s.tables, t, i, Empty, g);
      assert RefsOf(s, g) == |Slots(s.tables, g)| + s.held[g];
    }
  }

  lemma NewCounts(s: State, e: Step)
    requires Counted(s) && s.files.Keys <= s.used && Enabled(s, e) && (e.Open? || e.Get?)
    ensures Counted(Apply(s, e))
  {
    hide Slots;
    var n := Apply(s, e);
    forall g: nat ensures RefsOf(n, g) == |Slots(n.tables, g)| + n.held[g] {
      assert RefsOf(s, g) == |Slots(s.tables, g)| + s.held[g];
    }
  }

  lemma PipeCounts(s: State, p: nat, r: nat, w: nat)
    requires Counted(s) && s.files.Keys <= s.used && Enabled(s, MakePipe(p, r, w))
    ensures Counted(Apply(s, MakePipe(p, r, w)))
  {
    hide Slots;
    var n := Apply(s, MakePipe(p, r, w));
    forall g: nat ensures RefsOf(n, g) == |Slots(n.tables, g)| + n.held[g] {
      assert RefsOf(s, g) == |Slots(s.tables, g)| + s.held[g];
      assert n.held[g] == s.held[g] + if g == r || g == w then 1 else 0;
    }
  }

  lemma TableCounts(s: State, e: Step)
    requires Counted(s) && Enabled(s, e) && (e.NewTable? || e.FreeTable?)
    ensures Counted(Apply(s, e))
  {
    var n := Apply(s, e);
    forall g: nat ensures RefsOf(n, g) == |Slots(n.tables, g)| + n.held[g] {
      if e.NewTable? {
        assert s.tables == n.tables - {e.t};
        SlotsOfEmpty(n.tables, e.t, g);
      } else {
        SlotsOfEmpty(s.tables, e.t, g);
      }
      assert RefsOf(s, g) == |Slots(s.tables, g)| + s.held[g];
    }
  }

  lemma DropOnePipes(s: State, f: nat)
    requires PipesOk(s) && f in s.files && s.files[f].refs > 1
    ensures PipesOk(FilePut(s, f))
  {
    var n := FilePut(s, f);
    forall p | p in n.pipes ensures PipeOk(n, p) { assert PipeOk(s, p); }
    forall g | g in n.files ensures EndOk(n, g) { assert EndOk(s, g); }
  }

  lemma DropLastPipes(s: State, f: nat)
    requires PipesOk(s) && f in s.files && s.files[f].refs == 1
    ensures PipesOk(FilePut(s, f))
  {
    var n := FilePut(s, f);
    assert EndOk(s, f);
    forall p | p in n.pipes ensures PipeOk(n, p) { assert PipeOk(s, p); }
    forall g | g in n.files ensures EndOk(n, g) { assert EndOk(s, g); }
  }

  /** Releasing the last reference of a file keeps every pipe's counters equal to its live ends. */
  lemma FilePutPipes(s: State, f: nat)
    requires PipesOk(s) && f in s.files && s.files[f].refs > 0
    ensures PipesOk(FilePut(s, f))
  {
    if s.files[f].refs > 1 { DropOnePipes(s, f); } else { DropLastPipes(s, f); }
    hide PipesOk, FilePut;
  }

  lemma NewPipes(s: State, e: Step)
    requires PipesOk(s) && Enabled(s, e) && (e.Open? || e.MakePipe? || e.Get?)
    ensures PipesOk(Apply(s, e))
  {
    var n := Apply(s, e);
    forall p | p in n.pipes ensures PipeOk(n, p) { if p in s.pipes { assert PipeOk(s, p); } }
    forall g | g in n.files ensures EndOk(n, g) { if g in s.files { assert EndOk(s, g); } }
  }

  lemma SamePipes(s: State, n: State)
    requires PipesOk(s) && n == s.(tables := n.tables, held := n.held)
    ensures PipesOk(n)
  {
    forall p | p in n.pipes ensures PipeOk(n, p) { assert PipeOk(s, p); }
    forall g | g in n.files ensures EndOk(n, g) { assert EndOk(s, g); }
  }

  lemma StepCounts(s: State, e: Step)
    requires Inv(s) && Enabled(s, e)
    ensures Counted(Apply(s, e))
  {
    match e
    case Open(_) => NewCounts(s, e);
    case MakePipe(p, r, w) => PipeCounts(s, p, r, w);
    case Get(_) => NewCounts(s, e);
    case Install(t, i, f) => InstallCounts(s, t, i, f);
    case Put(f) => PutCounts(s, f);
    case Drop(t, i) => DropCounts(s, t, i);
    case NewTable(_) => TableCounts(s, e);
    case FreeTable(_) => TableCounts(s, e);
  }

  lemma StepPipes(s: State, e: Step)
    requires PipesOk(s) && Enabled(s, e)
    ensures PipesOk(Apply(s, e))
  {
    hide PipesOk, FilePut;
    match e
    case Open(_) => NewPipes(s, e);
    case MakePipe(_, _, _) => NewPipes(s, e);
    case Get(_) => NewPipes(s, e);
    case Put(f) =>
      var m := s.(held := s.held - multiset{f});
      SamePipes(s, m);
      FilePutPipes(m, f);
    case Drop(t, i) =>
      var f := s.tables[t][i].file;
      FilePutRefs(s, f);
      FilePutPipes(s, f);
      SamePipes(FilePut(s, f), Apply(s, e));
    case _ => SamePipes(s, Apply(s, e));
  }

  lemma StepTables(s: State, e: Step)
    requires TablesOk(s) && Enabled(s, e)
    ensures TablesOk(Apply(s, e))
  {
    match e
    case Put(f) => FilePutRefs(s.(held := s.held - multiset{f}), f);
    case Drop(t, i) => FilePutRefs(s, s.tables[t][i].file);
    case _ =>
  }

  lemma StepKeeps(s: State, e: Step)
    requires Inv(s) && Enabled(s, e)
    ensures Inv(Apply(s, e))
  {
    StepCounts(s, e);
    StepPipes(s, e);
    StepTables(s, e);
    hide Counted, PipesOk, TablesOk, Apply;
  }

  /** A sequence of steps leads from one state to another. */
  ghost predicate Leads(s: State, steps: seq<Step>, n: State) {
    if steps == [] then s == n
    else
      var last := |steps| - 1;
      exists m :: Leads(s, steps[..last], m) && Enabled(m, steps[last]) && n == Apply(m, steps[last])
  }

  lemma {:induction false} RefcountsInEveryRun(s: State, steps: seq<Step>, n: State)
    requires Inv(s) && Leads(s, steps, n)
    ensures Inv(n)
    decreases |steps|
  {
    if steps != [] {
      var last := |steps| - 1;
      var m :| Leads(s, steps[..last], m) && Enabled(m, steps[last]) && n == Apply(m, steps[last]);
      RefcountsInEveryRun(s, steps[..last], m);
      StepKeeps(m, steps[last]);
    }
  }

  lemma LeadsStep(s: State, steps: seq<Step>, m: State, e: Step)
    requires Leads(s, steps, m) && Enabled(m, e)
    ensures Leads(s, steps + [e], Apply(m, e))
  {
    assert (steps + [e])[..|steps|] == steps;
  }

  /** Somebody can still reach the file: a descriptor slot names it or kernel code has it in hand. */
  ghost predicate Referenced(s: State, f: nat) {
    (exists t, i :: t in s.tables && 0 <= i < |s.tables[t]| && s.tables[t][i] == Names(f)) || f in s.held
  }

  /** A file object is alive exactly as long as somebody can reach it. */
  lemma AliveIffReferenced(s: State, f: nat)
    requires Inv(s)
    ensures f in s.files <==> Referenced(s, f)
  {
    assert RefsOf(s, f) == |Slots(s.tables, f)| + s.held[f];
    if f in s.files && f !in s.held {
      assert Slots(s.tables, f) != {};
      var x :| x in Slots(s.tables, f);
    }
    if t, i :| t in s.tables && 0 <= i < |s.tables[t]| && s.tables[t][i] == Names(f) {
      assert (t, i) in Slots(s.tables, f);
    }
  }

  /**
   * Over any run a pipe's memory is released exactly once, and that is when nobody can reach either end any more;
   * whoever still reaches an end finds the pipe alive.
   */
  lemma PipeFreedOnce(s: State, steps: seq<Step>, n: State, p: nat, f: nat)
    requires Inv(s) && Leads(s, steps, n)
    ensures p in n.made ==> n.freed[p] == if p in n.pipes then 0 else 1
    ensures p in n.pipes ==> Referenced(n, n.pipes[p].reader) || Referenced(n, n.pipes[p].writer)
    ensures Referenced(n, f) ==> f in n.files && (!n.files[f].end.Plain? ==> n.files[f].end.pipe in n.pipes)
  {
    RefcountsInEveryRun(s, steps, n);
    AliveIffReferenced(n, f);
    if p in n.pipes {
      assert PipeOk(n, p);
      AliveIffReferenced(n, n.pipes[p].reader);
      AliveIffReferenced(n, n.pipes[p].writer);
    }
    if f in n.files { assert EndOk(n, f); }
  }

  /**
   * Whatever happens to a pipe, a read of nonzero length comes to report 0 exactly at a section that finds the ring
   * drained while nobody can reach the write end.
   */
  lemma EofExact(s: State, p: nat, q: Pipe, e: Event, c: nat)
    requires Inv(s) && p in s.pipes && q.writers == s.pipes[p].writers && PipeSpec.Inv(q) && PipeSpec.Enabled(q, e)
    requires c in q.calls && q.calls[c].ReadCall? && q.calls[c].count > 0 && !q.calls[c].status.Returned?
    ensures c in PipeSpec.Apply(q, e).calls
    ensures PipeSpec.Apply(q, e).calls[c].status == Returned(0) <==>
            e == ReadSection(c) && q.ring == [] && !Referenced(s, s.pipes[p].writer)
  {
    assert PipeOk(s, p);
    AliveIffReferenced(s, s.pipes[p].writer);
    EventKeepsCall(q, e, c);
    if IsReturned(PipeSpec.Apply(q, e), c) { EventEnds(q, e, c); }
    if AtEof(q, e, c) { EofReturns(q, e, c); }
    hide *;
  }

  /** The tables and the references in hand determine which files are alive and every count. */
  lemma CountsDetermined(s: State, n: State)
    requires Inv(s) && Inv(n) && s.tables == n.tables && s.held == n.held
    ensures s.files.Keys == n.files.Keys && forall f | f in s.files :: s.files[f].refs == n.files[f].refs
  {
    forall f: nat ensures RefsOf(s, f) == RefsOf(n, f) {
      assert RefsOf(s, f) == |Slots(s.tables, f)| + s.held[f];
      assert RefsOf(n, f) == |Slots(n.tables, f)| + n.held[f];
    }
    hide Slots;
    forall f ensures f in s.files <==> f in n.files { assert RefsOf(s, f) == RefsOf(n, f); }
    forall f | f in s.files ensures s.files[f].refs == n.files[f].refs { assert RefsOf(s, f) == RefsOf(n, f); }
  }
}
