/** The frames behind the memory system calls: what a call displaces, and that a run of brk and mmap loses none. */
module BrkFrames {
  import opened Pmm
  import opened PageTables
  import opened AddressSpaces
  import opened Ranges
  import opened Brk

  /** A call that had the memory it needed, on one directory: the pages follow the call, and only frames whose pages
      it maps over are lost. */
  ghost predicate CallDone(m0: Machine, s0: Space, c: Call, m: Machine, s: Space, pd: nat) {
    && s0.pages == View(m0, pd).Keys && s.pages == View(m, pd).Keys && s == Apply(s0, c)
    && Accounted(m) == Accounted(m0) - Displaced(m0, pd, NewFrom(s0, c), NewTo(s0, c))
  }

  lemma NoneDisplaced(m: Machine, pd: nat, v0: nat, v: nat)
    requires Range(v0, v) !! View(m, pd).Keys
    ensures Displaced(m, pd, v0, v) == {}
  {
    forall w: nat | w in View(m, pd) ensures !Within(v0, w, v) {
      if Within(v0, w, v) { RangeHas(v0, w, v); }
    }
  }

  /** A call in a run of brk and address-0 mmap keeps every frame accounted for. */
  lemma CallKeepsFrames(m0: Machine, s0: Space, c: Call, m: Machine, s: Space, pd: nat, program: set<nat>)
    requires HeapExact(s0, program) && Fits(s0, c, program) && CallDone(m0, s0, c, m, s, pd)
    ensures Accounted(m) == Accounted(m0)
  {
    hide Accounted, View;
    NothingDisplaced(s0, c, program);
    NoneDisplaced(m0, pd, NewFrom(s0, c), NewTo(s0, c));
  }

  ghost predicate IsFrameRun(ms: seq<Machine>, run: seq<Space>, calls: seq<Call>, pd: nat) {
    && |ms| == |run| == |calls| + 1
    && forall i, j | 0 <= i < |calls| && j == i + 1 :: CallDone(ms[i], run[i], calls[i], ms[j], run[j], pd)
  }

  /** No frame leaks in any run of brk and address-0 mmap. */
  lemma {:induction false} FramesInEveryRun(ms: seq<Machine>, run: seq<Space>, calls: seq<Call>, program: set<nat>, pd: nat, k: nat)
    requires Brk.IsRun(run, calls, program) && HeapExact(run[0], program) && IsFrameRun(ms, run, calls, pd) && k <= |calls|
    ensures Accounted(ms[k]) == Accounted(ms[0])
    decreases k
  {
    if k > 0 {
      FramesInEveryRun(ms, run, calls, program, pd, k - 1);
      HeapInEveryRun(run, calls, program, k - 1);
      CallKeepsFrames(ms[k - 1], run[k - 1], calls[k - 1], ms[k], run[k], pd, program);
    }
  }
}
