/** The round-robin scheduler and the wait queues as a transition system. */
module SchedSpec {
  import opened Base

  datatype TaskState = Running | Sleeping

  const SLICE: nat := 20

  /** waits maps each wait queue to its sleepers in order; slice holds remaining ticks. */
  datatype Sched = Sched(current: nat, kernel: nat, runq: seq<nat>, waits: map<nat, seq<nat>>,
                         state: map<nat, TaskState>, slice: map<nat, nat>)

  datatype Event =
    | Add(t: nat, left: nat)      // sched_add of a new task; a forked child inherits its parent's slice
    | Tick                        // sched_tick
    | Yield                       // sched_yield
    | SleepOn(q: nat)             // sleep_on by the current task
    | WakeUp(q: nat)              // wake_up
    | WakeAll(q: nat)             // wake_up_all

  /** schedule: the head of the queue moves to the tail and becomes current. */
  function Schedule(s: Sched): Sched {
    if s.runq == [] then s
    else
      var next := s.runq[0];
      var r := s.(runq := s.runq[1..] + [next]);
      if s.current == next then r else r.(current := next, slice := s.slice[next := SLICE])
  }

  function Left(s: Sched): nat { if s.current in s.slice then s.slice[s.current] else 0 }

  function TickStep(s: Sched): Sched {
    if s.current == s.kernel then s
    else
      var left := if Left(s) > 0 then Left(s) - 1 else 0;
      if left == 0 then Schedule(s.(slice := s.slice[s.current := SLICE]))
      else s.(slice := s.slice[s.current := left])
  }

  function YieldStep(s: Sched): Sched {
    Schedule(if Left(s) > 0 then s.(slice := s.slice[s.current := 0]) else s)
  }

  function Queue(s: Sched, q: nat): seq<nat> { if q in s.waits then s.waits[q] else [] }

  /** The state inside sleep_on just before it calls schedule. */
  function Asleep(s: Sched, q: nat): Sched {
    s.(state := s.state[s.current := Sleeping], waits := s.waits[q := Queue(s, q) + [s.current]],
       runq := Del(s.runq, s.current))
  }

  function SleepStep(s: Sched, q: nat): Sched {
    Schedule(Asleep(s, q))
  }

  function AddStep(s: Sched, t: nat): Sched {
    s.(state := s.state[t := Running], runq := s.runq + [t])
  }

  function WakeStep(s: Sched, q: nat): Sched {
    if Queue(s, q) == [] then s
    else AddStep(s.(waits := s.waits[q := Queue(s, q)[1..]]), Queue(s, q)[0])
  }

  function WakeAllStep(s: Sched, q: nat): Sched
    decreases |Queue(s, q)|
  {
    if Queue(s, q) == [] then s else WakeAllStep(WakeStep(s, q), q)
  }

  function Apply(s: Sched, e: Event): Sched {
    match e
    case Add(t, left) => AddStep(s.(slice := s.slice[t := left]), t)
    case Tick => TickStep(s)
    case Yield => YieldStep(s)
    case SleepOn(q) => SleepStep(s, q)
    case WakeUp(q) => WakeStep(s, q)
    case WakeAll(q) => WakeAllStep(s, q)
  }

  // ---------------------------------------------------------------------------------------------
  // The invariant
  // ---------------------------------------------------------------------------------------------

  /** Known tasks other than the boot task are runnable exactly when queued, once. */
  ghost predicate RunnableQueued(s: Sched) {
    && NoDup(s.runq)
    && (forall t | t in s.runq :: t in s.state && s.state[t] == Running)
    && (forall t | t in s.state && t != s.kernel && s.state[t] == Running :: t in s.runq)
  }

  /** Sleepers are on exactly one wait queue, once. */
  ghost predicate SleepersQueued(s: Sched) {
    && (forall q | q in s.waits :: NoDup(s.waits[q]))
    && (forall q, t | q in s.waits && t in s.waits[q] :: t in s.state && s.state[t] == Sleeping)
    && (forall q, r, t | q in s.waits && r in s.waits && t in s.waits[q] && t in s.waits[r] :: q == r)
    && (forall t | t in s.state && s.state[t] == Sleeping :: exists q :: q in s.waits && t in s.waits[q])
  }

  ghost predicate SlicesOk(s: Sched) {
    && (forall t | t in s.slice :: s.slice[t] <= SLICE)
    && (forall t | t in s.state :: t in s.slice)
  }

  ghost predicate CurrentOk(s: Sched) {
    s.current in s.state && s.state[s.current] == Running && s.kernel in s.state
  }

  ghost predicate Inv(s: Sched) {
    RunnableQueued(s) && SleepersQueued(s) && SlicesOk(s) && CurrentOk(s)
  }

  /** What each event asks: a task being added is new, and a sleeper leaves someone to run. */
  ghost predicate Enabled(s: Sched, e: Event) {
    match e
    case Add(t, left) => t !in s.state && left <= SLICE
    case SleepOn(q) => exists t :: t in s.runq && t != s.current
    case _ => true
  }

  lemma RotateQueue(l: seq<nat>)
    requires NoDup(l) && l != []
    ensures var r := l[1..] + [l[0]]; NoDup(r) && |r| == |l| && forall x :: x in r <==> x in l
  {
    assert l == [l[0]] + l[1..];
    assert l[0] !in l[1..];
  }

  /** schedule keeps the queues; the new current task is runnable. */
  lemma ScheduleKeeps(s: Sched)
    requires RunnableQueued(s) && SleepersQueued(s) && SlicesOk(s) && s.kernel in s.state
    requires s.runq == [] ==> CurrentOk(s)
    ensures Inv(Schedule(s)) && Schedule(s).kernel == s.kernel
    ensures s.runq != [] ==> Schedule(s).current == s.runq[0]
  {
    SleepersSame(s, Schedule(s));
    hide SleepersQueued;
    if s.runq != [] {
      RotateQueue(s.runq);
      assert s.runq[0] in s.runq;
    }
  }

  lemma SleepersSame(s: Sched, n: Sched)
    requires SleepersQueued(s) && n.waits == s.waits && n.state == s.state
    ensures SleepersQueued(n)
  {
  }

  lemma AddKeeps(s: Sched, t: nat, left: nat)
    requires Inv(s) && t !in s.state && left <= SLICE
    ensures Inv(AddStep(s.(slice := s.slice[t := left]), t))
  {
    assert t !in s.runq;
    var n := AddStep(s.(slice := s.slice[t := left]), t);
    forall x | x in n.state && n.state[x] == Sleeping ensures exists q :: q in n.waits && x in n.waits[q] {
      var q :| q in s.waits && x in s.waits[q];
    }
  }

  lemma WakeKeeps(s: Sched, q: nat)
    requires Inv(s)
    ensures Inv(WakeStep(s, q)) && WakeStep(s, q).current == s.current
  {
    var l := Queue(s, q);
    if l != [] {
      var t, n := l[0], WakeStep(s, q);
      assert t in l && s.state[t] == Sleeping && t !in s.runq;
      assert forall x :: x in l <==> x == t || x in l[1..];
      assert t !in l[1..];
      forall x | x in n.state && n.state[x] == Sleeping ensures exists r :: r in n.waits && x in n.waits[r] {
        var r :| r in s.waits && x in s.waits[r];
        assert x in n.waits[r];
      }
    }
  }

  lemma {:induction false} WakeAllKeeps(s: Sched, q: nat)
    requires Inv(s)
    ensures Inv(WakeAllStep(s, q)) && WakeAllStep(s, q).current == s.current
    decreases |Queue(s, q)|
  {
    if Queue(s, q) != [] {
      WakeKeeps(s, q);
      WakeAllKeeps(WakeStep(s, q), q);
    }
  }

  lemma AsleepQueues(s: Sched, q: nat)
    requires Inv(s)
    ensures SleepersQueued(Asleep(s, q))
  {
    var m := Asleep(s, q);
    assert forall x :: x in Queue(s, q) + [s.current] <==> x in Queue(s, q) || x == s.current;
    assert s.current !in Queue(s, q);
    forall x | x in m.state && m.state[x] == Sleeping ensures exists r :: r in m.waits && x in m.waits[r] {
      if x == s.current { assert x in m.waits[q]; }
      else { var r :| r in s.waits && x in s.waits[r]; assert x in m.waits[r]; }
    }
  }

  lemma AsleepRunnable(s: Sched, q: nat)
    requires Inv(s)
    ensures RunnableQueued(Asleep(s, q)) && SlicesOk(Asleep(s, q))
    ensures forall t | t in s.runq && t != s.current :: t in Asleep(s, q).runq
  {
    DelSpec(s.runq, s.current);
    hide SleepersQueued, Del;
  }

  lemma SleepKeeps(s: Sched, q: nat)
    requires Inv(s) && exists t :: t in s.runq && t != s.current
    ensures Inv(SleepStep(s, q))
  {
    AsleepRunnable(s, q);
    AsleepQueues(s, q);
    var t :| t in s.runq && t != s.current;
    assert t in Asleep(s, q).runq;
    hide SleepersQueued, RunnableQueued, SlicesOk, Del;
    ScheduleKeeps(Asleep(s, q));
  }

  lemma HeadIn(l: seq<nat>)
    ensures l != [] ==> l[0] in l
  {
  }

  /** With nobody else to run, the sleeper stays current although it sleeps. */
  lemma SleepAlone(s: Sched, q: nat)
    requires Inv(s) && forall t | t in s.runq :: t == s.current
    ensures !Inv(SleepStep(s, q)) && SleepStep(s, q).current == s.current && SleepStep(s, q).state[s.current] == Sleeping
  {
    DelSpec(s.runq, s.current);
    var u := Del(s.runq, s.current);
    HeadIn(u);
    hide SleepersQueued, Del;
  }

  lemma SliceKeeps(s: Sched, left: nat)
    requires Inv(s) && left <= SLICE
    ensures Inv(s.(slice := s.slice[s.current := left]))
  {
    SleepersSame(s, s.(slice := s.slice[s.current := left]));
    hide SleepersQueued, NoDup;
  }

  lemma TickKeeps(s: Sched)
    requires Inv(s)
    ensures Inv(TickStep(s))
  {
    if s.current != s.kernel {
      assert Left(s) <= SLICE;
      var left := if Left(s) > 0 then Left(s) - 1 else 0;
      SliceKeeps(s, if left == 0 then SLICE else left);
      if left == 0 { ScheduleKeeps(s.(slice := s.slice[s.current := SLICE])); }
      hide Inv, Schedule;
    }
  }

  lemma YieldKeeps(s: Sched)
    requires Inv(s)
    ensures Inv(YieldStep(s))
  {
    SliceKeeps(s, 0);
    ScheduleKeeps(if Left(s) > 0 then s.(slice := s.slice[s.current := 0]) else s);
    hide Inv, Schedule;
  }

  lemma EventKeeps(s: Sched, e: Event)
    requires Inv(s) && Enabled(s, e)
    ensures Inv(Apply(s, e))
  {
    hide Inv;
    match e
    case Add(t, left) => AddKeeps(s, t, left);
    case Tick => TickKeeps(s);
    case Yield => YieldKeeps(s);
    case SleepOn(q) => SleepKeeps(s, q);
    case WakeUp(q) => WakeKeeps(s, q);
    case WakeAll(q) => WakeAllKeeps(s, q);
  }

  ghost predicate IsRun(run: seq<Sched>, events: seq<Event>) {
    |run| == |events| + 1 && forall i | 0 <= i < |events| :: Enabled(run[i], events[i]) && run[i + 1] == Apply(run[i], events[i])
  }

  lemma {:induction false} QueuesInEveryRun(run: seq<Sched>, events: seq<Event>, k: nat)
    requires IsRun(run, events) && Inv(run[0]) && k <= |events|
    ensures Inv(run[k])
  {
    if k > 0 {
      QueuesInEveryRun(run, events, k - 1);
      EventKeeps(run[k - 1], events[k - 1]);
    }
  }

  // ---------------------------------------------------------------------------------------------
  // Time slices
  // ---------------------------------------------------------------------------------------------

  /** The state after k timer ticks and nothing else. */
  function Ticked(s: Sched, k: nat): Sched {
    if k == 0 then s else TickStep(Ticked(s, k - 1))
  }

  lemma {:induction false} SliceRunsDown(s: Sched, k: nat)
    requires s.current != s.kernel && s.current in s.slice && k < s.slice[s.current]
    ensures Ticked(s, k) == s.(slice := s.slice[s.current := s.slice[s.current] - k])
  {
    if k == 0 {
      assert s.slice[s.current := s.slice[s.current]] == s.slice;
    } else {
      SliceRunsDown(s, k - 1);
      var left := s.slice[s.current];
      assert s.slice[s.current := left - (k - 1)][s.current := left - k] == s.slice[s.current := left - k];
    }
  }

  /** A task switched to has the processor for 20 ticks, no fewer and no more, if nothing else happens. */
  lemma SliceExact(s: Sched, k: nat)
    requires Schedule(s).current != s.current && Schedule(s).current != s.kernel && k < 20
    ensures var n := Schedule(s); Ticked(n, k).current == n.current && Ticked(n, 20) == Schedule(n)
  {
    var n := Schedule(s);
    SliceRunsDown(n, k);
    SliceRunsDown(n, 19);
    assert n.slice[n.current := 1][n.current := 20] == n.slice;
  }

  // ---------------------------------------------------------------------------------------------
  // Bounded waiting
  // ---------------------------------------------------------------------------------------------

  /** The position of a task in a queue. */
  function Pos(l: seq<nat>, t: nat): (i: nat)
    requires t in l
    ensures i < |l| && l[i] == t && t !in l[..i]
  {
    if l[0] == t then 0 else assert t in l[1..]; 1 + Pos(l[1..], t)
  }

  lemma PosIs(l: seq<nat>, t: nat, i: nat)
    requires i < |l| && l[i] == t && NoDup(l)
    ensures t in l && Pos(l, t) == i
  {
  }

  /** Does the event call schedule? */
  function CallsSchedule(s: Sched, e: Event): bool {
    match e
    case Tick => s.current != s.kernel && Left(s) <= 1
    case Yield => true
    case SleepOn(q) => true
    case _ => false
  }

  /** How many of the first k events called schedule. */
  function ScheduleCalls(run: seq<Sched>, events: seq<Event>, k: nat): nat
    requires k <= |events| < |run|
  {
    if k == 0 then 0
    else ScheduleCalls(run, events, k - 1) + (if CallsSchedule(run[k - 1], events[k - 1]) then 1 else 0)
  }

  /** One schedule brings a waiting task one place nearer, or onto the processor. */
  lemma RotatePos(s: Sched, t: nat)
    requires NoDup(s.runq) && t in s.runq
    ensures t in Schedule(s).runq
    ensures Pos(s.runq, t) == 0 ==> Schedule(s).current == t
    ensures Pos(s.runq, t) > 0 ==> Pos(Schedule(s).runq, t) == Pos(s.runq, t) - 1
  {
    var i, l := Pos(s.runq, t), s.runq[1..] + [s.runq[0]];
    RotateQueue(s.runq);
    if i > 0 { assert l[i - 1] == t; PosIs(l, t, i - 1); }
  }

  lemma AppendPos(l: seq<nat>, t: nat, x: nat)
    requires NoDup(l) && t in l && x !in l
    ensures t in l + [x] && Pos(l + [x], t) == Pos(l, t)
  {
    assert NoDup(l + [x]);
    PosIs(l + [x], t, Pos(l, t));
  }

  /** Removing another task never pushes a waiting task back. */
  lemma {:induction false} DelPos(l: seq<nat>, x: nat, t: nat)
    requires NoDup(l) && t in l && x != t
    ensures t in Del(l, x) && Pos(Del(l, x), t) <= Pos(l, t)
  {
    DelSpec(l, x);
    if l[0] == x {
      assert l == [l[0]] + l[1..];
      var i := Pos(l, t);
      assert l[1..][i - 1] == t;
      PosIs(l[1..], t, i - 1);
    } else if l[0] != t {
      assert t in l[1..];
      DelPos(l[1..], x, t);
      var u := [l[0]] + Del(l[1..], x);
      assert u[1..] == Del(l[1..], x);
    }
  }

  lemma {:induction false} WakeAllPos(s: Sched, q: nat, t: nat)
    requires Inv(s) && t in s.runq
    ensures t in WakeAllStep(s, q).runq && Pos(WakeAllStep(s, q).runq, t) == Pos(s.runq, t)
    ensures WakeAllStep(s, q).slice == s.slice && WakeAllStep(s, q).current == s.current && WakeAllStep(s, q).kernel == s.kernel
    decreases |Queue(s, q)|
  {
    if Queue(s, q) != [] {
      WakePos(s, q, t);
      WakeKeeps(s, q);
      WakeAllPos(WakeStep(s, q), q, t);
    }
  }

  lemma WakePos(s: Sched, q: nat, t: nat)
    requires Inv(s) && t in s.runq
    ensures t in WakeStep(s, q).runq && Pos(WakeStep(s, q).runq, t) == Pos(s.runq, t)
  {
    var l := Queue(s, q);
    if l != [] {
      assert l[0] in l && s.state[l[0]] == Sleeping && l[0] !in s.runq;
      AppendPos(s.runq, t, l[0]);
    }
  }

  /** While a queued task waits, it keeps its place or moves up, by one at every schedule. */
  lemma EventPos(s: Sched, e: Event, t: nat)
    requires Inv(s) && Enabled(s, e) && t in s.runq && s.current != t && Apply(s, e).current != t
    ensures t in Apply(s, e).runq
    ensures Pos(Apply(s, e).runq, t) + (if CallsSchedule(s, e) then 1 else 0) <= Pos(s.runq, t)
  {
    match e
    case Add(x, left) =>
      assert x !in s.runq;
      AppendPos(s.runq, t, x);
    case Tick =>
      if CallsSchedule(s, e) { RotatePos(s.(slice := s.slice[s.current := SLICE]), t); }
    case Yield => RotatePos(if Left(s) > 0 then s.(slice := s.slice[s.current := 0]) else s, t);
    case SleepOn(q) =>
      DelSpec(s.runq, s.current);
      DelPos(s.runq, s.current, t);
      RotatePos(Asleep(s, q), t);
    case WakeUp(q) => WakePos(s, q, t);
    case WakeAll(q) => WakeAllPos(s, q, t);
  }

  lemma RunLength(run: seq<Sched>, events: seq<Event>)
    requires IsRun(run, events)
    ensures |run| == |events| + 1
  {
  }

  lemma RunAt(run: seq<Sched>, events: seq<Event>, k: nat)
    requires IsRun(run, events) && k < |events|
    ensures Enabled(run[k], events[k]) && run[k + 1] == Apply(run[k], events[k])
  {
  }

  lemma CallsUpTo(run: seq<Sched>, events: seq<Event>, k: nat)
    requires k <= |events| < |run|
    ensures ScheduleCalls(run, events, k) ==
            if k == 0 then 0 else ScheduleCalls(run, events, k - 1) + (if CallsSchedule(run[k - 1], events[k - 1]) then 1 else 0)
  {
  }

  lemma {:induction false} WaitingPos(run: seq<Sched>, events: seq<Event>, t: nat, k: nat)
    requires IsRun(run, events) && Inv(run[0]) && t in run[0].runq && k <= |events|
    requires forall j | 0 <= j <= |events| :: run[j].current != t
    ensures t in run[k].runq
    ensures Pos(run[k].runq, t) + ScheduleCalls(run, events, k) <= Pos(run[0].runq, t)
  {
    hide *;
    RunLength(run, events);
    CallsUpTo(run, events, k);
    if k > 0 {
      WaitingPos(run, events, t, k - 1);
      QueuesInEveryRun(run, events, k - 1);
      RunAt(run, events, k - 1);
      EventPos(run[k - 1], events[k - 1], t);
    }
  }

  /** A task at position i of the run queue becomes current within i + 1 calls of schedule, whatever is
      added, woken or put to sleep meanwhile. */
  lemma BoundedWait(run: seq<Sched>, events: seq<Event>, t: nat)
    requires IsRun(run, events) && Inv(run[0]) && t in run[0].runq
    requires ScheduleCalls(run, events, |events|) >= Pos(run[0].runq, t) + 1
    ensures exists k :: 0 <= k <= |events| && run[k].current == t
  {
    if forall k | 0 <= k <= |events| :: run[k].current != t { WaitingPos(run, events, t, |events|); }
  }

  // ---------------------------------------------------------------------------------------------
  // Bounded waiting in timer ticks
  // ---------------------------------------------------------------------------------------------

  /** Ticks that remain in the worst case before t runs. */
  function Budget(s: Sched, t: nat): nat
    requires t in s.runq
  {
    20 * Pos(s.runq, t) + (if Left(s) == 0 then 1 else Left(s))
  }

  /** No event raises the budget, and every tick of an ordinary task lowers it. */
  lemma EventBudget(s: Sched, e: Event, t: nat)
    requires Inv(s) && Enabled(s, e) && t in s.runq && s.current != t && Apply(s, e).current != t
    requires e.Tick? ==> s.current != s.kernel
    ensures t in Apply(s, e).runq
    ensures Budget(Apply(s, e), t) + (if e.Tick? then 1 else 0) <= Budget(s, t)
  {
    EventPos(s, e, t);
    EventKeeps(s, e);
    match e
    case Add(x, left) => assert x != s.current;
    case Tick =>
    case Yield =>
    case SleepOn(q) =>
    case WakeUp(q) =>
    case WakeAll(q) => WakeAllPos(s, q, t);
  }

  function Ticks(events: seq<Event>, k: nat): nat
    requires k <= |events|
  {
    if k == 0 then 0 else Ticks(events, k - 1) + (if events[k - 1].Tick? then 1 else 0)
  }

  lemma TicksUpTo(events: seq<Event>, k: nat)
    requires k <= |events|
    ensures Ticks(events, k) == if k == 0 then 0 else Ticks(events, k - 1) + (if events[k - 1].Tick? then 1 else 0)
  {
  }

  lemma {:induction false} WaitingBudget(run: seq<Sched>, events: seq<Event>, t: nat, k: nat)
    requires IsRun(run, events) && Inv(run[0]) && t in run[0].runq && k <= |events|
    requires forall j | 0 <= j <= |events| :: run[j].current != t
    requires forall j | 0 <= j < |events| :: events[j].Tick? ==> run[j].current != run[j].kernel
    ensures t in run[k].runq
    ensures Budget(run[k], t) + Ticks(events, k) <= Budget(run[0], t)
  {
    hide *;
    RunLength(run, events);
    TicksUpTo(events, k);
    if k > 0 {
      WaitingBudget(run, events, t, k - 1);
      QueuesInEveryRun(run, events, k - 1);
      RunAt(run, events, k - 1);
      EventBudget(run[k - 1], events[k - 1], t);
    }
  }

  /** A task at position i becomes current within 20 * (i + 1) ticks, as long as the timer interrupts
      ordinary tasks. */
  lemma BoundedWaitInTicks(run: seq<Sched>, events: seq<Event>, t: nat)
    requires IsRun(run, events) && Inv(run[0]) && t in run[0].runq
    requires forall k | 0 <= k < |events| :: events[k].Tick? ==> run[k].current != run[k].kernel
    requires Ticks(events, |events|) >= 20 * (Pos(run[0].runq, t) + 1)
    ensures exists k :: 0 <= k <= |events| && run[k].current == t
  {
    assert Left(run[0]) <= 20;
    if forall k | 0 <= k <= |events| :: run[k].current != t { WaitingBudget(run, events, t, |events|); }
  }

  // ---------------------------------------------------------------------------------------------
  // Wait queues
  // ---------------------------------------------------------------------------------------------

  /** wake_up makes the longest sleeper runnable, behind everybody who already is. */
  lemma WakeFirst(s: Sched, q: nat, t: nat, rest: seq<nat>)
    requires Queue(s, q) == [t] + rest
    ensures var n := WakeStep(s, q);
      n.runq == s.runq + [t] && n.state == s.state[t := Running] && Queue(n, q) == rest && n.current == s.current
    ensures forall r | r != q :: Queue(WakeStep(s, q), r) == Queue(s, r)
  {
  }

  /** wake_up_all appends the sleepers to the run queue in the order in which they went to sleep. */
  lemma {:induction false} WakeAllOrder(s: Sched, q: nat)
    ensures WakeAllStep(s, q).runq == s.runq + Queue(s, q) && Queue(WakeAllStep(s, q), q) == []
    ensures forall r | r != q :: Queue(WakeAllStep(s, q), r) == Queue(s, r)
    decreases |Queue(s, q)|
  {
    var l := Queue(s, q);
    if l == [] {
      assert s.runq + l == s.runq;
    } else {
      assert l == [l[0]] + l[1..];
      WakeFirst(s, q, l[0], l[1..]);
      WakeAllOrder(WakeStep(s, q), q);
      assert s.runq + [l[0]] + l[1..] == s.runq + l;
    }
  }

  lemma ScheduleQueues(s: Sched)
    ensures Schedule(s).waits == s.waits
  {
  }

  lemma QueueFacts(s: Sched, q: nat)
    requires Inv(s)
    ensures NoDup(Queue(s, q)) && s.current !in Queue(s, q)
  {
  }

  lemma TailPos(l: seq<nat>, t: nat)
    requires NoDup(l) && t in l && t != l[0]
    ensures t in l[1..] && Pos(l[1..], t) + 1 == Pos(l, t)
  {
    var i := Pos(l, t);
    assert l[1..][i - 1] == t;
    PosIs(l[1..], t, i - 1);
  }

  lemma WakeQueuePos(s: Sched, r: nat, t: nat, q: nat)
    requires NoDup(Queue(s, q)) && t in Queue(s, q) && t !in WakeStep(s, r).runq
    ensures t in Queue(WakeStep(s, r), q)
    ensures Pos(Queue(WakeStep(s, r), q), t) + (if r == q then 1 else 0) <= Pos(Queue(s, q), t)
  {
    var m, n := Queue(s, r), WakeStep(s, r);
    if m != [] {
      assert m == [m[0]] + m[1..];
      WakeFirst(s, r, m[0], m[1..]);
      hide WakeStep, Queue;
      if r == q {
        assert m[0] in n.runq;
        TailPos(m, t);
      }
    }
  }

  lemma SleepQueuePos(s: Sched, r: nat, t: nat, q: nat)
    requires NoDup(Queue(s, q)) && t in Queue(s, q) && s.current !in Queue(s, q)
    ensures t in Queue(SleepStep(s, r), q) && Pos(Queue(SleepStep(s, r), q), t) == Pos(Queue(s, q), t)
  {
    ScheduleQueues(Asleep(s, r));
    assert Queue(SleepStep(s, r), q) == if r == q then Queue(s, q) + [s.current] else Queue(s, q);
    hide Queue, SleepStep;
    if r == q { AppendPos(Queue(s, q), t, s.current); }
  }

  /** While it sleeps, a task keeps its place in its queue or moves up, by one at every wake_up of the queue. */
  lemma EventQueuePos(s: Sched, e: Event, t: nat, q: nat)
    requires Inv(s) && t in Queue(s, q) && t !in Apply(s, e).runq
    ensures t in Queue(Apply(s, e), q)
    ensures Pos(Queue(Apply(s, e), q), t) + (if e == WakeUp(q) then 1 else 0) <= Pos(Queue(s, q), t)
  {
    QueueFacts(s, q);
    hide Inv, Pos, SleepStep, WakeStep, WakeAllStep;
    match e
    case Add(_, _) =>
    case Tick => assert Apply(s, e).waits == s.waits;
    case Yield => assert Apply(s, e).waits == s.waits;
    case SleepOn(r) => SleepQueuePos(s, r, t, q);
    case WakeUp(r) => WakeQueuePos(s, r, t, q);
    case WakeAll(r) => WakeAllOrder(s, r);
  }

  /** How many of the first k events woke one sleeper of the queue. */
  function Wakes(events: seq<Event>, q: nat, k: nat): nat
    requires k <= |events|
  {
    if k == 0 then 0 else Wakes(events, q, k - 1) + (if events[k - 1] == WakeUp(q) then 1 else 0)
  }

  lemma WakesUpTo(events: seq<Event>, q: nat, k: nat)
    requires k <= |events|
    ensures Wakes(events, q, k) == if k == 0 then 0 else Wakes(events, q, k - 1) + (if events[k - 1] == WakeUp(q) then 1 else 0)
  {
  }

  lemma {:induction false} SleepingPos(run: seq<Sched>, events: seq<Event>, t: nat, q: nat, k: nat)
    requires IsRun(run, events) && Inv(run[0]) && t in Queue(run[0], q) && k <= |events|
    requires forall j | 0 <= j <= |events| :: t !in run[j].runq
    ensures t in Queue(run[k], q)
    ensures Pos(Queue(run[k], q), t) + Wakes(events, q, k) <= Pos(Queue(run[0], q), t)
  {
    hide *;
    RunLength(run, events);
    WakesUpTo(events, q, k);
    if k > 0 {
      SleepingPos(run, events, t, q, k - 1);
      QueuesInEveryRun(run, events, k - 1);
      RunAt(run, events, k - 1);
      EventQueuePos(run[k - 1], events[k - 1], t, q);
    }
  }

  /** A task at position i of a wait queue is runnable after at most i + 1 calls of wake_up on it, whatever else happens. */
  lemma BoundedSleep(run: seq<Sched>, events: seq<Event>, t: nat, q: nat)
    requires IsRun(run, events) && Inv(run[0]) && t in Queue(run[0], q)
    requires Wakes(events, q, |events|) >= Pos(Queue(run[0], q), t) + 1
    ensures exists k :: 0 <= k <= |events| && t in run[k].runq && t in run[k].state && run[k].state[t] == Running
  {
    if forall k | 0 <= k <= |events| :: t !in run[k].runq {
      SleepingPos(run, events, t, q, |events|);
    } else {
      var k :| 0 <= k <= |events| && t in run[k].runq;
      QueuesInEveryRun(run, events, k);
    }
  }

  // ---------------------------------------------------------------------------------------------
  // Giving up the processor
  // ---------------------------------------------------------------------------------------------

  /** sched_yield hands over to the head of the run queue with a full slice; alone, it is left with none. */
  lemma YieldHandsOver(s: Sched)
    requires Inv(s) && s.runq != []
    ensures var n := YieldStep(s); n.current == s.runq[0] && n.runq == s.runq[1..] + [s.runq[0]] && Left(n) == if s.runq[0] == s.current then 0 else 20
  {
  }

  /** The timer never takes the processor from the boot task. */
  lemma {:induction false} BootTaskStays(s: Sched, k: nat)
    requires s.current == s.kernel
    ensures Ticked(s, k) == s
  {
    if k > 0 { BootTaskStays(s, k - 1); }
  }

  /** sleep_on puts the current process at the end of its queue, off the run queue, and the first other runnable task runs. */
  lemma SleepHandsOver(s: Sched, q: nat)
    requires Inv(s) && Enabled(s, SleepOn(q))
    ensures var n := SleepStep(s, q);
      && Queue(n, q) == Queue(s, q) + [s.current] && s.current !in n.runq
      && n.current == (if s.runq[0] == s.current then s.runq[1] else s.runq[0]) && Left(n) == 20
  {
    DelSpec(s.runq, s.current);
    AsleepRunnable(s, q);
    var u := Del(s.runq, s.current);
    RotateQueue(u);
    ScheduleQueues(Asleep(s, q));
  }
}
