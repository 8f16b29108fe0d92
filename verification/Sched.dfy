/** kernel/process.c's scheduler: the run queue, the wait queues and each task's fields updated in place. */
module Scheduling {
  import opened Base
  import opened SchedSpec

  class Scheduler {
    const kernelTask: nat
    var current: nat
    var runqueue: seq<nat>
    var waitQueues: map<nat, seq<nat>>
    var state: map<nat, TaskState>
    var timeSlice: map<nat, nat>

    ghost function Abs(): Sched
      reads this
    {
      Sched(current, kernelTask, runqueue, waitQueues, state, timeSlice)
    }

    /** sched_init: the boot task is current and on no queue. */
    constructor (kernelTask: nat)
      ensures Inv(Abs()) && runqueue == [] && current == kernelTask && this.kernelTask == kernelTask
    {
      this.kernelTask := kernelTask;
      current := kernelTask;
      runqueue := [];
      waitQueues := map[];
      state := map[kernelTask := Running];
      timeSlice := map[kernelTask := 0];
    }

    /** sched_add. */
    method SchedAdd(t: nat)
      modifies this`state, this`runqueue
      ensures Abs() == AddStep(old(Abs()), t)
    {
      state := state[t := Running];
      runqueue := runqueue + [t];
    }

    /** sched_remove: takes it out of the run queue if it is there. */
    method SchedRemove(t: nat)
      modifies this`runqueue
      ensures Abs() == old(Abs()).(runq := Del(old(runqueue), t))
    {
      var i := 0;
      while i < |runqueue| && runqueue[i] != t
        invariant 0 <= i <= |runqueue| && runqueue == old(runqueue) && t !in runqueue[..i]
      {
        i := i + 1;
      }
      DelFirst(runqueue, t, i);
      hide Del;
      if i < |runqueue| {
        runqueue := runqueue[..i] + runqueue[i + 1..];
      }
    }

    /** schedule. */
    method Reschedule()
      modifies this`current, this`runqueue, this`timeSlice
      ensures Abs() == Schedule(old(Abs()))
    {
      if runqueue == [] { return; }
      var next := runqueue[0];
      runqueue := runqueue[1..] + [next];
      if current == next { return; }
      current := next;
      timeSlice := timeSlice[next := 20];
    }

    /** sched_tick. */
    method Tick()
      requires Inv(Abs())
      modifies this`current, this`runqueue, this`timeSlice
      ensures Abs() == TickStep(old(Abs())) && Inv(Abs())
    {
      EventKeeps(Abs(), SchedSpec.Tick);
      assert current in timeSlice;
      hide Inv;
      if current == kernelTask { return; }
      ghost var before := timeSlice;
      if timeSlice[current] > 0 { timeSlice := timeSlice[current := timeSlice[current] - 1]; }
      if timeSlice[current] == 0 {
        assert timeSlice[current := 20] == before[current := 20];
        Expire();
      }
    }

    /** A new slice, and the next task. */
    method Expire()
      modifies this`current, this`runqueue, this`timeSlice
      ensures Abs() == Schedule(old(Abs()).(slice := old(timeSlice)[old(current) := 20]))
    {
      timeSlice := timeSlice[current := 20];
      Reschedule();
    }

    /** sched_yield. */
    method Yield()
      requires Inv(Abs())
      modifies this`current, this`runqueue, this`timeSlice
      ensures Abs() == YieldStep(old(Abs())) && Inv(Abs())
    {
      EventKeeps(Abs(), SchedSpec.Yield);
      assert current in timeSlice;
      hide Inv;
      if timeSlice[current] > 0 { timeSlice := timeSlice[current := 0]; }
      Reschedule();
    }

    /** sleep_on: the queue invariant survives if and only if somebody else is left to run. */
    method SleepOn(q: nat)
      requires Inv(Abs())
      modifies this
      ensures Abs() == SleepStep(old(Abs()), q)
      ensures Inv(Abs()) <==> exists t :: t in old(runqueue) && t != old(current)
    {
      ghost var s := Abs();
      if t :| t in runqueue && t != current { SleepKeeps(s, q); } else { SleepAlone(s, q); }
      hide Inv;
      state := state[current := Sleeping];
      waitQueues := waitQueues[q := (if q in waitQueues then waitQueues[q] else []) + [current]];
      SchedRemove(current);
      assert Abs() == Asleep(s, q);
      Reschedule();
    }

    /** wake_up: the first sleeper of the queue, if any, goes to the tail of the run queue. */
    method WakeUp(q: nat)
      requires Inv(Abs())
      modifies this`state, this`runqueue, this`waitQueues
      ensures Abs() == WakeStep(old(Abs()), q) && Inv(Abs())
      ensures var l := Queue(old(Abs()), q);
        if l == [] then Abs() == old(Abs()) else runqueue == old(runqueue) + [l[0]] && Queue(Abs(), q) == l[1..]
    {
      WakeKeeps(Abs(), q);
      ghost var l := Queue(Abs(), q);
      if l != [] { WakeFirst(Abs(), q, l[0], l[1..]); }
      hide Inv;
      if q in waitQueues && waitQueues[q] != [] {
        Wake(q, waitQueues[q][0]);
      }
    }

    /** Off the wait queue, runnable, on the run queue. */
    method Wake(q: nat, t: nat)
      requires q in waitQueues && waitQueues[q] != [] && t == waitQueues[q][0]
      modifies this`state, this`runqueue, this`waitQueues
      ensures Abs() == WakeStep(old(Abs()), q)
    {
      waitQueues := waitQueues[q := waitQueues[q][1..]];
      state := state[t := Running];
      SchedAdd(t);
      assert state == old(state)[t := Running];
    }

    /** wake_up_all: every sleeper of the queue, in order. */
    method WakeUpAll(q: nat)
      requires Inv(Abs())
      modifies this`state, this`runqueue, this`waitQueues
      ensures Abs() == WakeAllStep(old(Abs()), q) && Inv(Abs())
      ensures runqueue == old(runqueue) + Queue(old(Abs()), q) && Queue(Abs(), q) == []
    {
      ghost var s := Abs();
      WakeAllOrder(s, q);
      while q in waitQueues && waitQueues[q] != []
        invariant Inv(Abs()) && WakeAllStep(Abs(), q) == WakeAllStep(s, q)
        decreases |Queue(Abs(), q)|
      {
        WakeUp(q);
      }
    }
  }
}
