/** The counter scheduler (arch/riscv/kernel/proc.c): get_max_cnt_pid, schedule and do_timer, and
    bounded waiting under timer ticks. */
module CounterScheduler {
  import opened Options

  datatype Task = Task(running: bool, priority: nat, counter: nat)

  type Tasks = seq<Option<Task>>

  /** The tasks and the index of the current one; index 0 is the idle task. */
  datatype Sched = Sched(tasks: Tasks, cur: nat)

  predicate Runs(ts: Tasks, i: nat) { 1 <= i < |ts| && ts[i].Some? && ts[i].value.running }

  predicate Exists(ts: Tasks, i: nat) { i < |ts| && ts[i].Some? }

  function Counter(ts: Tasks, i: nat): nat { if Exists(ts, i) then ts[i].value.counter else 0 }

  function Priority(ts: Tasks, i: nat): nat { if Exists(ts, i) then ts[i].value.priority else 0 }

  // ----- the choice of the next task

  /** p is the lowest-numbered running task with the largest counter, or idle when no running task beats idle. */
  ghost predicate IsPick(ts: Tasks, n: nat, p: nat) {
    && (p == 0 || (p < n && Runs(ts, p) && Counter(ts, p) > Counter(ts, 0)))
    && (forall i: nat | i < n && Runs(ts, i) :: Counter(ts, i) <= Counter(ts, p))
    && forall i: nat | i < p && Runs(ts, i) :: Counter(ts, i) < Counter(ts, p)
  }

  function Pick(ts: Tasks, n: nat): (p: nat)
    requires n <= |ts|
    ensures IsPick(ts, n, p)
  {
    if n == 0 then 0
    else
      var p := Pick(ts, n - 1);
      if Runs(ts, n - 1) && Counter(ts, n - 1) > Counter(ts, p) then n - 1 else p
  }

  lemma PickIsUnique(ts: Tasks, n: nat, p: nat, q: nat)
    requires n <= |ts| && IsPick(ts, n, p) && IsPick(ts, n, q)
    ensures p == q
  {
  }

  // ----- the steps

  /** Every task but idle gets its priority as its counter. */
  function Refill(ts: Tasks): (out: Tasks)
    ensures |out| == |ts|
  {
    seq(|ts|, i requires 0 <= i < |ts| =>
      if i == 0 || ts[i] == None then ts[i] else Some(ts[i].value.(counter := ts[i].value.priority)))
  }

  function Schedule(ts: Tasks): Sched {
    var p := Pick(ts, |ts|);
    if p != 0 then Sched(ts, p) else Sched(Refill(ts), Pick(Refill(ts), |ts|))
  }

  /** The tick's charge: the current task loses one unit, if it has any. */
  function Charged(st: Sched): Tasks {
    if Counter(st.tasks, st.cur) > 0 then st.tasks[st.cur := Some(st.tasks[st.cur].value.(counter := st.tasks[st.cur].value.counter - 1))]
    else st.tasks
  }

  function Tick(st: Sched): Sched {
    if Counter(Charged(st), st.cur) == 0 then Schedule(Charged(st)) else Sched(Charged(st), st.cur)
  }

  function Ticks(st: Sched, n: nat): Sched {
    if n == 0 then st else Tick(Ticks(st, n - 1))
  }

  /** The tick starts a new round: no running task has anything left after the charge. */
  predicate Refills(st: Sched) {
    Counter(Charged(st), st.cur) == 0 && Pick(Charged(st), |st.tasks|) == 0
  }

  // ----- get_max_cnt_pid, schedule and do_timer, in place

  class Scheduler {
    var task: array<Option<Task>>
    var numTasks: nat
    var current: nat

    ghost predicate Valid()
      reads this, task
    {
      1 <= numTasks <= task.Length && task[0].Some? && current < numTasks && task[current].Some?
    }

    ghost function St(): Sched
      requires Valid()
      reads this, task
    {
      Sched(task[..numTasks], current)
    }

    method GetMaxCntPid() returns (maxCntPid: nat)
      requires Valid()
      ensures maxCntPid < numTasks && task[maxCntPid].Some?
      ensures maxCntPid == Pick(task[..numTasks], numTasks) && IsPick(task[..numTasks], numTasks, maxCntPid)
    {
      hide IsPick;
      maxCntPid := 0;
      var i := 1;
      while i < numTasks
        invariant 1 <= i <= numTasks && maxCntPid < numTasks && task[maxCntPid].Some?
        invariant maxCntPid == Pick(task[..numTasks], i)
      {
        if task[i] == None {
          i := i + 1;
          continue;
        }
        if !task[i].value.running {
          i := i + 1;
          continue;
        }
        if task[i].value.counter > task[maxCntPid].value.counter {
          maxCntPid := i;
        }
        i := i + 1;
      }
    }

    /** get_avail_task_id. The number lies in the task table exactly when a number below num_tasks is unused or
        the table has room for one more task; otherwise fork goes on with the word behind the table. */
    method GetAvailTaskId() returns (id: nat)
      requires Valid()
      modifies this`numTasks
      ensures 1 <= id <= old(numTasks) && forall i | 1 <= i < id :: task[i].Some?
      ensures if id < old(numTasks) then task[id] == None && numTasks == old(numTasks) else numTasks == id + 1
      ensures id < task.Length <==> (exists i :: 1 <= i < old(numTasks) && task[i] == None) || old(numTasks) < task.Length
      ensures Valid() <==> id < task.Length
    {
      id := 1;
      while id < numTasks
        invariant 1 <= id <= numTasks && forall i | 1 <= i < id :: task[i].Some?
      {
        if task[id] == None {
          return;
        }
        id := id + 1;
      }
      numTasks := numTasks + 1;
    }

    method SwitchTo(next: nat)
      requires Valid() && next < numTasks && task[next].Some?
      modifies this`current
      ensures Valid() && St() == Sched(task[..numTasks], next)
    {
      if current != next {
        current := next;
      }
    }

    method DoSchedule()
      requires Valid()
      modifies this`current, task
      ensures Valid() && St() == Schedule(old(task[..numTasks]))
    {
      var maxCntPid := GetMaxCntPid();
      if maxCntPid == 0 {
        var i := 1;
        ghost var before := task[..numTasks];
        while i < numTasks
          invariant 1 <= i <= numTasks && current == old(current)
          invariant forall k | 0 <= k < numTasks :: task[k] == if k < i then Refill(before)[k] else before[k]
        {
          if task[i] == None {
            i := i + 1;
            continue;
          }
          task[i] := Some(task[i].value.(counter := task[i].value.priority));
          i := i + 1;
        }
        assert task[..numTasks] == Refill(before);
        maxCntPid := GetMaxCntPid();
      }
      SwitchTo(maxCntPid);
    }

    method DoTimer()
      requires Valid()
      modifies this`current, task
      ensures Valid() && St() == Tick(old(St()))
      ensures old(task[current].value.counter) >= 2 ==> current == old(current)
    {
      if task[current].value.counter == 0 {
        DoSchedule();
      } else {
        task[current] := Some(task[current].value.(counter := task[current].value.counter - 1));
        assert task[..numTasks] == Charged(old(St()));
        if task[current].value.counter == 0 {
          DoSchedule();
        }
      }
    }
  }

  // ----- sums over the running tasks

  function SumCounters(ts: Tasks, n: nat): nat
    requires n <= |ts|
  {
    if n == 0 then 0 else SumCounters(ts, n - 1) + if Runs(ts, n - 1) then Counter(ts, n - 1) else 0
  }

  function SumPriorities(ts: Tasks, n: nat): nat
    requires n <= |ts|
  {
    if n == 0 then 0 else SumPriorities(ts, n - 1) + if Runs(ts, n - 1) then Priority(ts, n - 1) else 0
  }

  function Work(st: Sched): nat { SumCounters(st.tasks, |st.tasks|) }

  function Round(st: Sched): nat { SumPriorities(st.tasks, |st.tasks|) }

  lemma {:induction false} CounterInSum(ts: Tasks, n: nat, i: nat)
    requires n <= |ts| && i < n && Runs(ts, i)
    ensures Counter(ts, i) <= SumCounters(ts, n)
  {
    if i < n - 1 { CounterInSum(ts, n - 1, i); }
  }

  lemma {:induction false} PriorityInSum(ts: Tasks, n: nat, i: nat)
    requires n <= |ts| && i < n && Runs(ts, i)
    ensures Priority(ts, i) <= SumPriorities(ts, n)
  {
    if i < n - 1 { PriorityInSum(ts, n - 1, i); }
  }

  lemma {:induction false} NothingLeft(ts: Tasks, n: nat)
    requires n <= |ts| && forall i: nat | i < n && Runs(ts, i) :: Counter(ts, i) == 0
    ensures SumCounters(ts, n) == 0
  {
    if n > 0 { NothingLeft(ts, n - 1); }
  }

  lemma {:induction false} SumOfCharge(ts: Tasks, ts': Tasks, n: nat, c: nat)
    requires n <= |ts| == |ts'| && Runs(ts, c) && Counter(ts, c) > 0
    requires ts' == ts[c := Some(ts[c].value.(counter := ts[c].value.counter - 1))]
    ensures SumCounters(ts', n) == SumCounters(ts, n) - if c < n then 1 else 0
  {
    if n > 0 { SumOfCharge(ts, ts', n - 1, c); }
  }

  lemma {:induction false} SumOfRefill(ts: Tasks, n: nat)
    requires n <= |ts|
    ensures SumCounters(Refill(ts), n) == SumPriorities(ts, n)
  {
    if n > 0 { SumOfRefill(ts, n - 1); }
  }

  predicate SameTask(t: Option<Task>, t': Option<Task>) {
    if t == None then t' == None
    else t'.Some? && t'.value == t.value.(counter := t'.value.counter)
  }

  /** The same tasks, running or not, with the same priorities. */
  ghost predicate SameTasks(ts: Tasks, ts': Tasks) {
    |ts'| == |ts| && forall i: nat | i < |ts| :: SameTask(ts[i], ts'[i])
  }

  lemma {:induction false} SameRound(ts: Tasks, ts': Tasks, n: nat)
    requires SameTasks(ts, ts') && n <= |ts|
    ensures SumPriorities(ts', n) == SumPriorities(ts, n)
  {
    if n > 0 {
      assert SameTask(ts[n - 1], ts'[n - 1]);
      SameRound(ts, ts', n - 1);
    }
  }

  // ----- runs of timer ticks

  /** The standing conditions: an idle task that is never charged, running tasks of priority at least 1,
      and a current task that is idle or running. */
  ghost predicate Ready(st: Sched) {
    && Exists(st.tasks, 0) && Counter(st.tasks, 0) == 0
    && (forall i: nat | Runs(st.tasks, i) :: Priority(st.tasks, i) >= 1)
    && (st.cur == 0 || Runs(st.tasks, st.cur))
  }

  lemma SameRuns(ts: Tasks, ts': Tasks)
    requires SameTasks(ts, ts')
    ensures forall i: nat :: (Runs(ts', i) <==> Runs(ts, i)) && Exists(ts', i) == Exists(ts, i) && Priority(ts', i) == Priority(ts, i)
  {
    forall i: nat ensures (Runs(ts', i) <==> Runs(ts, i)) && Exists(ts', i) == Exists(ts, i) && Priority(ts', i) == Priority(ts, i) {
      if i < |ts| { assert SameTask(ts[i], ts'[i]); }
    }
  }

  lemma PickMeansWork(ts: Tasks)
    requires Exists(ts, 0) && Counter(ts, 0) == 0
    ensures Pick(ts, |ts|) == 0 <==> SumCounters(ts, |ts|) == 0
    ensures Pick(ts, |ts|) != 0 ==> Runs(ts, Pick(ts, |ts|)) && Counter(ts, Pick(ts, |ts|)) > 0
  {
    var p := Pick(ts, |ts|);
    if p == 0 {
      NothingLeft(ts, |ts|);
    } else {
      CounterInSum(ts, |ts|, p);
    }
  }

  /** A tick keeps the conditions and the tasks; it takes one unit of work off the current task and, when
      nothing is left then, starts a round. */
  lemma TickSteps(st: Sched)
    requires Ready(st)
    ensures Ready(Tick(st)) && SameTasks(st.tasks, Tick(st).tasks) && Round(Tick(st)) == Round(st)
    ensures Counter(st.tasks, st.cur) > 0 ==> Work(st) > 0
    ensures var left := Work(st) - if Counter(st.tasks, st.cur) > 0 then 1 else 0;
      && (Refills(st) <==> left == 0)
      && Work(Tick(st)) == if Refills(st) then Round(st) else left
    ensures Round(st) > 0 ==> Runs(Tick(st).tasks, Tick(st).cur) && Counter(Tick(st).tasks, Tick(st).cur) > 0
    ensures forall i: nat | Runs(st.tasks, i) ::
      Counter(Tick(st).tasks, i) == (if Refills(st) then Priority(st.tasks, i) else Counter(Charged(st), i))
    ensures Counter(st.tasks, st.cur) >= 2 ==> Tick(st).cur == st.cur
  {
    hide SumCounters, SumPriorities, IsPick, Pick;
    var ts, n := Charged(st), |st.tasks|;
    if Counter(st.tasks, st.cur) > 0 {
      SumOfCharge(st.tasks, ts, n, st.cur);
      CounterInSum(st.tasks, n, st.cur);
    }
    SumOfRefill(ts, n);
    assert SameTasks(st.tasks, ts);
    SameRound(st.tasks, ts, n);
    PickMeansWork(ts);
    PickMeansWork(Refill(ts));
    assert SameTasks(st.tasks, Refill(ts));
    if Counter(ts, st.cur) > 0 { CounterInSum(ts, n, st.cur); }
    SameRound(st.tasks, Tick(st).tasks, n);
    SameRuns(st.tasks, Tick(st).tasks);
  }

  /** What task i has left when the current task has been charged. */
  function Left(st: Sched, i: nat): nat {
    if i == st.cur && Counter(st.tasks, i) > 0 then Counter(st.tasks, i) - 1 else Counter(st.tasks, i)
  }

  /** A tick, task by task: the current task keeps the processor while it has units left; otherwise the processor goes
      to the running task with most left, and only if no running task has any does every task but idle, waiting ones
      too, first get its priority as its counter. */
  lemma TickMeans(st: Sched)
    requires Exists(st.tasks, st.cur) && Counter(st.tasks, 0) == 0
    ensures SameTasks(st.tasks, Tick(st).tasks)
    ensures Left(st, st.cur) > 0 ==> Tick(st).cur == st.cur && forall i: nat :: Counter(Tick(st).tasks, i) == Left(st, i)
    ensures Left(st, st.cur) == 0 ==> IsPick(Tick(st).tasks, |st.tasks|, Tick(st).cur)
    ensures Left(st, st.cur) == 0 && (exists i: nat :: Runs(st.tasks, i) && Left(st, i) > 0) ==>
      Tick(st).cur != 0 && forall i: nat :: Counter(Tick(st).tasks, i) == Left(st, i)
    ensures Left(st, st.cur) == 0 && (forall i: nat | Runs(st.tasks, i) :: Left(st, i) == 0) ==>
      forall i: nat | i >= 1 :: Counter(Tick(st).tasks, i) == Priority(st.tasks, i)
  {
    hide Pick;
    var ts := Charged(st);
    assert forall i: nat :: Counter(ts, i) == Left(st, i);
    if i: nat :| Runs(st.tasks, i) && Left(st, i) > 0 { assert Runs(ts, i); }
    var p := Pick(ts, |ts|);
    if p != 0 { assert Runs(st.tasks, p); }
  }

  /** So the current task runs until its counter is used up, and meanwhile no other task's counter moves. */
  lemma {:induction false} RunsItsCounter(st: Sched, k: nat)
    requires Exists(st.tasks, st.cur) && Counter(st.tasks, 0) == 0 && k < Counter(st.tasks, st.cur)
    ensures Ticks(st, k).cur == st.cur && SameTasks(st.tasks, Ticks(st, k).tasks)
    ensures forall i: nat :: Counter(Ticks(st, k).tasks, i) == if i == st.cur then Counter(st.tasks, i) - k else Counter(st.tasks, i)
  {
    hide Tick;
    if k > 0 {
      RunsItsCounter(st, k - 1);
      TickMeans(Ticks(st, k - 1));
    }
  }

  lemma {:induction false} TicksReady(st: Sched, n: nat)
    requires Ready(st)
    ensures Ready(Ticks(st, n)) && SameTasks(st.tasks, Ticks(st, n).tasks) && Round(Ticks(st, n)) == Round(st)
  {
    hide Tick;
    if n > 0 {
      TicksReady(st, n - 1);
      TickSteps(Ticks(st, n - 1));
      SameRuns(Ticks(st, n - 1).tasks, Ticks(st, n).tasks);
    }
  }

  lemma {:induction false} TicksAdd(st: Sched, m: nat, n: nat)
    ensures Ticks(Ticks(st, m), n) == Ticks(st, m + n)
  {
    hide Tick;
    if n > 0 { TicksAdd(st, m, n - 1); }
  }

  /** What keeps task i waiting: an uncharged tick, the work of this round, and the next round if i's share is used up. */
  function Ahead(st: Sched, i: nat): nat {
    Work(st) + (if Counter(st.tasks, st.cur) == 0 then 1 else 0) + (if Counter(st.tasks, i) == 0 then Round(st) else 0)
  }

  lemma RunningShare(st: Sched, i: nat)
    requires Ready(st) && Runs(st.tasks, i)
    ensures Round(st) >= Priority(st.tasks, i) >= 1 && Work(st) >= Counter(st.tasks, i)
    ensures st.cur != i ==> Counter(Charged(st), i) == Counter(st.tasks, i)
    ensures 1 <= Ahead(st, i) <= 1 + Work(st) + Round(st)
  {
    PriorityInSum(st.tasks, |st.tasks|, i);
    CounterInSum(st.tasks, |st.tasks|, i);
  }

  lemma NothingAfter(st: Sched, i: nat)
    requires Ready(st) && Runs(st.tasks, i) && Refills(st)
    ensures Counter(st.tasks, i) == if st.cur == i && Counter(st.tasks, i) > 0 then 1 else 0
  {
    assert Runs(Charged(st), i);
    assert Counter(Charged(st), i) <= Counter(Charged(st), 0);
  }

  lemma TickAhead(st: Sched, i: nat)
    requires Ready(st) && Runs(st.tasks, i) && st.cur != i
    ensures Runs(Tick(st).tasks, i) && 1 <= Ahead(Tick(st), i) == Ahead(st, i) - 1
  {
    hide Tick, Refills, Ready, SameTasks;
    RunningShare(st, i);
    TickSteps(st);
    if Refills(st) { NothingAfter(st, i); }
    SameRuns(st.tasks, Tick(st).tasks);
    RunningShare(Tick(st), i);
  }

  /** Bounded waiting: every running task becomes current within 1 + (running counters) + (running priorities) ticks. */
  lemma {:induction false} EveryRunningTaskRuns(st: Sched, i: nat) returns (n: nat)
    requires Ready(st) && Runs(st.tasks, i)
    ensures Ticks(st, n).cur == i && n < Ahead(st, i) <= 1 + Work(st) + Round(st)
    decreases Ahead(st, i)
  {
    hide Tick, Ahead, Ready;
    RunningShare(st, i);
    if st.cur == i {
      n := 0;
    } else {
      TickAhead(st, i);
      TickSteps(st);
      n := EveryRunningTaskRuns(Tick(st), i);
      TicksAdd(st, 1, n);
      assert Ticks(st, 1) == Tick(Ticks(st, 0));
      n := n + 1;
    }
  }

  // ----- fair shares

  /** The ticks among the first n that are charged to task i. */
  function Charges(st: Sched, i: nat, n: nat): nat {
    if n == 0 then 0
    else Charges(st, i, n - 1) + if Ticks(st, n - 1).cur == i && Counter(Ticks(st, n - 1).tasks, i) > 0 then 1 else 0
  }

  ghost predicate NoRefillBefore(st: Sched, n: nat) { forall k: nat | k < n :: !Refills(Ticks(st, k)) }

  lemma {:induction false} ChargesAreLosses(st: Sched, i: nat, n: nat)
    requires Ready(st) && Runs(st.tasks, i) && NoRefillBefore(st, n)
    ensures Counter(Ticks(st, n).tasks, i) + Charges(st, i, n) == Counter(st.tasks, i)
  {
    hide Tick, Refills, Ready;
    if n > 0 {
      ChargesAreLosses(st, i, n - 1);
      TicksReady(st, n - 1);
      SameRuns(st.tasks, Ticks(st, n - 1).tasks);
      TickSteps(Ticks(st, n - 1));
      assert !Refills(Ticks(st, n - 1));
    }
  }

  /** A round that starts with full counters and ends with the refill in tick n charges each running task
      exactly its priority. */
  lemma FairShare(st: Sched, i: nat, n: nat)
    requires Ready(st) && Runs(st.tasks, i) && NoRefillBefore(st, n) && Refills(Ticks(st, n))
    requires forall j: nat | Runs(st.tasks, j) :: Counter(st.tasks, j) == Priority(st.tasks, j)
    ensures Charges(st, i, n + 1) == Priority(st.tasks, i)
  {
    ChargesAreLosses(st, i, n);
    TicksReady(st, n);
    SameRuns(st.tasks, Ticks(st, n).tasks);
    NothingAfter(Ticks(st, n), i);
  }

  lemma SomeWork(st: Sched)
    requires Ready(st) && Counter(st.tasks, st.cur) > 0
    ensures Round(st) > 0
  {
    PriorityInSum(st.tasks, |st.tasks|, st.cur);
  }

  /** Rounds have a fixed length: after a refill the next one comes in the tick that uses up the last unit. */
  lemma {:induction false} RoundLasts(st: Sched, n: nat)
    requires Ready(st) && Counter(st.tasks, st.cur) > 0 && n < Work(st)
    ensures Work(Ticks(st, n)) == Work(st) - n && Counter(Ticks(st, n).tasks, Ticks(st, n).cur) > 0
    ensures Refills(Ticks(st, n)) <==> n == Work(st) - 1
  {
    hide Tick, Refills, Ready, Charged;
    TicksReady(st, n);
    TickSteps(Ticks(st, n));
    if n > 0 {
      RoundLasts(st, n - 1);
      TicksReady(st, n - 1);
      TickSteps(Ticks(st, n - 1));
      SomeWork(Ticks(st, n - 1));
    }
  }

  /** From a refill on, refills come exactly Round ticks apart. */
  lemma NextRefill(st: Sched, n: nat)
    requires Ready(st) && Refills(st) && Round(st) > 0 && n < Round(st)
    ensures Refills(Ticks(Tick(st), n)) <==> n == Round(st) - 1
  {
    TickSteps(st);
    RoundLasts(Tick(st), n);
  }
}
