/** The process switch as it runs, over the run queue object. */
module TaskKernel {
  import opened Common
  import opened TaskSchedule
  import opened TaskFairness
  import opened RunQueues
  import Sched

  /** One more process picked. */
  lemma PickedNext(rq: Sched.State, picks: seq<Pid>, p: Pid)
    requires LegalPicks(rq, picks) && Sched.Least(PickAll(rq, picks), p) && p in PickAll(rq, picks).nice
    ensures LegalPicks(rq, picks + [p]) && PickAll(rq, picks + [p]) == Sched.Pick(PickAll(rq, picks), p)
  {
    LastPick(picks, p);
    assert LegalPick(rq, picks, p);
  }

  /** The search so far: `picks` were picked, the last of them, if the queue was not empty, being `next`. */
  ghost predicate Searching(k: System, picks: seq<Pid>, next: Option<Pid>, rq: Sched.State) {
    && LegalPicks(k.rq, picks) && rq == PickAll(k.rq, picks)
    && match next
       case None => rq.queued == {} && forall p | p in picks :: !Runnable(View(k), p)
       case Some(n) =>
         picks != [] && n == picks[|picks| - 1] && forall p | p in picks[..|picks| - 1] :: !Runnable(View(k), p)
  }

  /** The next pick of the search, after one that cannot run or at the start. */
  lemma SearchNext(k: System, picks: seq<Pid>, rq: Sched.State, next: Option<Pid>, rq': Sched.State)
    returns (picks': seq<Pid>)
    requires LegalPicks(k.rq, picks) && rq == PickAll(k.rq, picks) && forall p | p in picks :: !Runnable(View(k), p)
    requires if next == None then rq.queued == {} && rq' == rq
             else Sched.Least(rq, next.value) && next.value in rq.nice && rq' == Sched.Pick(rq, next.value)
    ensures Searching(k, picks', next, rq')
    ensures picks' == if next == None then picks else picks + [next.value]
  {
    picks' := picks;
    if next.Some? {
      picks' := picks + [next.value];
      PickedNext(k.rq, picks, next.value);
      LastPick(picks, next.value);
    }
  }

  lemma SearchGoesOn(k: System, picks: seq<Pid>, n: Pid, rq: Sched.State)
    requires TaskFairness.Inv(k) && Searching(k, picks, Some(n), rq) && !Runnable(View(k), n)
    ensures n !in rq.queued && rq.queued <= k.tasks.Keys && forall p | p in picks :: !Runnable(View(k), p)
  {
    PickedOff(k.rq, picks);
    assert picks == picks[..|picks| - 1] + [picks[|picks| - 1]];
  }

  lemma SearchDone(k: System, picks: seq<Pid>, next: Option<Pid>, rq: Sched.State)
    requires Searching(k, picks, next, rq) && (next.Some? ==> Runnable(View(k), next.value))
    ensures Searched(k, picks) && Chosen(k, picks) == next
  {
    if next == None && picks != [] {
      assert picks[|picks| - 1] in picks;
      assert forall p | p in picks[..|picks| - 1] :: p in picks;
    }
  }

  class Kernel {
    const runqueue: RunQueue
    var tasks: map<Pid, Task>
    var current: Pid

    ghost predicate Valid()
      reads this, runqueue, runqueue.rq
    {
      runqueue.Valid() && TaskFairness.Inv(Model())
    }

    ghost function Model(): System
      reads this, runqueue
    {
      System(tasks, current, runqueue.Model())
    }

    constructor (idle: Pid)
      ensures Valid() && TaskFairness.Init(Model()) && fresh(runqueue) && fresh(runqueue.rq)
    {
      current, tasks := idle, map[idle := Task(Running, false)];
      runqueue := new RunQueue(map[idle := 0], map[idle := 0]);
    }

    /** A picked process that cannot run is passed over for the next. */
    method PassOver(n: Pid) returns (next: Option<Pid>)
      requires runqueue.Valid() && n in tasks && n !in runqueue.queued
      modifies runqueue, runqueue.rq
      ensures runqueue.Valid() && runqueue.rq == old(runqueue.rq)
      ensures if next.None? then old(runqueue.queued) == {} && runqueue.Model() == old(runqueue.Model())
              else
                && Sched.Least(old(runqueue.Model()), next.value) && next.value in old(runqueue.nice)
                && runqueue.Model() == Sched.Pick(old(runqueue.Model()), next.value)
    {
      ghost var queued := runqueue.queued;
      if tasks[n].run == Zombie {
        runqueue.Remove(n);
        assert queued - {n} == queued;
      }
      next := runqueue.PickNext();
    }

    /** Picks until a process that can run turns up; the ones passed over leave the queue. */
    method PickRunnable() returns (next: Option<Pid>, ghost picks: seq<Pid>)
      requires Valid()
      modifies runqueue, runqueue.rq
      ensures runqueue.Valid() && runqueue.rq == old(runqueue.rq)
      ensures Searched(old(Model()), picks) && next == Chosen(old(Model()), picks)
      ensures runqueue.Model() == PickAll(old(runqueue.Model()), picks)
    {
      ghost var k := Model();
      next := runqueue.PickNext();
      picks := SearchNext(k, [], k.rq, next, runqueue.Model());
      while next.Some? && tasks[next.value].run != Ready && tasks[next.value].run != Running
        invariant runqueue.Valid() && runqueue.rq == old(runqueue.rq)
        invariant Searching(k, picks, next, runqueue.Model()) && (next.Some? ==> next.value in tasks)
        decreases next.Some?, |runqueue.queued|
      {
        ghost var rq := runqueue.Model();
        SearchGoesOn(k, picks, next.value, rq);
        next := PassOver(next.value);
        picks := SearchNext(k, picks, rq, next, runqueue.Model());
      }
      SearchDone(k, picks, next, runqueue.Model());
    }

    /** The current process, if it was just running, goes back to the queue and `next` takes its place. */
    method SwitchTo(next: Pid)
      requires runqueue.Valid() && current in tasks && current in runqueue.vruntime && next in tasks && next != current
      modifies this, runqueue, runqueue.rq
      ensures runqueue.Valid() && (runqueue.rq == old(runqueue.rq) || fresh(runqueue.rq)) && current == next
      ensures var last := old(tasks[current]); var back := last.run == Running && last.stack;
        && (var t := if back then old(tasks)[old(current) := last.(run := Ready)] else old(tasks);
            tasks == t[next := t[next].(run := Running)])
        && runqueue.Model()
          == (if back then Sched.Enqueue(old(runqueue.Model()), old(current)) else old(runqueue.Model()))
    {
      var last := tasks[current];
      if last.run == Running && last.stack {
        tasks := tasks[current := last.(run := Ready)];
        runqueue.Enqueue(current);
      }
      tasks := tasks[next := tasks[next].(run := Running)];
      current := next;
    }

    /** schedule */
    method Schedule() returns (ghost picks: seq<Pid>)
      requires Valid()
      modifies this, runqueue, runqueue.rq
      ensures Valid() && TaskFairness.Next(old(Model()), TaskFairness.Yield(picks), Model())
      ensures runqueue.rq == old(runqueue.rq) || fresh(runqueue.rq)
      ensures if exists p :: Due(old(Model()), p) then LeastRunnable(old(Model()), current)
              else current == old(current) && tasks == old(tasks) && runqueue.queued == {}
    {
      ghost var k := Model();
      var next;
      next, picks := PickRunnable();
      PickedOff(k.rq, picks);
      ChosenIsLeast(k, picks);
      if next.Some? && next.value != current {
        SwitchTo(next.value);
      }
      assert Model() == Rescheduled(k, picks);
      SwitchKeeps(k, picks);
    }

    /** task_create_proc: the new process is ready and queued. */
    method Create(p: Pid, nice: int)
      requires Valid() && p !in runqueue.vruntime
      modifies this, runqueue, runqueue.rq
      ensures Valid() && TaskFairness.Next(old(Model()), TaskFairness.Create(p, nice, 0), Model())
      ensures tasks == old(tasks)[p := Task(Ready, true)] && current == old(current)
      ensures runqueue.queued == old(runqueue.queued) + {p} && runqueue.nice == old(runqueue.nice)[p := nice]
      ensures runqueue.rq == old(runqueue.rq) || fresh(runqueue.rq)
    {
      ghost var k := Model();
      runqueue.Register(p, nice, 0);
      tasks := tasks[p := Task(Ready, true)];
      runqueue.Enqueue(p);
      TaskFairness.StepKeeps(k, TaskFairness.Create(p, nice, 0), Model());
    }

    /** task_fork: the same, with the nice value and the virtual runtime of the current process. */
    method Fork(p: Pid)
      requires Valid() && p !in runqueue.vruntime
      modifies this, runqueue, runqueue.rq
      ensures Valid() && (runqueue.rq == old(runqueue.rq) || fresh(runqueue.rq))
      ensures var rq := old(runqueue.Model());
        && old(current) in rq.key && old(current) in rq.nice
        && TaskFairness.Next(old(Model()), TaskFairness.Create(p, rq.nice[old(current)], rq.key[old(current)]), Model())
        && tasks == old(tasks)[p := Task(Ready, true)] && runqueue.queued == old(runqueue.queued) + {p}
        && runqueue.nice == rq.nice[p := rq.nice[old(current)]]
    {
      ghost var k := Model();
      runqueue.Register(p, runqueue.nice[current], runqueue.vruntime[current]);
      tasks := tasks[p := Task(Ready, true)];
      runqueue.Enqueue(p);
      TaskFairness.StepKeeps(k, TaskFairness.Create(p, k.rq.nice[k.current], k.rq.key[k.current]), Model());
    }

    /** The wake-up in do_exit, sys_kill and send_signal. */
    method Wake(p: Pid)
      requires Valid()
      modifies this, runqueue, runqueue.rq
      ensures Valid() && TaskFairness.Next(old(Model()), TaskFairness.Wake(p), Model())
      ensures runqueue.rq == old(runqueue.rq) || fresh(runqueue.rq)
      ensures if p in old(tasks) && old(tasks)[p].run == Blocked then
                tasks == old(tasks)[p := old(tasks)[p].(run := Ready)] && p in runqueue.queued
              else Model() == old(Model())
    {
      ghost var k := Model();
      if p in tasks && tasks[p].run == Blocked {
        tasks := tasks[p := tasks[p].(run := Ready)];
        runqueue.Enqueue(p);
      }
      TaskFairness.StepKeeps(k, TaskFairness.Wake(p), Model());
    }

    /** sys_kill with a fatal signal: the process is a zombie, still in the queue if it was. */
    method Kill(p: Pid)
      requires Valid() && p in tasks
      modifies this
      ensures Valid() && TaskFairness.Next(old(Model()), TaskFairness.Kill(p), Model())
      ensures tasks == old(tasks)[p := old(tasks)[p].(run := Zombie)] && current == old(current)
    {
      ghost var k := Model();
      tasks := tasks[p := tasks[p].(run := Zombie)];
      TaskFairness.StepKeeps(k, TaskFairness.Kill(p), Model());
    }

    /** The end of wait4: a zombie child leaves the queue and the process table. */
    method Reap(p: Pid)
      requires Valid() && p in tasks && tasks[p].run == Zombie && p != current
      modifies this, runqueue, runqueue.rq
      ensures Valid() && TaskFairness.Next(old(Model()), TaskFairness.Reap(p), Model())
      ensures tasks == old(tasks) - {p} && runqueue.queued == old(runqueue.queued) - {p} && current == old(current)
      ensures runqueue.rq == old(runqueue.rq)
    {
      ghost var k := Model();
      runqueue.Remove(p);
      tasks := tasks - {p};
      TaskFairness.StepKeeps(k, TaskFairness.Reap(p), Model());
    }

    /** The current process goes to sleep. */
    method Block() returns (ghost picks: seq<Pid>)
      requires Valid()
      modifies this, runqueue, runqueue.rq
      ensures Valid() && TaskFairness.Next(old(Model()), TaskFairness.Block(picks), Model())
      ensures old(current) in tasks && tasks[old(current)].run == Blocked
      ensures runqueue.rq == old(runqueue.rq) || fresh(runqueue.rq)
    {
      tasks := tasks[current := tasks[current].(run := Blocked)];
      picks := Schedule();
    }
  }
}
