/** Process states and the switch between processes: nobody who can run is forgotten. */
module TaskSchedule {
  import opened Common

  datatype Run = Ready | Running | Blocked | Zombie

  /** A process's state, and whether it has a kernel stack of its own (the idle process has none). */
  datatype Task = Task(run: Run, stack: bool)

  datatype Tasks = Tasks(tasks: map<Pid, Task>, current: Pid, queued: set<Pid>)

  // ---- steps ----

  predicate Runnable(s: Tasks, p: Pid) {
    p in s.tasks && (s.tasks[p].run == Ready || s.tasks[p].run == Running)
  }

  /** The switch from the current process to `next`, which has been taken off the queue. */
  function Switched(s: Tasks, next: Pid): Tasks
    requires s.current in s.tasks && next in s.tasks
  {
    var last := s.tasks[s.current];
    var tasks, queued :=
      if last.run == Running && last.stack then s.tasks[s.current := last.(run := Ready)] else s.tasks,
      if last.run == Running && last.stack then s.queued + {s.current} else s.queued;
    Tasks(tasks[next := tasks[next].(run := Running)], next, queued)
  }

  /** schedule: some processes that cannot run are dropped from the queue, then one that can, if any, is switched to. */
  ghost predicate Scheduled(s: Tasks, dropped: set<Pid>, next: Option<Pid>, s': Tasks) {
    && dropped <= s.queued && (forall p | p in dropped :: !Runnable(s, p))
    && match next
       case None => dropped == s.queued && s' == s.(queued := {})
       case Some(n) =>
         && n in s.queued - dropped && Runnable(s, n) && s.current in s.tasks
         && var s1 := s.(queued := s.queued - dropped - {n});
            s' == if n == s.current then s1 else Switched(s1, n)
  }

  /** A new process, ready and queued. */
  function Created(s: Tasks, p: Pid): Tasks {
    s.(tasks := s.tasks[p := Task(Ready, true)], queued := s.queued + {p})
  }

  /** A blocked process becomes ready and is queued; any other is left alone. */
  function Woken(s: Tasks, p: Pid): Tasks {
    if p in s.tasks && s.tasks[p].run == Blocked then
      s.(tasks := s.tasks[p := s.tasks[p].(run := Ready)], queued := s.queued + {p})
    else s
  }

  /** A process set to a state in place, still in the queue if it was. */
  function Set(s: Tasks, p: Pid, run: Run): Tasks
    requires p in s.tasks
  {
    s.(tasks := s.tasks[p := s.tasks[p].(run := run)])
  }

  function Reaped(s: Tasks, p: Pid): Tasks {
    s.(tasks := s.tasks - {p}, queued := s.queued - {p})
  }

  // ---- the invariant ----

  /** Of the processes with a stack only the current one runs, and every other one that is ready is queued. */
  ghost predicate Inv(s: Tasks) {
    && s.current in s.tasks && (s.tasks[s.current].run == Running || s.tasks[s.current].run == Zombie)
    && s.queued <= s.tasks.Keys && s.current !in s.queued
    && forall p | p in s.tasks && p != s.current ::
         (s.tasks[p].run == Running ==> !s.tasks[p].stack) && (s.tasks[p].run == Ready ==> p in s.queued)
  }

  lemma ScheduleKeeps(s: Tasks, dropped: set<Pid>, next: Option<Pid>, s': Tasks)
    requires Inv(s) && Scheduled(s, dropped, next, s')
    ensures Inv(s')
  {
  }

  /** A process that blocks leaves a sound state exactly when the queue holds a process that can run. */
  lemma BlockExact(s: Tasks, dropped: set<Pid>, next: Option<Pid>, s': Tasks)
    requires Inv(s) && Scheduled(Set(s, s.current, Blocked), dropped, next, s')
    ensures Inv(s') <==> exists p | p in s.queued :: Runnable(s, p)
  {
    if next.Some? {
      assert Runnable(s, next.value);
    } else {
      assert s'.tasks[s'.current].run == Blocked;
      assert forall p | p in s.queued :: p in dropped;
    }
  }

  lemma StepsKeep(s: Tasks, p: Pid)
    requires Inv(s)
    ensures p !in s.tasks ==> Inv(Created(s, p))
    ensures Inv(Woken(s, p))
    ensures p in s.tasks ==> Inv(Set(s, p, Zombie))
    ensures p in s.tasks && s.tasks[p].run == Zombie && p != s.current ==> Inv(Reaped(s, p))
  {
  }

  /** Making a sleeper ready without queueing it keeps the promise exactly when it happens to be queued already. */
  lemma QuietWakeExact(s: Tasks, p: Pid)
    requires Inv(s) && p in s.tasks && s.tasks[p].run == Blocked
    ensures Inv(Set(s, p, Ready)) <==> p in s.queued
  {
    assert Set(s, p, Ready).tasks[p].run == Ready;
  }

  // ---- runs ----

  datatype Step = Create(p: Pid) | Wake(p: Pid) | Kill(p: Pid) | Reap(p: Pid) | Yield | Block

  ghost predicate Next(s: Tasks, step: Step, s': Tasks) {
    match step
    case Create(p) => p !in s.tasks && s' == Created(s, p)
    case Wake(p) => s' == Woken(s, p)
    case Kill(p) => p in s.tasks && s' == Set(s, p, Zombie)
    case Reap(p) => p in s.tasks && s.tasks[p].run == Zombie && p != s.current && s' == Reaped(s, p)
    case Yield => exists dropped, next :: Scheduled(s, dropped, next, s')
    case Block =>
      && s.current in s.tasks && (exists p | p in s.queued :: Runnable(s, p))
      && exists dropped, next :: Scheduled(Set(s, s.current, Blocked), dropped, next, s')
  }

  /** The idle process alone, running. */
  ghost predicate Init(s: Tasks) {
    s.tasks == map[s.current := Task(Running, false)] && s.queued == {}
  }

  ghost predicate IsRun(ss: seq<Tasks>, steps: seq<Step>) {
    |ss| == |steps| + 1 && Init(ss[0]) && forall i | 0 <= i < |steps| :: Next(ss[i], steps[i], ss[i + 1])
  }

  /** No lost process: every state of every run in which a blocking process finds another to switch to. */
  lemma {:induction false} NoLostProcess(ss: seq<Tasks>, steps: seq<Step>, k: nat)
    requires IsRun(ss, steps) && k < |ss|
    ensures Inv(ss[k])
  {
    if k > 0 {
      NoLostProcess(ss, steps, k - 1);
      StepKeeps(ss[k - 1], steps[k - 1], ss[k]);
    }
  }

  lemma StepKeeps(s: Tasks, step: Step, s': Tasks)
    requires Inv(s) && Next(s, step, s')
    ensures Inv(s')
  {
    match step
    case Create(p) => StepsKeep(s, p);
    case Wake(p) => StepsKeep(s, p);
    case Kill(p) => StepsKeep(s, p);
    case Reap(p) => StepsKeep(s, p);
    case Yield =>
      var dropped, next :| Scheduled(s, dropped, next, s');
      ScheduleKeeps(s, dropped, next, s');
    case Block =>
      var dropped, next :| Scheduled(Set(s, s.current, Blocked), dropped, next, s');
      BlockExact(s, dropped, next, s');
  }

  /** Beside the idle process `idle`, process `a` alone. */
  lemma OneProcess(idle: Pid, a: Pid) returns (ss: seq<Tasks>)
    requires a != idle
    ensures IsRun(ss, [Create(a), Yield])
    ensures ss[2] == Tasks(map[idle := Task(Running, false), a := Task(Running, true)], a, {})
  {
    var s0 := Tasks(map[idle := Task(Running, false)], idle, {});
    var s1 := Created(s0, a);
    var s2 := Switched(s1.(queued := {}), a);
    assert s1.queued - {} - {a} == {};
    assert Scheduled(s1, {}, Some(a), s2);
    ss := [s0, s1, s2];
  }

  /**
   * A process that blocks with nobody to switch to, is woken and switched away from, is lost: ready, and in no queue.
   * The run starts with the idle process alone.
   */
  lemma BlockedAlone(idle: Pid, a: Pid, b: Pid)
    returns (ss: seq<Tasks>, s1: Tasks, s2: Tasks, s3: Tasks, s4: Tasks, s5: Tasks)
    requires a != b && idle != a && idle != b
    ensures IsRun(ss, [Create(a), Yield]) && ss[2].current == a && a in ss[2].tasks
    ensures Scheduled(Set(ss[2], a, Blocked), {}, None, s1) && s2 == Woken(s1, a) && Scheduled(s2, {}, Some(a), s3)
    ensures s4 == Created(s3, b) && Scheduled(s4, {}, Some(b), s5)
    ensures s5.current == b && s5.tasks[a].run == Ready && a !in s5.queued
  {
    ss := OneProcess(idle, a);
    s1 := Set(ss[2], a, Blocked);
    s2 := Woken(s1, a);
    s3 := s2.(queued := {});
    s4 := Created(s3, b);
    s5 := Switched(s4.(queued := {}), b);
    assert s2.queued - {} - {a} == {} && s4.queued - {} - {b} == {};
  }

  /** A run in which process `a` sleeps and `b` runs: made ready without being queued, `a` is lost. */
  lemma QuietWakeLost(idle: Pid, a: Pid, b: Pid) returns (ss: seq<Tasks>, steps: seq<Step>)
    requires a != b && idle != a && idle != b
    ensures IsRun(ss, steps) && var s := ss[|steps|];
      && a in s.tasks && s.tasks[a].run == Blocked && a !in s.queued && !Inv(Set(s, a, Ready))
  {
    var first := OneProcess(idle, a);
    var s3 := Created(first[2], b);
    var s4 := Switched(Set(s3, a, Blocked).(queued := {}), b);
    assert s3.queued - {} - {b} == {};
    assert Scheduled(Set(s3, a, Blocked), {}, Some(b), s4);
    assert b in s3.queued && Runnable(s3, b);
    ss, steps := first + [s3, s4], [Create(a), Yield, Create(b), Block];
    assert Next(first[0], Create(a), first[1]) && Next(first[1], Yield, first[2]);
    assert Next(first[2], Create(b), s3) && Next(s3, Block, s4);
    NoLostProcess(ss, steps, 4);
    QuietWakeExact(s4, a);
  }
}
