/**
 The process table and the run queue together: each pick of a switch takes a process that no queued one is ahead of,
 so a process that is ready is switched to after a bounded number of switches.
 */
module TaskFairness {
  import opened Common
  import opened TaskSchedule
  import Sched

  datatype System = System(tasks: map<Pid, Task>, current: Pid, rq: Sched.State)

  /** The process states and who is queued. */
  function View(k: System): Tasks {
    Tasks(k.tasks, k.current, k.rq.queued)
  }

  // ---- a switch, pick by pick ----

  function PickOne(rq: Sched.State, p: Pid): Sched.State {
    if p in rq.key && p in rq.nice then Sched.Pick(rq, p) else rq
  }

  /** The queue after picking `picks` one after the other. */
  function PickAll(rq: Sched.State, picks: seq<Pid>): Sched.State {
    if picks == [] then rq else PickOne(PickAll(rq, picks[..|picks| - 1]), picks[|picks| - 1])
  }

  /** Each pick is of a process that no queued one is ahead of at that point. */
  ghost predicate LegalPicks(rq: Sched.State, picks: seq<Pid>)
    decreases |picks|, 0
  {
    picks == [] || LegalPick(rq, picks[..|picks| - 1], picks[|picks| - 1])
  }

  ghost predicate LegalPick(rq: Sched.State, before: seq<Pid>, p: Pid)
    decreases |before|, 1
  {
    LegalPicks(rq, before) && Sched.Least(PickAll(rq, before), p) && p in PickAll(rq, before).nice
  }

  /** The picks of schedule: processes that cannot run are passed over until one can, or the queue is empty. */
  ghost predicate Searched(k: System, picks: seq<Pid>) {
    && LegalPicks(k.rq, picks)
    && (picks != [] ==> forall p | p in picks[..|picks| - 1] :: !Runnable(View(k), p))
    && (Chosen(k, picks) == None ==> PickAll(k.rq, picks).queued == {})
  }

  function Chosen(k: System, picks: seq<Pid>): Option<Pid> {
    if picks != [] && Runnable(View(k), picks[|picks| - 1]) then Some(picks[|picks| - 1]) else None
  }

  /** schedule with these picks. */
  ghost function Rescheduled(k: System, picks: seq<Pid>): System
    requires k.current in k.tasks && k.current in PickAll(k.rq, picks).key
  {
    var rq := PickAll(k.rq, picks);
    match Chosen(k, picks)
    case None => k.(rq := rq)
    case Some(n) =>
      if n == k.current then k.(rq := rq)
      else
        var last := k.tasks[k.current];
        var back := last.run == Running && last.stack;
        var tasks := if back then k.tasks[k.current := last.(run := Ready)] else k.tasks;
        System(tasks[n := tasks[n].(run := Running)], n, if back then Sched.Enqueue(rq, k.current) else rq)
  }

  datatype Step =
    | Create(p: Pid, nice: int, key: nat)
    | Wake(p: Pid)
    | Kill(p: Pid)
    | Reap(p: Pid)
    | Yield(picks: seq<Pid>)
    | Block(picks: seq<Pid>)

  ghost predicate Next(k: System, step: Step, k': System) {
    match step
    case Create(p, nice, key) =>
      && p !in k.tasks && p !in k.rq.key && key <= k.rq.min
      && k' == k.(tasks := k.tasks[p := Task(Ready, true)], rq := Sched.Enqueue(Sched.Create(k.rq, p, nice, key), p))
    case Wake(p) =>
      k' == if p in k.tasks && k.tasks[p].run == Blocked && p in k.rq.key then
              k.(tasks := k.tasks[p := k.tasks[p].(run := Ready)], rq := Sched.Enqueue(k.rq, p))
            else k
    case Kill(p) => p in k.tasks && k' == k.(tasks := k.tasks[p := k.tasks[p].(run := Zombie)])
    case Reap(p) =>
      && p in k.tasks && k.tasks[p].run == Zombie && p != k.current
      && k' == k.(tasks := k.tasks - {p}, rq := Sched.Remove(k.rq, p))
    case Yield(picks) =>
      k.current in k.tasks && k.current in PickAll(k.rq, picks).key && Searched(k, picks) && k' == Rescheduled(k, picks)
    case Block(picks) =>
      && k.current in k.tasks && k.current in PickAll(k.rq, picks).key
      && var k1 := k.(tasks := k.tasks[k.current := k.tasks[k.current].(run := Blocked)]);
         Searched(k1, picks) && k' == Rescheduled(k1, picks)
  }

  // ---- the queue's own steps ----

  /** What a stretch of kernel steps does to the queue, as the queue's own steps, `q` waiting all the while. */
  ghost predicate Trace(rq: Sched.State, ss: seq<Sched.State>, ops: seq<Sched.Op>, rq': Sched.State, q: Pid) {
    Sched.Waits(ss, ops, q) && ss[0] == rq && ss[|ops|] == rq'
  }

  lemma TraceNone(rq: Sched.State, q: Pid)
    requires Sched.Inv(rq) && q in rq.queued
    ensures Trace(rq, [rq], [], rq, q)
  {
  }

  lemma TraceMore(rq: Sched.State, ss: seq<Sched.State>, ops: seq<Sched.Op>, rq1: Sched.State, q: Pid, op: Sched.Op,
                  rq': Sched.State)
    requires Trace(rq, ss, ops, rq1, q) && Sched.Next(rq1, op, rq') && op != Sched.DoPick(q) && q in rq'.queued
    ensures Trace(rq, ss + [rq'], ops + [op], rq', q)
  {
  }

  lemma {:induction false} PicksJoin(a: seq<Sched.Op>, b: seq<Sched.Op>, rs: set<Pid>)
    ensures Sched.PicksIn(a + b, rs) == Sched.PicksIn(a, rs) + Sched.PicksIn(b, rs)
  {
    if a == [] {
      assert a + b == b;
    } else {
      assert (a + b)[1..] == a[1..] + b;
      PicksJoin(a[1..], b, rs);
    }
  }

  lemma TraceJoin(rq: Sched.State, ss: seq<Sched.State>, ops: seq<Sched.Op>, rq1: Sched.State,
                  ts: seq<Sched.State>, more: seq<Sched.Op>, rq': Sched.State, q: Pid)
    requires Trace(rq, ss, ops, rq1, q) && Trace(rq1, ts, more, rq', q)
    ensures Trace(rq, ss[..|ops|] + ts, ops + more, rq', q)
  {
    var rs, os := ss[..|ops|] + ts, ops + more;
    forall i | 0 <= i < |os| ensures Sched.Next(rs[i], os[i], rs[i + 1]) && os[i] != Sched.DoPick(q) {
      if i >= |ops| {
        assert Sched.Next(ts[i - |ops|], more[i - |ops|], ts[i - |ops| + 1]);
      }
    }
    forall i | 0 <= i < |rs| ensures q in rs[i].queued {
      if i >= |ops| {
        assert q in ts[i - |ops|].queued;
      }
    }
  }

  /** One more step of the queue, counted. */
  lemma TraceStep(rq: Sched.State, ss: seq<Sched.State>, ops: seq<Sched.Op>, rq1: Sched.State, q: Pid,
                  op: Sched.Op, rq': Sched.State, rs: set<Pid>)
    requires Trace(rq, ss, ops, rq1, q) && Sched.Next(rq1, op, rq') && op != Sched.DoPick(q) && q in rq'.queued
    ensures Trace(rq, ss + [rq'], ops + [op], rq', q)
    ensures Sched.PicksIn(ops + [op], rs) == Sched.PicksIn(ops, rs) + (if op.DoPick? && op.p in rs then 1 else 0)
  {
    TraceMore(rq, ss, ops, rq1, q, op, rq');
    PicksJoin(ops, [op], rs);
    assert [op][1..] == [];
  }

  // ---- what the picks take from the queue ----

  lemma LastPick(picks: seq<Pid>, p: Pid)
    ensures (picks + [p])[..|picks|] == picks
  {
  }

  /** Picks leave the same processes known, and take theirs off the queue. */
  lemma {:induction false} PickedOff(rq: Sched.State, picks: seq<Pid>)
    requires LegalPicks(rq, picks) && Sched.Inv(rq)
    ensures Sched.Inv(PickAll(rq, picks)) && PickAll(rq, picks).key.Keys == rq.key.Keys
    ensures forall p :: p in PickAll(rq, picks).queued <==> p in rq.queued && p !in picks
    ensures forall p | p in picks :: p in rq.queued
  {
    if picks != [] {
      var n := |picks| - 1;
      PickedOff(rq, picks[..n]);
      assert LegalPick(rq, picks[..n], picks[n]);
      assert picks == picks[..n] + [picks[n]];
      PickOneOff(PickAll(rq, picks[..n]), picks[n]);
    }
  }

  lemma PickOneOff(rq: Sched.State, p: Pid)
    requires Sched.Inv(rq) && Sched.Least(rq, p) && p in rq.nice
    ensures Sched.Inv(PickOne(rq, p)) && PickOne(rq, p).key.Keys == rq.key.Keys
    ensures PickOne(rq, p).queued == rq.queued - {p}
    ensures Sched.Next(rq, Sched.DoPick(p), PickOne(rq, p))
  {
    Sched.StepKeeps(rq, Sched.DoPick(p), PickOne(rq, p));
  }

  lemma {:induction false} UnpickedKeys(rq: Sched.State, picks: seq<Pid>, p: Pid)
    requires LegalPicks(rq, picks) && p in rq.key && p !in picks
    ensures p in PickAll(rq, picks).key && PickAll(rq, picks).key[p] == rq.key[p]
  {
    if picks != [] {
      var n := |picks| - 1;
      assert LegalPick(rq, picks[..n], picks[n]);
      UnpickedKeys(rq, picks[..n], p);
    }
  }

  /** A queued process in a state that can run. */
  ghost predicate Due(k: System, p: Pid) {
    p in k.rq.queued && p in k.rq.key && p in k.tasks && k.tasks[p].run in {Ready, Running}
  }

  /** Of these `n` has the least virtual runtime. */
  ghost predicate LeastRunnable(k: System, n: Pid) {
    Due(k, n) && forall r | Due(k, r) :: k.rq.key[n] <= k.rq.key[r]
  }

  lemma DueRuns(k: System, p: Pid)
    ensures Due(k, p) <==> p in k.rq.queued && p in k.rq.key && Runnable(View(k), p)
  {
  }

  lemma LastPickLeast(k: System, before: seq<Pid>, n: Pid)
    requires Inv(k) && LegalPick(k.rq, before, n) && Runnable(View(k), n)
    requires forall p | p in before :: !Runnable(View(k), p)
    ensures LeastRunnable(k, n)
  {
    PickedOff(k.rq, before);
    DueRuns(k, n);
    UnpickedKeys(k.rq, before, n);
    forall r | Due(k, r) ensures k.rq.key[n] <= k.rq.key[r] {
      DueRuns(k, r);
      UnpickedKeys(k.rq, before, r);
    }
  }

  lemma NoneDue(k: System, picks: seq<Pid>, p: Pid)
    requires Inv(k) && LegalPicks(k.rq, picks) && PickAll(k.rq, picks).queued == {}
    requires forall p | p in picks :: !Runnable(View(k), p)
    ensures !Due(k, p)
  {
    PickedOff(k.rq, picks);
    DueRuns(k, p);
  }

  /** A search chooses the process that is due next, and finds none only if no queued process can run. */
  lemma ChosenIsLeast(k: System, picks: seq<Pid>)
    requires Inv(k) && Searched(k, picks)
    ensures match Chosen(k, picks)
      case None => forall p :: !Due(k, p)
      case Some(n) => LeastRunnable(k, n)
  {
    if Chosen(k, picks).Some? {
      LastPickLeast(k, picks[..|picks| - 1], picks[|picks| - 1]);
    } else {
      assert picks != [] ==> picks == picks[..|picks| - 1] + [picks[|picks| - 1]];
      forall p ensures !Due(k, p) {
        NoneDue(k, picks, p);
      }
    }
  }

  lemma {:induction false} PicksTrace(rq: Sched.State, picks: seq<Pid>, q: Pid, rs: set<Pid>)
    returns (ss: seq<Sched.State>, ops: seq<Sched.Op>)
    requires Sched.Inv(rq) && LegalPicks(rq, picks) && q in rq.queued && q !in picks
    requires forall p | p in picks :: p in rs
    ensures Trace(rq, ss, ops, PickAll(rq, picks), q) && Sched.PicksIn(ops, rs) == |picks|
  {
    if picks == [] {
      TraceNone(rq, q);
      return [rq], [];
    }
    var n := |picks| - 1;
    assert LegalPick(rq, picks[..n], picks[n]);
    ss, ops := PicksTrace(rq, picks[..n], q, rs);
    PickedOff(rq, picks[..n]);
    var rq1 := PickAll(rq, picks[..n]);
    PickOneOff(rq1, picks[n]);
    TraceStep(rq, ss, ops, rq1, q, Sched.DoPick(picks[n]), PickOne(rq1, picks[n]), rs);
    ss, ops := ss + [PickOne(rq1, picks[n])], ops + [Sched.DoPick(picks[n])];
  }

  // ---- waiting ----

  ghost predicate Inv(k: System) {
    && Sched.Inv(k.rq) && k.tasks.Keys <= k.rq.key.Keys && k.current in k.tasks && k.rq.queued <= k.tasks.Keys
  }

  /** Process `q` could run, is queued, and does not have the processor. */
  ghost predicate Waiting(k: System, q: Pid) {
    Runnable(View(k), q) && q in k.rq.queued && q != k.current
  }

  /** While `q` waits on, a switch picks somebody, and not `q`. */
  lemma PicksOthers(k: System, picks: seq<Pid>, q: Pid)
    requires Inv(k) && Searched(k, picks) && Waiting(k, q) && k.current in PickAll(k.rq, picks).key
    requires q in Rescheduled(k, picks).rq.queued
    ensures picks != [] && q !in picks
  {
    PickedOff(k.rq, picks);
    if picks != [] {
      assert picks == picks[..|picks| - 1] + [picks[|picks| - 1]];
    }
  }

  /** A switch as steps of the queue. */
  lemma SwitchTrace(k: System, picks: seq<Pid>, q: Pid, rs: set<Pid>)
    returns (ss: seq<Sched.State>, ops: seq<Sched.Op>)
    requires Inv(k) && Searched(k, picks) && Waiting(k, q) && k.current in PickAll(k.rq, picks).key
    requires q in Rescheduled(k, picks).rq.queued && k.rq.key.Keys <= rs + {q}
    ensures Trace(k.rq, ss, ops, Rescheduled(k, picks).rq, q) && Sched.PicksIn(ops, rs) >= 1
  {
    PicksOthers(k, picks, q);
    PickedOff(k.rq, picks);
    ss, ops := PicksTrace(k.rq, picks, q, rs);
    var rq, rq' := PickAll(k.rq, picks), Rescheduled(k, picks).rq;
    if rq' != rq {
      TraceStep(k.rq, ss, ops, rq, q, Sched.DoEnqueue(k.current), rq', rs);
      ss, ops := ss + [rq'], ops + [Sched.DoEnqueue(k.current)];
    }
  }

  // ---- every step ----

  lemma SwitchKeeps(k: System, picks: seq<Pid>)
    requires Inv(k) && Searched(k, picks) && k.current in PickAll(k.rq, picks).key
    ensures Inv(Rescheduled(k, picks))
  {
    PickedOff(k.rq, picks);
    var rq := PickAll(k.rq, picks);
    Sched.StepKeeps(rq, Sched.DoEnqueue(k.current), Sched.Enqueue(rq, k.current));
  }

  lemma StepKeeps(k: System, step: Step, k': System)
    requires Inv(k) && Next(k, step, k')
    ensures Inv(k') && k.rq.key.Keys <= k'.rq.key.Keys
  {
    match step
    case Create(p, nice, key) =>
      Sched.StepKeeps(k.rq, Sched.DoCreate(p, nice, key), Sched.Create(k.rq, p, nice, key));
      Sched.StepKeeps(Sched.Create(k.rq, p, nice, key), Sched.DoEnqueue(p), k'.rq);
    case Wake(p) =>
      if k' != k {
        Sched.StepKeeps(k.rq, Sched.DoEnqueue(p), k'.rq);
      }
    case Kill(p) =>
    case Reap(p) => Sched.StepKeeps(k.rq, Sched.DoRemove(p), k'.rq);
    case Yield(picks) =>
      SwitchKeeps(k, picks);
      PickedOff(k.rq, picks);
    case Block(picks) =>
      SwitchKeeps(k.(tasks := k.tasks[k.current := k.tasks[k.current].(run := Blocked)]), picks);
      PickedOff(k.rq, picks);
  }

  predicate Switches(step: Step) {
    step.Yield? || step.Block?
  }

  /** A kernel step as steps of the queue, at least one of them a pick if it is a switch. */
  lemma StepTrace(k: System, step: Step, k': System, q: Pid, rs: set<Pid>)
    returns (ss: seq<Sched.State>, ops: seq<Sched.Op>)
    requires Inv(k) && Next(k, step, k') && Waiting(k, q) && Waiting(k', q) && k.rq.key.Keys <= rs + {q}
    ensures Trace(k.rq, ss, ops, k'.rq, q) && (Switches(step) ==> Sched.PicksIn(ops, rs) >= 1)
  {
    TraceNone(k.rq, q);
    ss, ops := [k.rq], [];
    match step
    case Create(p, nice, key) =>
      var rq1 := Sched.Create(k.rq, p, nice, key);
      TraceStep(k.rq, ss, ops, k.rq, q, Sched.DoCreate(p, nice, key), rq1, rs);
      ss, ops := ss + [rq1], ops + [Sched.DoCreate(p, nice, key)];
      TraceStep(k.rq, ss, ops, rq1, q, Sched.DoEnqueue(p), k'.rq, rs);
      ss, ops := ss + [k'.rq], ops + [Sched.DoEnqueue(p)];
    case Wake(p) =>
      if k' != k {
        TraceStep(k.rq, ss, ops, k.rq, q, Sched.DoEnqueue(p), k'.rq, rs);
        ss, ops := ss + [k'.rq], ops + [Sched.DoEnqueue(p)];
      }
    case Kill(p) =>
    case Reap(p) =>
      TraceStep(k.rq, ss, ops, k.rq, q, Sched.DoRemove(p), k'.rq, rs);
      ss, ops := ss + [k'.rq], ops + [Sched.DoRemove(p)];
    case Yield(picks) => ss, ops := SwitchTrace(k, picks, q, rs);
    case Block(picks) =>
      ss, ops := SwitchTrace(k.(tasks := k.tasks[k.current := k.tasks[k.current].(run := Blocked)]), picks, q, rs);
  }

  // ---- whole runs ----

  /** The idle process alone, running. */
  ghost predicate Init(k: System) {
    && k.tasks == map[k.current := Task(Running, false)] && k.rq.queued == {}
    && k.rq.key == map[k.current := 0] && k.rq.nice.Keys == k.rq.key.Keys
  }

  ghost predicate StepAt(ks: seq<System>, steps: seq<Step>, i: nat) {
    i < |steps| && i + 1 < |ks| ==> Next(ks[i], steps[i], ks[i + 1])
  }

  ghost predicate IsRun(ks: seq<System>, steps: seq<Step>) {
    |ks| == |steps| + 1 && Init(ks[0])
    && forall i: nat {:trigger StepAt(ks, steps, i)} :: StepAt(ks, steps, i)
  }

  lemma {:induction false} RunKeeps(ks: seq<System>, steps: seq<Step>, i: nat, j: nat)
    requires IsRun(ks, steps) && i <= j <= |steps|
    ensures Inv(ks[j]) && ks[i].rq.key.Keys <= ks[j].rq.key.Keys
    decreases j
  {
    if j > 0 {
      RunKeeps(ks, steps, if i < j then i else j - 1, j - 1);
      assert StepAt(ks, steps, j - 1);
      StepKeeps(ks[j - 1], steps[j - 1], ks[j]);
    }
  }

  /** How many of the steps are switches. */
  function SwitchCount(steps: seq<Step>): nat {
    if steps == [] then 0
    else SwitchCount(steps[..|steps| - 1]) + (if Switches(steps[|steps| - 1]) then 1 else 0)
  }

  /** Process `q` waits in the states `i` to `j`. */
  ghost predicate WaitsOn(ks: seq<System>, i: nat, j: nat, q: Pid) {
    j < |ks| && forall m {:trigger Waiting(ks[m], q)} | i <= m <= j :: Waiting(ks[m], q)
  }

  /** A stretch of a run through which `q` waits, as steps of the queue with as many picks as there are switches. */
  lemma {:induction false} StretchTrace(ks: seq<System>, steps: seq<Step>, i: nat, j: nat, q: Pid, rs: set<Pid>)
    returns (ss: seq<Sched.State>, ops: seq<Sched.Op>)
    requires IsRun(ks, steps) && i <= j <= |steps| && ks[j].rq.key.Keys <= rs + {q}
    requires WaitsOn(ks, i, j, q)
    ensures Trace(ks[i].rq, ss, ops, ks[j].rq, q) && Sched.PicksIn(ops, rs) >= SwitchCount(steps[i..j])
    decreases j
  {
    assert Waiting(ks[j], q);
    if i == j {
      RunKeeps(ks, steps, i, i);
      TraceNone(ks[i].rq, q);
      return [ks[i].rq], [];
    }
    assert StepAt(ks, steps, j - 1) && Waiting(ks[j - 1], q);
    RunKeeps(ks, steps, j - 1, j - 1);
    RunKeeps(ks, steps, j - 1, j);
    var before, first := StretchTrace(ks, steps, i, j - 1, q, rs);
    var after, more := StepTrace(ks[j - 1], steps[j - 1], ks[j], q, rs);
    TraceJoin(ks[i].rq, before, first, ks[j - 1].rq, after, more, ks[j].rq, q);
    PicksJoin(first, more, rs);
    OneMoreStep(steps, i, j);
    ss, ops := before[..|first|] + after, first + more;
  }

  lemma OneMoreStep(steps: seq<Step>, i: nat, j: nat)
    requires i < j <= |steps|
    ensures SwitchCount(steps[i..j]) == SwitchCount(steps[i..j - 1]) + (if Switches(steps[j - 1]) then 1 else 0)
  {
    assert steps[i..j][..j - 1 - i] == steps[i..j - 1] && steps[i..j][j - 1 - i] == steps[j - 1];
  }

  /**
   * In every run, while a process is ready and queued, there are at most two switches for each other process: the
   * process is switched to by then.
   */
  lemma SwitchedToSoon(ks: seq<System>, steps: seq<Step>, i: nat, j: nat, q: Pid)
    requires IsRun(ks, steps) && i <= j <= |steps| && WaitsOn(ks, i, j, q)
    ensures SwitchCount(steps[i..j]) <= 2 * |ks[j].rq.key.Keys - {q}|
  {
    var rs := ks[j].rq.key.Keys - {q};
    var ss, ops := StretchTrace(ks, steps, i, j, q, rs);
    Sched.NoStarvation(ss, ops, q, rs);
  }

  // ---- the same steps on process states alone ----

  /** A switch, pick by pick, is a switch of the process states. */
  lemma SwitchView(k: System, picks: seq<Pid>) returns (dropped: set<Pid>)
    requires Inv(k) && Searched(k, picks) && k.current in PickAll(k.rq, picks).key
    ensures Scheduled(View(k), dropped, Chosen(k, picks), View(Rescheduled(k, picks)))
  {
    PickedOff(k.rq, picks);
    var rq := PickAll(k.rq, picks);
    if picks == [] {
      return {};
    }
    var n := |picks| - 1;
    assert picks == picks[..n] + [picks[n]];
    if Chosen(k, picks) == None {
      dropped := set p | p in picks;
      assert dropped == k.rq.queued;
    } else {
      dropped := set p | p in picks[..n];
      assert rq.queued == k.rq.queued - dropped - {picks[n]};
    }
  }

  function ViewStep(step: Step): TaskSchedule.Step {
    match step
    case Create(p, _, _) => TaskSchedule.Create(p)
    case Wake(p) => TaskSchedule.Wake(p)
    case Kill(p) => TaskSchedule.Kill(p)
    case Reap(p) => TaskSchedule.Reap(p)
    case Yield(_) => TaskSchedule.Yield
    case Block(_) => TaskSchedule.Block
  }

  /** If the step blocks the current process, another one can run. */
  ghost predicate Relieved(k: System, step: Step) {
    step.Block? ==> exists p | p in k.rq.queued :: Runnable(View(k), p)
  }

  lemma StepView(k: System, step: Step, k': System)
    requires Inv(k) && Next(k, step, k') && Relieved(k, step)
    ensures TaskSchedule.Next(View(k), ViewStep(step), View(k'))
  {
    match step
    case Yield(picks) => var dropped := SwitchView(k, picks);
    case Block(picks) =>
      var k1 := k.(tasks := k.tasks[k.current := k.tasks[k.current].(run := Blocked)]);
      var dropped := SwitchView(k1, picks);
      assert View(k1) == Set(View(k), k.current, Blocked);
      assert Scheduled(Set(View(k), k.current, Blocked), dropped, Chosen(k1, picks), View(k'));
      var p :| p in k.rq.queued && Runnable(View(k), p);
      assert p in View(k).queued && Runnable(View(k), p);
    case _ =>
  }

  /** In every run in which a blocking process leaves another that can run, no process is lost. */
  lemma {:induction false} NoneLost(ks: seq<System>, steps: seq<Step>, j: nat)
    requires IsRun(ks, steps) && j <= |steps| && forall i | 0 <= i < j :: Relieved(ks[i], steps[i])
    ensures TaskSchedule.Inv(View(ks[j]))
  {
    if j > 0 {
      NoneLost(ks, steps, j - 1);
      RunKeeps(ks, steps, j - 1, j - 1);
      assert StepAt(ks, steps, j - 1);
      StepView(ks[j - 1], steps[j - 1], ks[j]);
      TaskSchedule.StepKeeps(View(ks[j - 1]), ViewStep(steps[j - 1]), View(ks[j]));
    }
  }
}
