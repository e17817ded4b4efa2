/** How many readers and writers a pipe counts, exactly: its open ends and every count-up since it was made. */
module FdPipes {
  import opened Common
  import opened FdTable

  /** Readers are the pulling side, writers the pushing one. */
  function Side(q: Pipe, flags: nat): int {
    if flags == 0 then q.readers else q.writers
  }

  /** The step frees an end of this side of the pipe: it closes the last descriptor of its file. */
  ghost predicate Loses(s: State, step: Step, q: Addr, flags: nat) {
    && step.Close? && Enabled(s, step)
    && var f := s.files[s.fds[step.p][step.i].value]; f.refs == 1 && f.pipe == Some(q) && f.flags == flags
  }

  /** The step counts this side of the pipe up. */
  ghost predicate Raises(s: State, step: Step, q: Addr, flags: nat) {
    && step.Count? && step.a in s.files
    && s.files[step.a].pipe == Some(q) && s.files[step.a].flags == flags
  }

  ghost function One(b: bool): int {
    if b then 1 else 0
  }

  /** Only freeing an end takes it from the open ends. */
  lemma EndsStep(s: State, step: Step, q: Addr, flags: nat)
    requires Inv(s) && Enabled(s, step) && q in s.pipes && flags < 2
    ensures |Ends(After(s, step), q, flags)| == |Ends(s, q, flags)| - One(Loses(s, step, q, flags))
  {
    var s' := After(s, step);
    match step
    case Open(a, f) => NewEnds(s, a, File(0, None, f), q, flags);
    case MakePipe(q', r, w) =>
      NewEnds(NewPipe(s, q'), r, File(0, Some(q'), PULL), q, flags);
      NewEnds(NewFile(NewPipe(s, q'), r, File(0, Some(q'), PULL)), w, File(0, Some(q'), PUSH), q, flags);
      EndsSame(s, NewPipe(s, q'), q, flags);
    case Close(p, i) =>
      if s.files[s.fds[p][i].value].refs == 1 {
        EndsWithout(s, s', s.fds[p][i].value, q, flags);
      } else {
        EndsSame(s, s', q, flags);
      }
    case GiveBack(a) => EndsWithout(s, s', a, q, flags);
    case _ => EndsSame(s, s', q, flags);
  }

  /**
   * The counts move with the ends that are freed and with what is counted up; at nothing on both sides the pipe goes.
   */
  lemma SidesStep(s: State, step: Step, q: Addr)
    requires Inv(s) && Enabled(s, step) && q in s.pipes
    ensures var s' := After(s, step); var was := s.pipes[q];
      var readers := was.readers + One(Raises(s, step, q, 0)) - One(Loses(s, step, q, 0));
      var writers := was.writers + One(Raises(s, step, q, 1)) - One(Loses(s, step, q, 1));
      var freed := (Loses(s, step, q, 0) || Loses(s, step, q, 1)) && readers <= 0 && writers <= 0;
      (q in s'.pipes <==> !freed) && (q in s'.pipes ==> s'.pipes[q] == Pipe(readers, writers))
  {
    if step.Close? {
      assert PipeEnd(s, s.fds[step.p][step.i].value);
    }
    if step.Count? {
      assert PipeEnd(s, step.a);
    }
  }

  /** A new pipe has one end on each side. */
  lemma NewSides(s: State, q: Addr, r: Addr, w: Addr)
    requires Inv(s) && Enabled(s, MakePipe(q, r, w))
    ensures var s' := After(s, MakePipe(q, r, w));
      q in s'.pipes && s'.pipes[q] == Pipe(1, 1) && Ends(s', q, 0) == {r} && Ends(s', q, 1) == {w}
  {
    forall a | a in s.files ensures s.files[a].pipe != Some(q) {
      assert PipeEnd(s, a);
    }
  }

  // ---- whole runs ----

  /** How often a side of the pipe was counted up in the first `k` steps, since the pipe was made. */
  ghost function Raised(ss: seq<State>, steps: seq<Step>, k: nat, q: Addr, flags: nat): nat
    requires k <= |steps| <= |ss|
  {
    if k == 0 || (steps[k - 1].MakePipe? && steps[k - 1].q == q) then 0
    else Raised(ss, steps, k - 1, q, flags) + One(Raises(ss[k - 1], steps[k - 1], q, flags))
  }

  /** Each side of the pipe counts its open ends and the count-ups, and some side counts something. */
  ghost predicate Accounted(s: State, q: Addr, readers: nat, writers: nat) {
    && q in s.pipes && (s.pipes[q].readers > 0 || s.pipes[q].writers > 0)
    && s.pipes[q].readers == |Ends(s, q, 0)| + readers && s.pipes[q].writers == |Ends(s, q, 1)| + writers
  }

  lemma AccountedStep(s: State, step: Step, q: Addr, readers: nat, writers: nat)
    requires Inv(s) && Enabled(s, step) && Accounted(s, q, readers, writers)
    ensures var s' := After(s, step);
      var readers' := readers + One(Raises(s, step, q, 0)); var writers' := writers + One(Raises(s, step, q, 1));
      && (q in s'.pipes ==> Accounted(s', q, readers', writers'))
      && (q in s'.pipes <==> |Ends(s', q, 0)| + readers' > 0 || |Ends(s', q, 1)| + writers' > 0)
  {
    SidesStep(s, step, q);
    EndsStep(s, step, q, 0);
    EndsStep(s, step, q, 1);
  }

  /** In every run a pipe counts as readers its open pulling ends and every count-up of them, and so the writers. */
  lemma {:induction false} PipeExact(ss: seq<State>, steps: seq<Step>, k: nat, q: Addr)
    requires IsRun(ss, steps) && k <= |steps| && q in ss[k].pipes
    ensures Accounted(ss[k], q, Raised(ss, steps, k, q, 0), Raised(ss, steps, k, q, 1))
  {
    RunKeeps(ss, steps, k - 1);
    var s, step := ss[k - 1], steps[k - 1];
    if q in s.pipes {
      PipeExact(ss, steps, k - 1, q);
      AccountedStep(s, step, q, Raised(ss, steps, k - 1, q, 0), Raised(ss, steps, k - 1, q, 1));
    } else {
      NewSides(s, q, step.r, step.w);
    }
  }

  /** In every run a pipe is freed exactly when no end of it is open and no end was ever counted up. */
  lemma PipeFreed(ss: seq<State>, steps: seq<Step>, k: nat, q: Addr)
    requires IsRun(ss, steps) && k < |steps| && q in ss[k].pipes
    ensures q !in ss[k + 1].pipes <==>
      && Ends(ss[k + 1], q, 0) == {} && Ends(ss[k + 1], q, 1) == {}
      && Raised(ss, steps, k + 1, q, 0) == 0 && Raised(ss, steps, k + 1, q, 1) == 0
  {
    RunKeeps(ss, steps, k);
    PipeExact(ss, steps, k, q);
    AccountedStep(ss[k], steps[k], q, Raised(ss, steps, k, q, 0), Raised(ss, steps, k, q, 1));
  }
}
