/** File descriptors: slots of all processes, the reference counts of the open files behind them, and pipes. */
module FdTable {
  import opened Common

  type Addr = nat

  const MAX_FDS: nat := 256
  const PULL := 0
  const PUSH := 1

  /** An allocated open file; a pipe end names its pipe. */
  datatype File = File(refs: int, pipe: Option<Addr>, flags: nat)

  datatype Pipe = Pipe(readers: int, writers: int)

  type Table = seq<Option<Addr>>

  /** Every process's descriptor table, and the files and pipes that are allocated. */
  datatype State = State(fds: map<Pid, Table>, files: map<Addr, File>, pipes: map<Addr, Pipe>)

  ghost predicate Slot(s: State, p: Pid, i: nat, a: Addr) {
    p in s.fds && i < |s.fds[p]| && s.fds[p][i] == Some(a)
  }

  /** All descriptors that refer to a file. */
  ghost function Slots(s: State, a: Addr): set<(Pid, nat)> {
    set p, i | p in s.fds && 0 <= i < |s.fds[p]| && Slot(s, p, i, a) :: (p, i)
  }

  /** The open ends of a pipe of one kind. */
  ghost function Ends(s: State, p: Addr, flags: nat): set<Addr> {
    set a | a in s.files && s.files[a].pipe == Some(p) && s.files[a].flags == flags
  }

  ghost predicate Counted(s: State, a: Addr) {
    a in s.files && s.files[a].refs >= |Slots(s, a)|
  }

  ghost predicate PipeOk(s: State, p: Addr) {
    p in s.pipes && s.pipes[p].readers >= |Ends(s, p, PULL)| && s.pipes[p].writers >= |Ends(s, p, PUSH)|
  }

  /** An open pipe end is a reading or a writing one, and its pipe is allocated. */
  ghost predicate PipeEnd(s: State, a: Addr) {
    a in s.files
      && (s.files[a].pipe.Some? ==>
        s.files[a].pipe.value in s.pipes && (s.files[a].flags == PULL || s.files[a].flags == PUSH))
  }

  ghost predicate Sized(s: State) {
    forall p | p in s.fds :: |s.fds[p]| == MAX_FDS
  }

  /**
   * No slot refers to a freed file, counts cover the slots, no open end has a freed pipe, and pipe counts cover the
   * ends.
   */
  ghost predicate Inv(s: State) {
    && Sized(s)
    && (forall p: Pid, i: nat, a: Addr | Slot(s, p, i, a) :: a in s.files)
    && (forall a {:trigger Counted(s, a)} | a in s.files :: Counted(s, a))
    && (forall a {:trigger PipeEnd(s, a)} | a in s.files :: PipeEnd(s, a))
    && (forall p {:trigger PipeOk(s, p)} | p in s.pipes :: PipeOk(s, p))
  }

  /** Nothing is held beyond its descriptors. */
  ghost predicate Exact(s: State) {
    forall a | a in s.files :: s.files[a].refs == |Slots(s, a)|
  }

  // ---- the elementary updates ----

  /** A free slot is made to refer to a file, which is counted. */
  function Attach(s: State, p: Pid, i: nat, a: Addr): State
    requires p in s.fds && i < |s.fds[p]| && a in s.files
  {
    s.(fds := s.fds[p := s.fds[p][i := Some(a)]], files := s.files[a := s.files[a].(refs := s.files[a].refs + 1)])
  }

  /**
   * The last descriptor of a pipe end goes: its side of the pipe is counted down, and a pipe without sides is freed.
   */
  function PipeClosed(pipes: map<Addr, Pipe>, f: File): map<Addr, Pipe> {
    if f.pipe.Some? && f.pipe.value in pipes then
      var q := pipes[f.pipe.value];
      var readers := if f.flags == PULL then q.readers - 1 else q.readers;
      var q' := Pipe(readers, if f.flags == PUSH then q.writers - 1 else q.writers);
      if q'.readers <= 0 && q'.writers <= 0 then pipes - {f.pipe.value} else pipes[f.pipe.value := q']
    else pipes
  }

  /** A slot is emptied; a file without references is freed. */
  function Detach(s: State, p: Pid, i: nat): State
    requires p in s.fds && i < |s.fds[p]| && s.fds[p][i].Some? && s.fds[p][i].value in s.files
  {
    var a := s.fds[p][i].value;
    var f := s.files[a].(refs := s.files[a].refs - 1);
    var fds := s.fds[p := s.fds[p][i := None]];
    if f.refs == 0 then State(fds, s.files - {a}, PipeClosed(s.pipes, f)) else State(fds, s.files[a := f], s.pipes)
  }

  /** pipe_count_inc */
  function PipeInc(s: State, a: Addr): State
    requires a in s.files
  {
    var f := s.files[a];
    if f.pipe.Some? && f.pipe.value in s.pipes then
      var q := s.pipes[f.pipe.value];
      var readers := if f.flags == PULL then q.readers + 1 else q.readers;
      var q' := Pipe(readers, if f.flags == PUSH then q.writers + 1 else q.writers);
      s.(pipes := s.pipes[f.pipe.value := q'])
    else s
  }

  function NewFile(s: State, a: Addr, f: File): State {
    s.(files := s.files[a := f])
  }

  // ---- what they keep ----

  lemma SlotsAttach(s: State, p: Pid, i: nat, a: Addr, b: Addr)
    requires p in s.fds && i < |s.fds[p]| && a in s.files && s.fds[p][i] == None
    ensures Slots(Attach(s, p, i, a), b) == if b == a then Slots(s, b) + {(p, i)} else Slots(s, b)
    ensures (p, i) !in Slots(s, b)
  {
    var s' := Attach(s, p, i, a);
    forall r: Pid, j: nat ensures Slot(s', r, j, b) <==> Slot(s, r, j, b) || (r == p && j == i && b == a) {
    }
  }

  lemma SlotsDetach(s: State, p: Pid, i: nat, b: Addr)
    requires p in s.fds && i < |s.fds[p]| && s.fds[p][i].Some? && s.fds[p][i].value in s.files
    ensures Slots(Detach(s, p, i), b) == if s.fds[p][i] == Some(b) then Slots(s, b) - {(p, i)} else Slots(s, b)
    ensures s.fds[p][i] == Some(b) ==> (p, i) in Slots(s, b)
  {
    var s' := Detach(s, p, i);
    forall r: Pid, j: nat ensures Slot(s', r, j, b) <==> Slot(s, r, j, b) && !(r == p && j == i) {
    }
    assert Slot(s, p, i, s.fds[p][i].value);
  }

  lemma SlotsSame(s: State, s': State, b: Addr)
    requires s'.fds == s.fds
    ensures Slots(s', b) == Slots(s, b)
  {
    assert forall r: Pid, j: nat :: Slot(s', r, j, b) <==> Slot(s, r, j, b);
  }

  /** The same pipe ends are open. */
  lemma EndsSame(s: State, s': State, p: Addr, flags: nat)
    requires s'.files.Keys == s.files.Keys && forall a | a in s.files ::
      s'.files[a].pipe == s.files[a].pipe && s'.files[a].flags == s.files[a].flags
    ensures Ends(s', p, flags) == Ends(s, p, flags)
  {
  }

  lemma AttachFiles(s: State, p: Pid, i: nat, a: Addr, b: Addr)
    requires p in s.fds && i < |s.fds[p]| && s.fds[p][i] == None && a in s.files && b in s.files
    ensures Attach(s, p, i, a).files[b].refs - |Slots(Attach(s, p, i, a), b)| == s.files[b].refs - |Slots(s, b)|
  {
    SlotsAttach(s, p, i, a, b);
  }

  lemma AttachSlots(s: State, p: Pid, i: nat, a: Addr)
    requires Inv(s) && p in s.fds && i < |s.fds[p]| && s.fds[p][i] == None && a in s.files
    ensures var s' := Attach(s, p, i, a); Sized(s') && forall r: Pid, j: nat, b | Slot(s', r, j, b) :: b in s'.files
  {
    var s' := Attach(s, p, i, a);
    forall r: Pid, j: nat, b | Slot(s', r, j, b) ensures b in s'.files {
      assert Slot(s, r, j, b) || b == a;
    }
  }

  lemma AttachKeeps(s: State, p: Pid, i: nat, a: Addr)
    requires Inv(s) && p in s.fds && i < |s.fds[p]| && s.fds[p][i] == None && a in s.files
    ensures Inv(Attach(s, p, i, a)) && (Exact(s) ==> Exact(Attach(s, p, i, a)))
  {
    var s' := Attach(s, p, i, a);
    AttachSlots(s, p, i, a);
    forall b | b in s'.files
      ensures Counted(s', b) && PipeEnd(s', b) && (Exact(s) ==> s'.files[b].refs == |Slots(s', b)|)
    {
      assert Counted(s, b) && PipeEnd(s, b);
      AttachFiles(s, p, i, a, b);
    }
    forall q | q in s'.pipes ensures PipeOk(s', q) {
      assert PipeOk(s, q);
      EndsSame(s, s', q, PULL);
      EndsSame(s, s', q, PUSH);
    }
  }

  lemma PipeIncKeeps(s: State, a: Addr)
    requires Inv(s) && a in s.files
    ensures Inv(PipeInc(s, a)) && (Exact(s) ==> Exact(PipeInc(s, a))) && PipeInc(s, a).fds == s.fds
    ensures PipeInc(s, a).files == s.files
  {
    var s' := PipeInc(s, a);
    forall b: Addr ensures Slots(s', b) == Slots(s, b) {
      assert forall r: Pid, j: nat :: Slot(s', r, j, b) <==> Slot(s, r, j, b);
    }
    assert forall r: Pid, j: nat, b :: Slot(s', r, j, b) <==> Slot(s, r, j, b);
    forall b | b in s'.files ensures Counted(s', b) && PipeEnd(s', b) {
      assert Counted(s, b) && PipeEnd(s, b);
    }
    forall q | q in s'.pipes ensures PipeOk(s', q) {
      assert PipeOk(s, q);
      EndsSame(s, s', q, PULL);
      EndsSame(s, s', q, PUSH);
    }
  }

  /** The counts after a slot is emptied; a file that is freed had no other slot. */
  lemma DetachFiles(s: State, p: Pid, i: nat, b: Addr)
    requires Inv(s) && p in s.fds && i < |s.fds[p]| && s.fds[p][i].Some? && s.fds[p][i].value in s.files && b in s.files
    ensures var s' := Detach(s, p, i);
      if b in s'.files then s'.files[b].refs - |Slots(s', b)| == s.files[b].refs - |Slots(s, b)|
      else s.fds[p][i] == Some(b) && s.files[b].refs == 1 && Slots(s', b) == {}
  {
    assert Counted(s, b);
    SlotsDetach(s, p, i, b);
    if b !in Detach(s, p, i).files {
      assert |Slots(Detach(s, p, i), b)| == 0;
    }
  }

  lemma DetachSlots(s: State, p: Pid, i: nat)
    requires Inv(s) && p in s.fds && i < |s.fds[p]| && s.fds[p][i].Some? && s.fds[p][i].value in s.files
    ensures var s' := Detach(s, p, i); Sized(s') && forall r: Pid, j: nat, b | Slot(s', r, j, b) :: b in s'.files
  {
    var s' := Detach(s, p, i);
    forall r: Pid, j: nat, b | Slot(s', r, j, b) ensures b in s'.files {
      assert Slot(s, r, j, b);
      DetachFiles(s, p, i, b);
      assert (r, j) in Slots(s', b);
    }
  }

  /** A freed pipe end leaves its pipe's counts covering the other ends; a freed pipe had no end left. */
  lemma DetachPipe(s: State, p: Pid, i: nat, q: Addr)
    requires Inv(s) && p in s.fds && i < |s.fds[p]| && s.fds[p][i].Some? && s.fds[p][i].value in s.files && q in s.pipes
    ensures var s' := Detach(s, p, i);
      if q in s'.pipes then PipeOk(s', q) else Ends(s', q, PULL) == {} == Ends(s', q, PUSH)
  {
    var s', a := Detach(s, p, i), s.fds[p][i].value;
    assert PipeOk(s, q) && PipeEnd(s, a);
    if a in s'.files {
      EndsSame(s, s', q, PULL);
      EndsSame(s, s', q, PUSH);
    } else {
      EndsWithout(s, s', a, q, PULL);
      EndsWithout(s, s', a, q, PUSH);
    }
  }

  lemma EndsWithout(s: State, s': State, a: Addr, q: Addr, flags: nat)
    requires a in s.files && s'.files == s.files - {a}
    ensures Ends(s', q, flags) == Ends(s, q, flags) - {a}
    ensures var gone := if s.files[a].pipe == Some(q) && s.files[a].flags == flags then 1 else 0;
      |Ends(s', q, flags)| == |Ends(s, q, flags)| - gone
  {
    assert Ends(s', q, flags) == Ends(s, q, flags) - {a};
  }

  lemma DetachKeeps(s: State, p: Pid, i: nat)
    requires Inv(s) && p in s.fds && i < |s.fds[p]| && s.fds[p][i].Some?
    ensures s.fds[p][i].value in s.files && Inv(Detach(s, p, i)) && (Exact(s) ==> Exact(Detach(s, p, i)))
    ensures Exact(s) ==>
      (s.fds[p][i].value in Detach(s, p, i).files <==> Slots(Detach(s, p, i), s.fds[p][i].value) != {})
  {
    assert Slot(s, p, i, s.fds[p][i].value);
    var s' := Detach(s, p, i);
    DetachSlots(s, p, i);
    DetachFiles(s, p, i, s.fds[p][i].value);
    forall b | b in s'.files
      ensures Counted(s', b) && PipeEnd(s', b) && (Exact(s) ==> s'.files[b].refs == |Slots(s', b)|)
    {
      assert Counted(s, b) && PipeEnd(s, b);
      DetachFiles(s, p, i, b);
      if s.files[b].pipe.Some? {
        DetachPipe(s, p, i, s.files[b].pipe.value);
        assert b in Ends(s', s.files[b].pipe.value, s.files[b].flags);
      }
    }
    forall q | q in s'.pipes ensures PipeOk(s', q) {
      DetachPipe(s, p, i, q);
    }
  }

  /** Room in the pipe's counts for one more end. */
  ghost predicate Admits(s: State, f: File) {
    f.pipe.Some? ==>
      && f.pipe.value in s.pipes && (f.flags == PULL || f.flags == PUSH)
      && var q := s.pipes[f.pipe.value];
         |Ends(s, f.pipe.value, f.flags)| < if f.flags == PULL then q.readers else q.writers
  }

  lemma NewEnds(s: State, a: Addr, f: File, q: Addr, flags: nat)
    requires a !in s.files
    ensures Ends(NewFile(s, a, f), q, flags)
         == if f.pipe == Some(q) && f.flags == flags then Ends(s, q, flags) + {a} else Ends(s, q, flags)
    ensures a !in Ends(s, q, flags)
  {
  }

  lemma NewFilePipes(s: State, a: Addr, f: File, q: Addr)
    requires Inv(s) && a !in s.files && Admits(s, f) && q in s.pipes
    ensures PipeOk(NewFile(s, a, f), q)
  {
    assert PipeOk(s, q);
    NewEnds(s, a, f, q, PULL);
    NewEnds(s, a, f, q, PUSH);
  }

  lemma NewFileSlots(s: State, a: Addr, f: File)
    requires Inv(s) && a !in s.files
    ensures Slots(NewFile(s, a, f), a) == {} && forall r: Pid, j: nat, b: Addr | Slot(NewFile(s, a, f), r, j, b) ::
      b in s.files
  {
    var s' := NewFile(s, a, f);
    assert forall r: Pid, j: nat, b: Addr :: Slot(s', r, j, b) <==> Slot(s, r, j, b);
  }

  lemma NewFileKeeps(s: State, a: Addr, f: File)
    requires Inv(s) && a !in s.files && f.refs == 0 && Admits(s, f)
    ensures Inv(NewFile(s, a, f)) && (Exact(s) ==> Exact(NewFile(s, a, f)))
  {
    var s' := NewFile(s, a, f);
    NewFileSlots(s, a, f);
    forall b | b in s'.files
      ensures Counted(s', b) && PipeEnd(s', b) && (Exact(s) ==> s'.files[b].refs == |Slots(s', b)|)
    {
      SlotsSame(s, s', b);
      assert b != a ==> Counted(s, b) && PipeEnd(s, b);
    }
    forall q | q in s'.pipes ensures PipeOk(s', q) {
      NewFilePipes(s, a, f, q);
    }
  }

  /** A file nobody refers to, not a pipe end, is given back. */
  function Discard(s: State, a: Addr): State {
    s.(files := s.files - {a})
  }

  lemma DiscardKeeps(s: State, a: Addr)
    requires Inv(s) && a in s.files && s.files[a].pipe == None && Slots(s, a) == {}
    ensures Inv(Discard(s, a)) && (Exact(s) ==> Exact(Discard(s, a)))
  {
    var s' := Discard(s, a);
    forall r: Pid, j: nat, b: Addr | Slot(s', r, j, b) ensures b in s'.files {
      assert Slot(s, r, j, b) && (b == a ==> (r, j) in Slots(s, a));
    }
    assert forall r: Pid, j: nat, b: Addr :: Slot(s', r, j, b) <==> Slot(s, r, j, b);
    forall b | b in s'.files ensures Counted(s', b) && PipeEnd(s', b) && Slots(s', b) == Slots(s, b) {
      SlotsSame(s, s', b);
      assert Counted(s, b) && PipeEnd(s, b);
    }
    forall q | q in s'.pipes ensures PipeOk(s', q) {
      assert PipeOk(s, q);
      forall flags ensures Ends(s', q, flags) == Ends(s, q, flags) {
      }
    }
  }

  function NewPipe(s: State, q: Addr): State {
    s.(pipes := s.pipes[q := Pipe(1, 1)])
  }

  lemma NewPipeKeeps(s: State, q: Addr)
    requires Inv(s) && q !in s.pipes
    ensures Inv(NewPipe(s, q)) && (Exact(s) ==> Exact(NewPipe(s, q)))
    ensures Ends(NewPipe(s, q), q, PULL) == {} == Ends(NewPipe(s, q), q, PUSH)
  {
    var s' := NewPipe(s, q);
    assert forall r: Pid, j: nat, b: Addr :: Slot(s', r, j, b) <==> Slot(s, r, j, b);
    forall b | b in s'.files
      ensures Counted(s', b) && PipeEnd(s', b) && Slots(s', b) == Slots(s, b) && s.files[b].pipe != Some(q)
    {
      SlotsSame(s, s', b);
      assert Counted(s, b) && PipeEnd(s, b);
    }
    forall p | p in s'.pipes ensures PipeOk(s', p) {
      EndsSame(s, s', p, PULL);
      EndsSame(s, s', p, PUSH);
      assert p != q ==> PipeOk(s, p);
    }
  }

  /** A table without descriptors. */
  function EmptyTable(): (t: Table)
    ensures |t| == MAX_FDS && forall i | 0 <= i < MAX_FDS :: t[i] == None
  {
    seq(MAX_FDS, i => None)
  }

  function NewProcess(s: State, p: Pid): State {
    s.(fds := s.fds[p := EmptyTable()])
  }

  lemma NewProcessKeeps(s: State, p: Pid)
    requires Inv(s) && p !in s.fds
    ensures Inv(NewProcess(s, p)) && (Exact(s) ==> Exact(NewProcess(s, p)))
  {
    var s' := NewProcess(s, p);
    assert forall r: Pid, j: nat, b: Addr :: Slot(s', r, j, b) <==> Slot(s, r, j, b);
    forall b | b in s'.files ensures Counted(s', b) && PipeEnd(s', b) && Slots(s', b) == Slots(s, b) {
      assert Counted(s, b) && PipeEnd(s, b);
      assert Slots(s', b) == Slots(s, b);
    }
    forall q | q in s'.pipes ensures PipeOk(s', q) {
      EndsSame(s, s', q, PULL);
      EndsSame(s, s', q, PUSH);
      assert PipeOk(s, q);
    }
  }

  /** A reaped process's table is gone, closed or not. */
  function Reap(s: State, p: Pid): State {
    s.(fds := s.fds - {p})
  }

  /** Reaping never leaves a dangling slot, and keeps the counts exact exactly when the table was closed. */
  lemma ReapKeeps(s: State, p: Pid)
    requires Inv(s) && p in s.fds
    ensures Inv(Reap(s, p))
    ensures Exact(s) ==> (Exact(Reap(s, p)) <==> forall i: nat | i < MAX_FDS :: s.fds[p][i] == None)
  {
    var s' := Reap(s, p);
    assert forall r: Pid, j: nat, b: Addr :: Slot(s', r, j, b) <==> Slot(s, r, j, b) && r != p;
    forall b | b in s'.files ensures Counted(s', b) && PipeEnd(s', b) {
      assert Counted(s, b) && PipeEnd(s, b) && Slots(s', b) <= Slots(s, b);
      Smaller(Slots(s', b), Slots(s, b));
    }
    forall q | q in s'.pipes ensures PipeOk(s', q) {
      EndsSame(s, s', q, PULL);
      EndsSame(s, s', q, PUSH);
      assert PipeOk(s, q);
    }
    if Exact(s) {
      ReapExact(s, p);
    }
  }

  lemma Smaller<T>(a: set<T>, b: set<T>)
    requires a <= b
    ensures |a| <= |b| && (|a| == |b| ==> a == b)
  {
    assert |b - a| == |b| - |a|;
    if |a| == |b| {
      assert b - a == {};
    }
  }

  lemma ReapExact(s: State, p: Pid)
    requires Inv(s) && Exact(s) && p in s.fds
    ensures Exact(Reap(s, p)) <==> forall i: nat | i < MAX_FDS :: s.fds[p][i] == None
  {
    var s' := Reap(s, p);
    if i: nat :| i < MAX_FDS && s.fds[p][i].Some? {
      var a := s.fds[p][i].value;
      assert Slot(s, p, i, a) && !Slot(s', p, i, a);
      assert (p, i) in Slots(s, a) && (p, i) !in Slots(s', a) && Slots(s', a) <= Slots(s, a);
      Smaller(Slots(s', a), Slots(s, a));
    } else {
      forall b | b in s'.files ensures Slots(s', b) == Slots(s, b) {
        assert forall r: Pid, j: nat :: Slot(s', r, j, b) <==> Slot(s, r, j, b);
      }
    }
  }

  /** One more descriptor of an open file, as dup2 and fork make it. */
  function Share(s: State, p: Pid, i: nat, a: Addr): State
    requires p in s.fds && i < |s.fds[p]| && a in s.files
  {
    PipeInc(Attach(s, p, i, a), a)
  }

  lemma ShareKeeps(s: State, p: Pid, i: nat, a: Addr)
    requires Inv(s) && p in s.fds && i < |s.fds[p]| && s.fds[p][i] == None && a in s.files
    ensures Inv(Share(s, p, i, a)) && (Exact(s) ==> Exact(Share(s, p, i, a)))
    ensures Share(s, p, i, a).fds == s.fds[p := s.fds[p][i := Some(a)]]
  {
    AttachKeeps(s, p, i, a);
    PipeIncKeeps(Attach(s, p, i, a), a);
  }

  // ---- whole runs from the empty system ----

  /** What the system calls do, one update of the shared records at a time. */
  datatype Step =
    | Start(p: Pid)                       // a process begins with an empty table
    | Open(a: Addr, flags: nat)           // a file is allocated
    | MakePipe(q: Addr, r: Addr, w: Addr) // a pipe and its two ends are allocated
    | Install(p: Pid, i: nat, a: Addr)    // a free slot refers to a file
    | Count(a: Addr)                      // one more end of the file's pipe is counted
    | Close(p: Pid, i: nat)               // a slot is closed
    | GiveBack(a: Addr)                   // a file that never got a slot is freed
    | Forget(p: Pid)                      // a process is reaped

  ghost predicate Enabled(s: State, step: Step) {
    match step
    case Start(p) => p !in s.fds
    case Open(a, _) => a !in s.files
    case MakePipe(q, r, w) => q !in s.pipes && r !in s.files && w !in s.files && r != w
    case Install(p, i, a) => p in s.fds && i < |s.fds[p]| && s.fds[p][i] == None && a in s.files
    case Count(a) => a in s.files
    case Close(p, i) => p in s.fds && i < |s.fds[p]| && s.fds[p][i].Some? && s.fds[p][i].value in s.files
    case GiveBack(a) => a in s.files && s.files[a].pipe == None && Slots(s, a) == {}
    case Forget(p) => p in s.fds
  }

  ghost function After(s: State, step: Step): State
    requires Enabled(s, step)
  {
    match step
    case Start(p) => NewProcess(s, p)
    case Open(a, flags) => NewFile(s, a, File(0, None, flags))
    case MakePipe(q, r, w) => NewFile(NewFile(NewPipe(s, q), r, File(0, Some(q), PULL)), w, File(0, Some(q), PUSH))
    case Install(p, i, a) => Attach(s, p, i, a)
    case Count(a) => PipeInc(s, a)
    case Close(p, i) => Detach(s, p, i)
    case GiveBack(a) => Discard(s, a)
    case Forget(p) => Reap(s, p)
  }

  /** The steps taken in order; one that is not possible is skipped. */
  ghost function Applied(s: State, steps: seq<Step>): State {
    if steps == [] then s
    else
      var s1, step := Applied(s, steps[..|steps| - 1]), steps[|steps| - 1];
      if Enabled(s1, step) then After(s1, step) else s1
  }

  lemma AppliedOne(s: State, steps: seq<Step>, step: Step)
    ensures var s1 := Applied(s, steps);
      Applied(s, steps + [step]) == if Enabled(s1, step) then After(s1, step) else s1
  {
    assert (steps + [step])[..|steps|] == steps;
  }

  lemma AppliedTwo(s: State, x: Step, y: Step)
    ensures var s1 := if Enabled(s, x) then After(s, x) else s;
      Applied(s, [x, y]) == if Enabled(s1, y) then After(s1, y) else s1
  {
    AppliedOne(s, [], x);
    AppliedOne(s, [x], y);
    assert [] + [x] == [x] && [x] + [y] == [x, y];
  }

  lemma {:induction false} AppliedJoin(s: State, a: seq<Step>, b: seq<Step>)
    ensures Applied(s, a + b) == Applied(Applied(s, a), b)
  {
    if b == [] {
      assert a + b == a;
    } else {
      var n := |b| - 1;
      assert a + b == (a + b[..n]) + [b[n]] && b == b[..n] + [b[n]];
      AppliedJoin(s, a, b[..n]);
      AppliedOne(s, a + b[..n], b[n]);
      AppliedOne(Applied(s, a), b[..n], b[n]);
    }
  }

  lemma MakePipeKeeps(s: State, q: Addr, r: Addr, w: Addr)
    requires Inv(s) && Enabled(s, MakePipe(q, r, w))
    ensures Inv(After(s, MakePipe(q, r, w))) && (Exact(s) ==> Exact(After(s, MakePipe(q, r, w))))
  {
    NewPipeKeeps(s, q);
    var s1 := NewPipe(s, q);
    NewFileKeeps(s1, r, File(0, Some(q), PULL));
    NewEnds(s1, r, File(0, Some(q), PULL), q, PUSH);
    NewFileKeeps(NewFile(s1, r, File(0, Some(q), PULL)), w, File(0, Some(q), PUSH));
  }

  /** The process is not reaped with an open descriptor. */
  ghost predicate Tidy(s: State, step: Step) {
    step.Forget? && step.p in s.fds ==> s.fds[step.p] == EmptyTable()
  }

  lemma StepKeeps(s: State, step: Step)
    requires Inv(s) && Enabled(s, step)
    ensures Inv(After(s, step)) && (Exact(s) && Tidy(s, step) ==> Exact(After(s, step)))
  {
    match step
    case Start(p) => NewProcessKeeps(s, p);
    case Open(a, flags) => NewFileKeeps(s, a, File(0, None, flags));
    case MakePipe(q, r, w) => MakePipeKeeps(s, q, r, w);
    case Install(p, i, a) => AttachKeeps(s, p, i, a);
    case Count(a) => PipeIncKeeps(s, a);
    case Close(p, i) => DetachKeeps(s, p, i);
    case GiveBack(a) => DiscardKeeps(s, a);
    case Forget(p) => ReapKeeps(s, p);
  }

  ghost predicate IsRun(ss: seq<State>, steps: seq<Step>) {
    && |ss| == |steps| + 1 && ss[0] == State(map[], map[], map[])
    && forall i | 0 <= i < |steps| :: Enabled(ss[i], steps[i]) && ss[i + 1] == After(ss[i], steps[i])
  }

  /**
   * At every point of every run no descriptor refers to a freed file and no open end to a freed pipe; and as long as
   * only processes with closed tables were reaped, every count is exactly the number of descriptors.
   */
  lemma {:induction false} RunKeeps(ss: seq<State>, steps: seq<Step>, k: nat)
    requires IsRun(ss, steps) && k <= |steps|
    ensures Inv(ss[k])
    ensures (forall i | 0 <= i < k :: Tidy(ss[i], steps[i])) ==> Exact(ss[k])
  {
    if k > 0 {
      RunKeeps(ss, steps, k - 1);
      StepKeeps(ss[k - 1], steps[k - 1]);
    }
  }

  /**
   * So with exact counts a file with a descriptor is never the one that a close frees, and one without is never kept.
   */
  lemma FreedExactly(ss: seq<State>, steps: seq<Step>, k: nat, p: Pid, i: nat, a: Addr)
    requires IsRun(ss, steps) && k < |steps| && steps[k] == Close(p, i) && Slot(ss[k], p, i, a)
    requires forall j | 0 <= j < k :: Tidy(ss[j], steps[j])
    ensures a in ss[k + 1].files <==> Slots(ss[k + 1], a) != {}
  {
    RunKeeps(ss, steps, k);
    DetachKeeps(ss[k], p, i);
  }
}
