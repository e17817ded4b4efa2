/** The descriptor system calls, updating the tables, files and pipes in place. */
module FdKernel {
  import opened Common
  import opened FdTable

  const EBADF := -9
  const EMFILE := -24

  /** The first free slot of a table; its length if none is free. */
  method FirstFree(t: Table) returns (i: nat)
    ensures i <= |t| && (forall j | 0 <= j < i :: t[j].Some?) && (i < |t| ==> t[i] == None)
  {
    i := 0;
    while i < |t| && t[i].Some?
      invariant i <= |t| && forall j | 0 <= j < i :: t[j].Some?
    {
      i := i + 1;
    }
  }

  ghost predicate FirstFreeAt(t: Table, i: nat) {
    i < |t| && t[i] == None && forall j | 0 <= j < i :: t[j].Some?
  }

  /** The first free slot, or the error if there is none. */
  ghost predicate NextSlot(t: Table, fd: int) {
    if fd >= 0 then FirstFreeAt(t, fd) else fd == -24 && Full(t)
  }

  /** The table with a file in the slot it was given, if it was given one. */
  function With(t: Table, fd: int, a: Addr): Table {
    if 0 <= fd < |t| then t[fd := Some(a)] else t
  }

  /** The references of a file that was put in a slot, or not. */
  function Placed(fd: int): int {
    if fd >= 0 then 1 else 0
  }

  ghost predicate Full(t: Table) {
    forall j | 0 <= j < |t| :: t[j].Some?
  }

  /** dup2 onto the same descriptor: the file is closed, then the slot is pointed at it again. */
  function Dup2Self(s: State, p: Pid, fd: nat): State
    requires Inv(s) && p in s.fds && fd < MAX_FDS && s.fds[p][fd].Some?
  {
    var a := s.fds[p][fd].value;
    assert Slot(s, p, fd, a);
    var s1 := Detach(s, p, fd);
    if a in s1.files then Share(s1, p, fd, a) else s1.(fds := s1.fds[p := s1.fds[p][fd := Some(a)]])
  }

  lemma Dup2SelfFds(s: State, p: Pid, fd: nat)
    requires Inv(s) && p in s.fds && fd < MAX_FDS && s.fds[p][fd].Some?
    ensures Dup2Self(s, p, fd).fds == s.fds
  {
    var a := s.fds[p][fd].value;
    assert Slot(s, p, fd, a);
    SetTwice(s.fds[p], fd, None, Some(a));
    assert s.fds[p][fd := Some(a)] == s.fds[p];
  }

  /** It leaves a sound table exactly when the file has another reference; otherwise the slot refers to a freed file. */
  lemma Dup2SelfExact(s: State, p: Pid, fd: nat)
    requires Inv(s) && p in s.fds && fd < MAX_FDS && s.fds[p][fd].Some?
    ensures s.fds[p][fd].value in s.files && (Inv(Dup2Self(s, p, fd)) <==> s.files[s.fds[p][fd].value].refs > 1)
    ensures Dup2Self(s, p, fd).fds == s.fds
    ensures Inv(Dup2Self(s, p, fd)) && Exact(s) ==> Exact(Dup2Self(s, p, fd))
  {
    var a := s.fds[p][fd].value;
    assert Slot(s, p, fd, a) && Counted(s, a);
    DetachKeeps(s, p, fd);
    SlotsDetach(s, p, fd, a);
    var s1, s2 := Detach(s, p, fd), Dup2Self(s, p, fd);
    Dup2SelfFds(s, p, fd);
    if a in s1.files {
      ShareKeeps(s1, p, fd, a);
    } else {
      assert Slot(s2, p, fd, a) && a !in s2.files;
    }
  }

  /** The file in the slot it was given and counted, or nothing changed. */
  function Installed(s: State, p: Pid, fd: int, a: Addr): State
    requires p in s.fds && a in s.files
  {
    if 0 <= fd < |s.fds[p]| then Attach(s, p, fd, a) else s
  }

  /** The step that puts a file in the slot it was given, if it was given one. */
  function Put(p: Pid, fd: int, a: Addr): seq<Step> {
    if fd >= 0 then [Step.Install(p, fd, a)] else []
  }

  lemma PutIs(s: State, p: Pid, fd: int, a: Addr)
    requires p in s.fds && a in s.files && NextSlot(s.fds[p], fd)
    ensures Applied(s, Put(p, fd, a)) == Installed(s, p, fd, a)
  {
    if fd >= 0 {
      AppliedOne(s, [], Step.Install(p, fd, a));
    }
  }

  method InstallFile(s: State, p: Pid, a: Addr) returns (fd: int, s': State)
    requires Inv(s) && p in s.fds && a in s.files
    ensures Inv(s') && (Exact(s) ==> Exact(s'))
    ensures NextSlot(s.fds[p], fd) && s' == Installed(s, p, fd, a) == Applied(s, Put(p, fd, a))
  {
    var i := FirstFree(s.fds[p]);
    if i == MAX_FDS {
      PutIs(s, p, EMFILE, a);
      return EMFILE, s;
    }
    AttachKeeps(s, p, i, a);
    PutIs(s, p, i, a);
    fd, s' := i, Attach(s, p, i, a);
  }

  /** One more descriptor of an open file; its pipe is counted up even if the table is full. */
  method DupFile(s: State, p: Pid, a: Addr) returns (fd: int, s': State)
    requires Inv(s) && p in s.fds && a in s.files
    ensures Inv(s') && (Exact(s) ==> Exact(s')) && NextSlot(s.fds[p], fd)
    ensures s'.fds == s.fds[p := With(s.fds[p], fd, a)] && s' == Applied(s, [Step.Count(a)] + Put(p, fd, a))
    ensures s'.pipes == PipeInc(s, a).pipes
    ensures s'.files == s.files[a := s.files[a].(refs := s.files[a].refs + Placed(fd))]
  {
    PipeIncKeeps(s, a);
    AppliedOne(s, [], Step.Count(a));
    fd, s' := InstallFile(PipeInc(s, a), p, a);
    AppliedJoin(s, [Step.Count(a)], Put(p, fd, a));
  }

  /** A new file with one reference in the slot it was given, or nothing changed. */
  function Opened(s: State, p: Pid, fd: int, a: Addr, flags: nat): State
    requires p in s.fds
  {
    if 0 <= fd < |s.fds[p]| then
      s.(fds := s.fds[p := s.fds[p][fd := Some(a)]], files := s.files[a := File(1, None, flags)])
    else s
  }

  method OpenFile(s: State, p: Pid, a: Addr, flags: nat) returns (fd: int, s': State)
    requires Inv(s) && p in s.fds && a !in s.files
    ensures Inv(s') && (Exact(s) ==> Exact(s'))
    ensures NextSlot(s.fds[p], fd) && s' == Opened(s, p, fd, a, flags) == Applied(s, OpenSteps(p, fd, a, flags))
  {
    var f := File(0, None, flags);
    NewFileKeeps(s, a, f);
    fd, s' := InstallFile(NewFile(s, a, f), p, a);
    OpenedIs(s, p, fd, a, flags);
    OpenIsSteps(s, p, fd, a, flags);
    if fd < 0 {
      s' := Discard(s', a);
    }
  }

  /** The steps of an open: the file, then its slot; without a slot it is given back. */
  function OpenSteps(p: Pid, fd: int, a: Addr, flags: nat): seq<Step> {
    [Step.Open(a, flags)] + if fd >= 0 then Put(p, fd, a) else [Step.GiveBack(a)]
  }

  lemma OpenIsSteps(s: State, p: Pid, fd: int, a: Addr, flags: nat)
    requires Inv(s) && p in s.fds && a !in s.files && NextSlot(s.fds[p], fd)
    ensures Applied(s, OpenSteps(p, fd, a, flags)) == Opened(s, p, fd, a, flags)
  {
    var s1 := NewFile(s, a, File(0, None, flags));
    AppliedOne(s, [], Step.Open(a, flags));
    OpenedIs(s, p, fd, a, flags);
    if fd >= 0 {
      AppliedJoin(s, [Step.Open(a, flags)], Put(p, fd, a));
      PutIs(s1, p, fd, a);
    } else {
      AppliedJoin(s, [Step.Open(a, flags)], [Step.GiveBack(a)]);
      AppliedOne(s1, [], Step.GiveBack(a));
      NewFileSlots(s, a, File(0, None, flags));
    }
  }

  lemma OpenedIs(s: State, p: Pid, fd: int, a: Addr, flags: nat)
    requires p in s.fds && a !in s.files && NextSlot(s.fds[p], fd)
    ensures var s1 := Installed(NewFile(s, a, File(0, None, flags)), p, fd, a);
      Opened(s, p, fd, a, flags) == if fd < 0 then Discard(s1, a) else s1
  {
    if fd < 0 {
      assert s.files[a := File(0, None, flags)] - {a} == s.files;
    }
  }

  class Descriptors {
    var s: State

    /** No dangling slot, no freed pipe with an open end. */
    ghost predicate Valid()
      reads this
    {
      Inv(s)
    }

    constructor ()
      ensures Valid() && Exact(s) && s == State(map[], map[], map[])
    {
      s := State(map[], map[], map[]);
    }

    /** A process begins with no descriptors, in task_init and task_create_proc. */
    method Start(p: Pid)
      requires Valid() && p !in s.fds
      modifies this
      ensures Valid() && (old(Exact(s)) ==> Exact(s)) && s == Applied(old(s), [Step.Start(p)])
      ensures s.fds == old(s.fds)[p := EmptyTable()] && |s.fds[p]| == 256
      ensures s.files == old(s.files) && s.pipes == old(s.pipes)
    {
      NewProcessKeeps(s, p);
      AppliedOne(s, [], Step.Start(p));
      s := NewProcess(s, p);
    }

    /** process_fd_install */
    method Install(p: Pid, a: Addr) returns (fd: int)
      requires Valid() && p in s.fds && a in s.files
      modifies this
      ensures Valid() && (old(Exact(s)) ==> Exact(s))
      ensures NextSlot(old(s.fds[p]), fd) && s == Installed(old(s), p, fd, a)
      ensures s == Applied(old(s), Put(p, fd, a))
    {
      fd, s := InstallFile(s, p, a);
    }

    /** process_fd_close */
    method Close(p: Pid, fd: int)
      requires Valid() && p in s.fds
      modifies this
      ensures Valid() && (old(Exact(s)) ==> Exact(s)) && p in s.fds && s.fds.Keys == old(s.fds.Keys)
      ensures !(0 <= fd < MAX_FDS) || old(s.fds[p])[fd] == None ==> s == old(s)
      ensures 0 <= fd < MAX_FDS ==> s.fds == old(s.fds)[p := old(s.fds[p])[fd := None]]
      ensures 0 <= fd < MAX_FDS && old(s.fds[p])[fd].Some? ==>
        old(s.fds[p])[fd].value in old(s.files) && s == Detach(old(s), p, fd)
      ensures 0 <= fd ==> s == Applied(old(s), [Step.Close(p, fd)])
    {
      if 0 <= fd {
        AppliedOne(s, [], Step.Close(p, fd));
      }
      if 0 <= fd < MAX_FDS && s.fds[p][fd].Some? {
        DetachKeeps(s, p, fd);
        s := Detach(s, p, fd);
      } else if 0 <= fd < MAX_FDS {
        assert s.fds[p][fd := None] == s.fds[p];
      }
    }

    /** The file part of sb_acquire: a new file gets a descriptor, or is given back. */
    method Open(p: Pid, a: Addr, flags: nat) returns (fd: int)
      requires Valid() && p in s.fds && a !in s.files
      modifies this
      ensures Valid() && (old(Exact(s)) ==> Exact(s))
      ensures NextSlot(old(s.fds[p]), fd) && s == Opened(old(s), p, fd, a, flags)
      ensures s == Applied(old(s), OpenSteps(p, fd, a, flags))
    {
      fd, s := OpenFile(s, p, a, flags);
    }

    /** sys_dup */
    method Dup(p: Pid, oldfd: int) returns (fd: int)
      requires Valid() && p in s.fds
      modifies this
      ensures Valid() && (old(Exact(s)) ==> Exact(s))
      ensures fd == -9 <==> !(0 <= oldfd < 256) || old(s.fds[p])[oldfd] == None
      ensures fd < 0 ==> s.fds == old(s.fds)
      ensures fd == -24 ==> Full(s.fds[p])
      ensures fd == -9 || fd == -24 || 0 <= fd < 256
      ensures fd >= 0 ==>
        FirstFreeAt(old(s.fds[p]), fd) && s.fds == old(s.fds)[p := old(s.fds[p])[fd := old(s.fds[p])[oldfd]]]
      ensures if fd == -9 then s == old(s)
              else
                var a := old(s.fds[p])[oldfd].value;
                && s == Applied(old(s), [Step.Count(a)] + Put(p, fd, a))
                && a in old(s.files) && s.pipes == PipeInc(old(s), a).pipes
                && s.files == old(s.files)[a := old(s.files)[a].(refs := old(s.files)[a].refs + Placed(fd))]
    {
      if !(0 <= oldfd < MAX_FDS) || s.fds[p][oldfd] == None {
        return EBADF;
      }
      var a := s.fds[p][oldfd].value;
      assert Slot(s, p, oldfd, a);
      fd, s := DupFile(s, p, a);
    }

    /** sys_dup2; onto the same descriptor of a file without another reference the table is no longer sound. */
    method Dup2(p: Pid, oldfd: int, newfd: int) returns (fd: int)
      requires Valid() && p in s.fds
      modifies this
      ensures fd == -9 <==> !(0 <= oldfd < 256) || !(0 <= newfd < 256) || old(s.fds[p])[oldfd] == None
      ensures fd == -9 ==> s == old(s)
      ensures fd != -9 ==> fd == newfd && s.fds == old(s.fds)[p := old(s.fds[p])[newfd := old(s.fds[p])[oldfd]]]
      ensures Valid() <==> oldfd != newfd || Shared(old(s), p, oldfd)
      ensures Valid() && old(Exact(s)) ==> Exact(s)
      ensures fd != -9 && oldfd == newfd ==> s == Dup2Self(old(s), p, oldfd)
      ensures fd != -9 && oldfd != newfd ==>
        s == Applied(old(s), RedirectSteps(p, newfd, old(s.fds[p])[oldfd].value))
    {
      if !(0 <= oldfd < MAX_FDS) || s.fds[p][oldfd] == None || !(0 <= newfd < MAX_FDS) {
        return EBADF;
      }
      var a := s.fds[p][oldfd].value;
      assert Slot(s, p, oldfd, a);
      if oldfd == newfd {
        assert s.fds[p][oldfd := s.fds[p][oldfd]] == s.fds[p];
        Dup2SelfExact(s, p, oldfd);
        s := Dup2Self(s, p, oldfd);
      } else {
        s := Redirected(s, p, oldfd, newfd, a);
      }
      fd := newfd;
    }

    /** sys_pipe: both ends, each in the next free slot if there is one. */
    method PipeOpen(p: Pid, q: Addr, r: Addr, w: Addr) returns (rfd: int, wfd: int)
      requires Valid() && p in s.fds && q !in s.pipes && r !in s.files && w !in s.files && r != w
      modifies this
      ensures Valid() && (old(Exact(s)) ==> Exact(s)) && s.pipes == old(s.pipes)[q := Pipe(1, 1)]
      ensures s.fds == old(s.fds)[p := With(With(old(s.fds[p]), rfd, r), wfd, w)]
      ensures s.files == old(s.files)[r := File(Placed(rfd), Some(q), PULL)][w := File(Placed(wfd), Some(q), PUSH)]
      ensures NextSlot(old(s.fds[p]), rfd) && NextSlot(With(old(s.fds[p]), rfd, r), wfd)
      ensures s == Applied(old(s), [Step.MakePipe(q, r, w)] + Put(p, rfd, r) + Put(p, wfd, w))
    {
      rfd, wfd, s := PipeEnds(s, p, q, r, w);
    }

    /** The descriptor loop of task_fork: the child's table becomes the parent's. */
    method Fork(parent: Pid, child: Pid)
      requires Valid() && parent in s.fds && child !in s.fds
      modifies this
      ensures Valid() && (old(Exact(s)) ==> Exact(s)) && s.fds == old(s.fds)[child := old(s.fds[parent])]
      ensures s == Applied(old(s), [Step.Start(child)] + ForkSteps(old(s.fds[parent]), child))
    {
      s := ForkTable(s, parent, child);
    }

    /** The descriptor loop of do_exit: every slot is closed. */
    method CloseAll(p: Pid)
      requires Valid() && p in s.fds
      modifies this
      ensures Valid() && (old(Exact(s)) ==> Exact(s)) && s.fds == old(s.fds)[p := EmptyTable()]
      ensures s == Applied(old(s), CloseSteps(p, MAX_FDS))
    {
      s := CloseTable(s, p);
    }

    /** The descriptor loop of exec: the slots of close-on-exec files are closed, the others stay. */
    method CloseOnExec(p: Pid)
      requires Valid() && p in s.fds
      modifies this
      ensures Valid() && (old(Exact(s)) ==> Exact(s)) && p in s.fds && |s.fds[p]| == MAX_FDS
      ensures s.fds == old(s.fds)[p := s.fds[p]]
      ensures forall j | 0 <= j < MAX_FDS :: s.fds[p][j] == if Closes(old(s), p, j) then None else old(s.fds[p])[j]
      ensures s == Applied(old(s), ExecSteps(old(s), p, MAX_FDS))
    {
      s := ExecTable(s, p);
    }

    /** A reaped process's table disappears with it. */
    method Remove(p: Pid)
      requires Valid() && p in s.fds
      modifies this
      ensures Valid() && s == Applied(old(s), [Step.Forget(p)])
      ensures s.fds == old(s.fds) - {p} && s.files == old(s.files) && s.pipes == old(s.pipes)
    {
      AppliedOne(s, [], Step.Forget(p));
      ReapKeeps(s, p);
      s := Reap(s, p);
    }
  }

  /** A process opens one file and duplicates its descriptor onto itself: the slot then refers to a freed file. */
  method Dup2Dangling() returns (d: Descriptors)
    ensures !d.Valid() && 1 in d.s.fds && |d.s.fds[1]| == MAX_FDS && d.s.fds[1][0] == Some(100) && 100 !in d.s.files
  {
    d := new Descriptors();
    d.Start(1);
    assert d.s.fds[1][0] == None;
    var fd := d.Open(1, 100, 0);
    assert fd == 0 && d.s.files[100].refs == 1;
    ghost var s := d.s;
    var r := d.Dup2(1, 0, 0);
    Dup2SelfExact(s, 1, 0);
  }

  /** A process makes a pipe and gets its first two descriptors. */
  method OnePipe() returns (d: Descriptors)
    ensures fresh(d) && d.Valid() && d.s.pipes == map[200 := Pipe(1, 1)]
    ensures d.s.fds == map[1 := EmptyTable()[0 := Some(10)][1 := Some(11)]]
    ensures d.s.files == map[10 := File(1, Some(200), PULL), 11 := File(1, Some(200), PUSH)]
  {
    d := new Descriptors();
    d.Start(1);
    assert d.s.fds[1][0] == None;
    var rfd, wfd := d.PipeOpen(1, 200, 10, 11);
    assert rfd == 0 && EmptyTable()[0 := Some(10)][1] == None;
    assert wfd == 1;
  }

  /** It duplicates the pulling end. */
  method PipeDup() returns (d: Descriptors)
    ensures fresh(d) && d.Valid() && d.s.pipes == map[200 := Pipe(2, 1)]
    ensures d.s.fds == map[1 := EmptyTable()[0 := Some(10)][1 := Some(11)][2 := Some(10)]]
    ensures d.s.files == map[10 := File(2, Some(200), PULL), 11 := File(1, Some(200), PUSH)]
  {
    d := OnePipe();
    assert EmptyTable()[0 := Some(10)][1 := Some(11)][2] == None;
    var fd := d.Dup(1, 0);
    assert fd == 2;
  }

  /** Then it closes all three: no file is left, but the pipe is. */
  method PipeLeft() returns (d: Descriptors)
    ensures d.Valid() && d.s.files == map[] && 200 in d.s.pipes
  {
    d := PipeDup();
    d.Close(1, 0);
    assert d.s.files[10].refs == 1 && d.s.pipes[200] == Pipe(2, 1);
    d.Close(1, 1);
    assert d.s.files == map[10 := File(1, Some(200), PULL)] && d.s.pipes[200] == Pipe(2, 0);
    d.Close(1, 2);
  }

  /** The steps that close the first `n` slots, those that are open. */
  function CloseSteps(p: Pid, n: nat): seq<Step> {
    if n == 0 then [] else CloseSteps(p, n - 1) + [Step.Close(p, n - 1)]
  }

  /** The same for the slots whose files ask to be closed. */
  ghost function ExecSteps(s: State, p: Pid, n: nat): seq<Step> {
    if n == 0 then [] else ExecSteps(s, p, n - 1) + if Closes(s, p, n - 1) then [Step.Close(p, n - 1)] else []
  }

  /** flags & O_CLOEXEC */
  predicate CloExec(flags: nat) {
    flags / 0x10000 % 2 == 1
  }

  /** Close-on-exec is bit 16 of the flags, whatever the others are. */
  lemma CloExecBit(high: nat, low: nat)
    requires low < 0x1_0000
    ensures CloExec(0x2_0000 * high + 0x1_0000 + low) && !CloExec(0x2_0000 * high + low)
  {
    assert (0x2_0000 * high + 0x1_0000 + low) / 0x1_0000 == 2 * high + 1;
    assert (0x2_0000 * high + low) / 0x1_0000 == 2 * high;
  }

  ghost predicate Closes(s: State, p: Pid, j: nat) {
    p in s.fds && j < |s.fds[p]| && s.fds[p][j].Some? && s.fds[p][j].value in s.files
      && CloExec(s.files[s.fds[p][j].value].flags)
  }

  /** A descriptor whose file has another reference, if it is open. */
  ghost predicate Shared(s: State, p: Pid, fd: int) {
    p in s.fds && 0 <= fd < |s.fds[p]| && s.fds[p][fd].Some? && s.fds[p][fd].value in s.files ==>
      s.files[s.fds[p][fd].value].refs > 1
  }

  /** The steps of dup2 onto another descriptor: that one is closed, then shares the file. */
  function RedirectSteps(p: Pid, newfd: nat, a: Addr): seq<Step> {
    [Step.Close(p, newfd), Step.Install(p, newfd, a), Step.Count(a)]
  }

  /** The new descriptor closed, if it is open. */
  method Emptied(s: State, p: Pid, oldfd: nat, newfd: nat, ghost a: Addr) returns (s': State)
    requires Inv(s) && Slot(s, p, oldfd, a) && newfd < MAX_FDS && oldfd != newfd
    ensures Inv(s') && (Exact(s) ==> Exact(s')) && s'.fds == s.fds[p := s.fds[p][newfd := None]] && a in s'.files
    ensures s' == Applied(s, [Step.Close(p, newfd)])
  {
    s' := CloseSlot(s, p, newfd);
    assert Slot(s', p, oldfd, a);
  }

  lemma SetTwice(t: Table, i: nat, x: Option<Addr>, y: Option<Addr>)
    requires i < |t|
    ensures t[i := x][i := y] == t[i := y]
  {
  }

  lemma ShareIsSteps(s: State, p: Pid, i: nat, a: Addr)
    requires p in s.fds && i < |s.fds[p]| && s.fds[p][i] == None && a in s.files
    ensures Applied(s, [Step.Install(p, i, a), Step.Count(a)]) == Share(s, p, i, a)
  {
    AppliedTwo(s, Step.Install(p, i, a), Step.Count(a));
  }

  /** A free slot made to refer to an open file. */
  method ShareSlot(s: State, p: Pid, i: nat, a: Addr) returns (s': State)
    requires Inv(s) && p in s.fds && i < |s.fds[p]| && s.fds[p][i] == None && a in s.files
    ensures Inv(s') && (Exact(s) ==> Exact(s')) && s'.fds == s.fds[p := s.fds[p][i := Some(a)]]
    ensures s' == Applied(s, [Step.Install(p, i, a), Step.Count(a)])
  {
    ShareIsSteps(s, p, i, a);
    ShareKeeps(s, p, i, a);
    s' := Share(s, p, i, a);
  }

  /** The new descriptor emptied, then made to share the old one's file. */
  method Redirected(s: State, p: Pid, oldfd: nat, newfd: nat, a: Addr) returns (s': State)
    requires Inv(s) && Slot(s, p, oldfd, a) && newfd < MAX_FDS && oldfd != newfd
    ensures Inv(s') && (Exact(s) ==> Exact(s')) && s'.fds == s.fds[p := s.fds[p][newfd := Some(a)]]
    ensures s' == Applied(s, RedirectSteps(p, newfd, a))
  {
    var s1 := Emptied(s, p, oldfd, newfd, a);
    SetTwice(s.fds[p], newfd, None, Some(a));
    s' := ShareSlot(s1, p, newfd, a);
    AppliedJoin(s, [Step.Close(p, newfd)], [Step.Install(p, newfd, a), Step.Count(a)]);
    assert [Step.Close(p, newfd)] + [Step.Install(p, newfd, a), Step.Count(a)] == RedirectSteps(p, newfd, a);
  }

  /** A new pipe with its two ends, not yet in any table. */
  method PipeFiles(s: State, q: Addr, r: Addr, w: Addr) returns (s': State)
    requires Inv(s) && q !in s.pipes && r !in s.files && w !in s.files && r != w
    ensures Inv(s') && (Exact(s) ==> Exact(s')) && s'.fds == s.fds && s'.pipes == s.pipes[q := Pipe(1, 1)]
    ensures s'.files == s.files[r := File(0, Some(q), PULL)][w := File(0, Some(q), PUSH)]
    ensures s' == Applied(s, [Step.MakePipe(q, r, w)])
  {
    AppliedOne(s, [], Step.MakePipe(q, r, w));
    MakePipeKeeps(s, q, r, w);
    s' := NewFile(NewFile(NewPipe(s, q), r, File(0, Some(q), PULL)), w, File(0, Some(q), PUSH));
  }

  /** The two ends of a new pipe after their files were given slots, or not. */
  lemma PipePlaced(s: State, s1: State, p: Pid, q: Addr, r: Addr, w: Addr, rfd: int, wfd: int)
    requires p in s.fds && s1.fds == s.fds && r != w
    requires s1.files == s.files[r := File(0, Some(q), PULL)][w := File(0, Some(q), PUSH)]
    requires NextSlot(s.fds[p], rfd) && NextSlot(With(s.fds[p], rfd, r), wfd)
    ensures var s' := Installed(Installed(s1, p, rfd, r), p, wfd, w);
      && s'.fds == s.fds[p := With(With(s.fds[p], rfd, r), wfd, w)] && s'.pipes == s1.pipes
      && s'.files == s.files[r := File(Placed(rfd), Some(q), PULL)][w := File(Placed(wfd), Some(q), PUSH)]
  {
  }

  method PipeEnds(s: State, p: Pid, q: Addr, r: Addr, w: Addr) returns (rfd: int, wfd: int, s': State)
    requires Inv(s) && p in s.fds && q !in s.pipes && r !in s.files && w !in s.files && r != w
    ensures Inv(s') && (Exact(s) ==> Exact(s')) && s'.pipes == s.pipes[q := Pipe(1, 1)]
    ensures s'.fds == s.fds[p := With(With(s.fds[p], rfd, r), wfd, w)]
    ensures s'.files == s.files[r := File(Placed(rfd), Some(q), PULL)][w := File(Placed(wfd), Some(q), PUSH)]
    ensures NextSlot(s.fds[p], rfd) && NextSlot(With(s.fds[p], rfd, r), wfd)
    ensures s' == Applied(s, [Step.MakePipe(q, r, w)] + Put(p, rfd, r) + Put(p, wfd, w))
  {
    var s1 := PipeFiles(s, q, r, w);
    var s2;
    rfd, s2 := InstallFile(s1, p, r);
    wfd, s' := InstallFile(s2, p, w);
    AppliedJoin(s, [Step.MakePipe(q, r, w)], Put(p, rfd, r));
    AppliedJoin(s, [Step.MakePipe(q, r, w)] + Put(p, rfd, r), Put(p, wfd, w));
    PipePlaced(s, s1, p, q, r, w, rfd, wfd);
  }

  /** The steps of a fork for a table: each open slot gives the child a descriptor, and counts its pipe up. */
  function ForkSteps(t: Table, child: Pid): seq<Step> {
    if t == [] then [] else ForkSteps(t[..|t| - 1], child) + ForkSlotSteps(t[|t| - 1], child, |t| - 1)
  }

  function ForkSlotSteps(slot: Option<Addr>, child: Pid, i: nat): seq<Step> {
    match slot
    case None => []
    case Some(a) => [Step.Install(child, i, a), Step.Count(a)]
  }

  /** One slot of the parent's table shared with the child. */
  method ForkSlot(s: State, parent: Pid, child: Pid, i: nat) returns (s': State)
    requires Inv(s) && parent in s.fds && child in s.fds && i < MAX_FDS && s.fds[child][i] == None
    ensures Inv(s') && (Exact(s) ==> Exact(s')) && s'.fds == s.fds[child := s.fds[child][i := s.fds[parent][i]]]
    ensures s' == Applied(s, ForkSlotSteps(s.fds[parent][i], child, i))
  {
    s' := s;
    if s.fds[parent][i].Some? {
      var a := s.fds[parent][i].value;
      assert Slot(s, parent, i, a);
      s' := ShareSlot(s, child, i, a);
    } else {
      assert s.fds[child][i := None] == s.fds[child];
    }
  }

  /** The first `i` slots of the parent's table are the child's too, and the child has no other. */
  ghost predicate Forked(s: State, s': State, parent: Pid, child: Pid, i: nat) {
    && Inv(s') && (Exact(s) ==> Exact(s')) && parent in s.fds && parent != child && |s.fds[parent]| == MAX_FDS
    && child in s'.fds && s'.fds == s.fds[child := s'.fds[child]] && |s'.fds[child]| == MAX_FDS
    && forall j | 0 <= j < MAX_FDS :: s'.fds[child][j] == if j < i then s.fds[parent][j] else None
  }

  lemma ForkedNext(s: State, s1: State, s2: State, parent: Pid, child: Pid, i: nat)
    requires Forked(s, s1, parent, child, i) && i < MAX_FDS && Inv(s2) && (Exact(s1) ==> Exact(s2))
    requires s2.fds == s1.fds[child := s1.fds[child][i := s.fds[parent][i]]]
    ensures Forked(s, s2, parent, child, i + 1)
  {
  }

  lemma ForkStepsNext(s: State, t: Table, child: Pid, i: nat)
    requires i < |t|
    ensures Applied(s, ForkSteps(t[..i + 1], child))
         == Applied(Applied(s, ForkSteps(t[..i], child)), ForkSlotSteps(t[i], child, i))
  {
    assert t[..i + 1][..i] == t[..i];
    AppliedJoin(s, ForkSteps(t[..i], child), ForkSlotSteps(t[i], child, i));
  }

  /** The child's table filled slot by slot. */
  method ForkSlots(s: State, s0: State, parent: Pid, child: Pid) returns (s': State)
    requires Forked(s, s0, parent, child, 0)
    ensures Forked(s, s', parent, child, MAX_FDS) && s' == Applied(s0, ForkSteps(s.fds[parent], child))
  {
    s' := s0;
    ghost var t := s.fds[parent];
    for i := 0 to MAX_FDS
      invariant Forked(s, s', parent, child, i) && s' == Applied(s0, ForkSteps(t[..i], child))
    {
      ForkStepsNext(s0, t, child, i);
      ghost var s1 := s';
      s' := ForkSlot(s', parent, child, i);
      ForkedNext(s, s1, s', parent, child, i);
    }
    assert t[..MAX_FDS] == t;
  }

  method ForkTable(s: State, parent: Pid, child: Pid) returns (s': State)
    requires Inv(s) && parent in s.fds && child !in s.fds
    ensures Inv(s') && (Exact(s) ==> Exact(s')) && s'.fds == s.fds[child := s.fds[parent]]
    ensures s' == Applied(s, [Step.Start(child)] + ForkSteps(s.fds[parent], child))
  {
    NewProcessKeeps(s, child);
    s' := ForkSlots(s, NewProcess(s, child), parent, child);
    AppliedOne(s, [], Step.Start(child));
    AppliedJoin(s, [Step.Start(child)], ForkSteps(s.fds[parent], child));
    assert s'.fds[child] == s.fds[parent];
  }

  /** The files of `s'` are files of `s`, with the same flags. */
  ghost predicate FlagsKept(s: State, s': State) {
    forall a | a in s'.files :: a in s.files && s'.files[a].flags == s.files[a].flags
  }

  /** The first `i` slots of a process are closed, and the others as they were. */
  ghost predicate ClosedTo(s: State, s': State, p: Pid, i: nat) {
    && Inv(s') && (Exact(s) ==> Exact(s')) && p in s.fds && |s.fds[p]| == MAX_FDS
    && p in s'.fds && s'.fds == s.fds[p := s'.fds[p]] && |s'.fds[p]| == MAX_FDS
    && forall j | 0 <= j < MAX_FDS :: s'.fds[p][j] == if j < i then None else s.fds[p][j]
  }

  lemma ClosedNext(s: State, s1: State, s2: State, p: Pid, i: nat)
    requires ClosedTo(s, s1, p, i) && i < MAX_FDS && Inv(s2) && (Exact(s1) ==> Exact(s2))
    requires s2.fds == s1.fds[p := s1.fds[p][i := None]]
    ensures ClosedTo(s, s2, p, i + 1)
  {
  }

  method CloseSlot(s: State, p: Pid, i: nat) returns (s': State)
    requires Inv(s) && p in s.fds && i < MAX_FDS
    ensures Inv(s') && (Exact(s) ==> Exact(s')) && s'.fds == s.fds[p := s.fds[p][i := None]]
    ensures s' == Applied(s, [Step.Close(p, i)])
  {
    AppliedOne(s, [], Step.Close(p, i));
    s' := s;
    if s.fds[p][i].Some? {
      DetachKeeps(s, p, i);
      s' := Detach(s, p, i);
    } else {
      assert s.fds[p][i := None] == s.fds[p];
    }
  }

  method CloseTable(s: State, p: Pid) returns (s': State)
    requires Inv(s) && p in s.fds
    ensures Inv(s') && (Exact(s) ==> Exact(s')) && s'.fds == s.fds[p := EmptyTable()]
    ensures s' == Applied(s, CloseSteps(p, MAX_FDS))
  {
    s' := s;
    for i := 0 to MAX_FDS
      invariant ClosedTo(s, s', p, i) && s' == Applied(s, CloseSteps(p, i))
    {
      AppliedJoin(s, CloseSteps(p, i), [Step.Close(p, i)]);
      ghost var s1 := s';
      s' := CloseSlot(s', p, i);
      ClosedNext(s, s1, s', p, i);
    }
    assert s'.fds[p] == EmptyTable();
  }

  /** A slot closed if its file asks for that. */
  method ExecSlot(s: State, p: Pid, i: nat) returns (s': State)
    requires Inv(s) && p in s.fds && i < MAX_FDS
    ensures Inv(s') && (Exact(s) ==> Exact(s')) && FlagsKept(s, s')
    ensures s'.fds == s.fds[p := s.fds[p][i := if Closes(s, p, i) then None else s.fds[p][i]]]
    ensures s' == Applied(s, if Closes(s, p, i) then [Step.Close(p, i)] else [])
  {
    AppliedOne(s, [], Step.Close(p, i));
    s' := s;
    assert s.fds[p][i := s.fds[p][i]] == s.fds[p];
    if s.fds[p][i].Some? {
      assert Slot(s, p, i, s.fds[p][i].value);
      if CloExec(s.files[s.fds[p][i].value].flags) {
        DetachKeeps(s, p, i);
        s' := Detach(s, p, i);
      }
    }
  }

  /** Of the first `i` slots exactly those are closed whose files asked for it. */
  ghost predicate ExecTo(s: State, s': State, p: Pid, i: nat) {
    && Inv(s') && (Exact(s) ==> Exact(s')) && FlagsKept(s, s') && p in s.fds && |s.fds[p]| == MAX_FDS
    && p in s'.fds && s'.fds == s.fds[p := s'.fds[p]] && |s'.fds[p]| == MAX_FDS
    && forall j | 0 <= j < MAX_FDS :: s'.fds[p][j] == if j < i && Closes(s, p, j) then None else s.fds[p][j]
  }

  /** A slot that is not reached yet asks for what it asked for at first. */
  lemma SameAsked(s: State, s1: State, p: Pid, i: nat)
    requires Inv(s) && ExecTo(s, s1, p, i) && i < MAX_FDS
    ensures Closes(s1, p, i) <==> Closes(s, p, i)
  {
    if s1.fds[p][i].Some? {
      assert Slot(s1, p, i, s1.fds[p][i].value);
    }
  }

  lemma ExecNext(s: State, s1: State, s2: State, p: Pid, i: nat)
    requires Inv(s) && ExecTo(s, s1, p, i) && i < MAX_FDS && Inv(s2) && (Exact(s1) ==> Exact(s2)) && FlagsKept(s1, s2)
    requires s2.fds == s1.fds[p := s1.fds[p][i := if Closes(s, p, i) then None else s.fds[p][i]]]
    ensures ExecTo(s, s2, p, i + 1)
  {
  }

  method ExecTable(s: State, p: Pid) returns (s': State)
    requires Inv(s) && p in s.fds
    ensures Inv(s') && (Exact(s) ==> Exact(s')) && p in s'.fds && |s'.fds[p]| == MAX_FDS
    ensures s'.fds == s.fds[p := s'.fds[p]]
    ensures forall j | 0 <= j < MAX_FDS :: s'.fds[p][j] == if Closes(s, p, j) then None else s.fds[p][j]
    ensures s' == Applied(s, ExecSteps(s, p, MAX_FDS))
  {
    s' := s;
    for i := 0 to MAX_FDS
      invariant ExecTo(s, s', p, i) && s' == Applied(s, ExecSteps(s, p, i))
    {
      SameAsked(s, s', p, i);
      AppliedJoin(s, ExecSteps(s, p, i), if Closes(s, p, i) then [Step.Close(p, i)] else []);
      ghost var s1 := s';
      s' := ExecSlot(s', p, i);
      ExecNext(s, s1, s', p, i);
    }
  }
}
