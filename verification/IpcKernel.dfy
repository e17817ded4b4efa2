/** The rendezvous system calls as they run: a process table whose records carry intrusive wait queues. */
module IpcKernel {
  import opened Common
  import opened MicroIpc

  /** The IPC fields of a process record; a pointer to a record is the pid of its process. */
  datatype Record = Record(proc: Proc, waiters: Option<Pid>, next: Option<Pid>)

  type Table = map<Pid, Record>

  /** The list from `head` runs through exactly `q`. */
  ghost predicate Chain(table: Table, head: Option<Pid>, q: seq<Pid>) {
    head == At(q, 0) && forall i | 0 <= i < |q| :: q[i] in table && table[q[i]].next == At(q, i + 1)
  }

  /** Every process's list is its queue. */
  ghost predicate Lists(table: Table, queue: map<Pid, seq<Pid>>) {
    queue.Keys == table.Keys && forall o {:trigger Chain(table, table[o].waiters, queue[o])} | o in table ::
      Chain(table, table[o].waiters, queue[o])
  }

  ghost function Abs(table: Table, queue: map<Pid, seq<Pid>>, log: seq<Event>): State {
    State(map p | p in table :: table[p].proc, queue, log)
  }

  /** The walk to the end of a list. */
  method Last(table: Table, head: Pid, ghost q: seq<Pid>) returns (w: Pid)
    requires Chain(table, Some(head), q)
    ensures q != [] && w == q[|q| - 1]
  {
    w := head;
    ghost var i: nat := 0;
    while table[w].next.Some?
      invariant i < |q| && w == q[i]
      decreases |q| - i
    {
      w := table[w].next.value;
      i := i + 1;
    }
  }

  /** A list none of whose members was relinked is as it was. */
  lemma ChainKept(table: Table, table': Table, head: Option<Pid>, q: seq<Pid>)
    requires Chain(table, head, q)
    requires forall i | 0 <= i < |q| :: q[i] in table' && (q[i] in table ==> table'[q[i]].next == table[q[i]].next)
    ensures Chain(table', head, q)
  {
  }

  ghost predicate Disjoint(a: seq<Pid>, b: seq<Pid>) {
    forall i, j | 0 <= i < |a| && 0 <= j < |b| :: a[i] != b[j]
  }

  /** Process `c` is in no list, and the list of `t` is distinct and disjoint from the others. */
  ghost predicate Apart(queue: map<Pid, seq<Pid>>, t: Pid, c: Pid) {
    && t in queue && Distinct(queue[t])
    && forall o | o in queue :: c !in queue[o] && (o != t ==> Disjoint(queue[o], queue[t]))
  }

  /** Only the links of `a` and `b` and the list head of `t` changed. */
  ghost predicate Relinked(table: Table, table': Table, t: Pid, a: Pid, b: Pid) {
    && table'.Keys == table.Keys
    && forall p | p in table ::
      && table'[p].proc == table[p].proc
      && (p != t ==> table'[p].waiters == table[p].waiters)
      && (p != a && p != b ==> table'[p].next == table[p].next)
  }

  lemma OthersLinked(table: Table, table': Table, queue: map<Pid, seq<Pid>>, queue': map<Pid, seq<Pid>>, t: Pid,
                     c: Pid, w: Pid)
    requires Lists(table, queue) && Apart(queue, t, c) && Relinked(table, table', t, c, w) && w in queue[t] + [c]
    requires queue' == queue[t := queue[t] + [c]] && Chain(table', table'[t].waiters, queue'[t])
    ensures Lists(table', queue')
  {
    forall o | o in table && o != t ensures Chain(table', table'[o].waiters, queue'[o]) {
      assert Disjoint(queue[o], queue[t]);
      ChainKept(table, table', table[o].waiters, queue[o]);
    }
  }

  /** The list with the new last member linked in. */
  lemma Extended(table: Table, table': Table, head: Option<Pid>, q: seq<Pid>, c: Pid)
    requires Chain(table, head, q) && Distinct(q) && c !in q && c in table'
    requires forall i | 0 <= i < |q| - 1 :: q[i] in table' && (q[i] in table ==> table'[q[i]].next == table[q[i]].next)
    requires q != [] ==> q[|q| - 1] in table' && table'[q[|q| - 1]].next == Some(c)
    requires table'[c].next == None
    ensures Chain(table', At(q + [c], 0), q + [c])
  {
    forall i | 0 <= i < |q + [c]| ensures (q + [c])[i] in table' && table'[(q + [c])[i]].next == At(q + [c], i + 1) {
      assert i < |q| ==> (q + [c])[i] == q[i];
    }
  }

  /** The lists after the caller was linked behind the last member, or made the head of an empty list. */
  lemma Enqueued(table: Table, table': Table, queue: map<Pid, seq<Pid>>, t: Pid, c: Pid, w: Pid)
    requires Lists(table, queue) && Apart(queue, t, c) && t in table && c in table && Relinked(table, table', t, c, w)
    requires table'[c].next == None && table'[t].waiters == At(queue[t] + [c], 0)
    requires if queue[t] == [] then w == c else w == queue[t][|queue[t]| - 1] && w in table && table'[w].next == Some(c)
    ensures Lists(table', queue[t := queue[t] + [c]])
  {
    var q := queue[t];
    assert Chain(table, table[t].waiters, q);
    Extended(table, table', table[t].waiters, q, c);
    OthersLinked(table, table', queue, queue[t := q + [c]], t, c, w);
  }

  /** The caller's record linked behind the last one. */
  method Enqueue(table: Table, t: Pid, c: Pid, ghost queue: map<Pid, seq<Pid>>) returns (table': Table)
    requires Lists(table, queue) && t in table && c in table && Apart(queue, t, c)
    ensures Lists(table', queue[t := queue[t] + [c]])
    ensures table'.Keys == table.Keys && forall p | p in table :: table'[p].proc == table[p].proc
  {
    var table1 := table[c := table[c].(next := None)];
    assert Chain(table, table[t].waiters, queue[t]);
    if table1[t].waiters == None {
      table' := table1[t := table1[t].(waiters := Some(c))];
      Enqueued(table, table', queue, t, c, c);
    } else {
      ChainKept(table, table1, table[t].waiters, queue[t]);
      var w := Last(table1, table1[t].waiters.value, queue[t]);
      table' := table1[w := table1[w].(next := Some(c))];
      Enqueued(table, table', queue, t, c, w);
    }
  }

  function SetProc(table: Table, p: Pid, proc: Proc): Table
    requires p in table
  {
    table[p := table[p].(proc := proc)]
  }

  /** Updating a record's plain fields keeps the lists. */
  lemma ListsUpdate(table: Table, queue: map<Pid, seq<Pid>>, p: Pid, proc: Proc)
    requires Lists(table, queue) && p in table
    ensures Lists(SetProc(table, p, proc), queue)
  {
    var table' := SetProc(table, p, proc);
    forall o | o in table' ensures Chain(table', table'[o].waiters, queue[o]) {
      ChainKept(table, table', table[o].waiters, queue[o]);
    }
  }

  /** The tables hold the records of a state. */
  ghost predicate Holds(table: Table, procs: map<Pid, Proc>) {
    table.Keys == procs.Keys && forall p | p in table :: table[p].proc == procs[p]
  }

  lemma HoldsAbs(table: Table, queue: map<Pid, seq<Pid>>, log: seq<Event>, s: State)
    requires Holds(table, s.procs) && queue == s.queue && log == s.log
    ensures Abs(table, queue, log) == s
  {
    assert Abs(table, queue, log).procs == s.procs;
  }

  /** A process that is not calling is in no list. */
  lemma IdleApart(s: State, t: Pid, c: Pid)
    requires Structured(s) && t in s.procs && c in s.procs && s.procs[c].status == Idle
    ensures Apart(s.queue, t, c)
  {
    assert QueueOk(s, t);
    forall o | o in s.queue ensures c !in s.queue[o] && (o != t ==> Disjoint(s.queue[o], s.queue[t])) {
      assert QueueOk(s, o);
      assert forall i | 0 <= i < |s.queue[o]| :: Answers(s, o, s.queue[o][i]);
      assert forall i | 0 <= i < |s.queue[t]| :: Answers(s, t, s.queue[t][i]);
    }
  }

  /** The record updates of a call. */
  method Called(table: Table, c: Pid, t: Pid, msg: Msg, ghost s: State) returns (table': Table)
    requires Holds(table, s.procs) && Lists(table, s.queue) && c in table && t in table && Apart(s.queue, t, c)
    ensures Lists(table', CallStep(s, c, t, msg).queue) && Holds(table', CallStep(s, c, t, msg).procs)
  {
    var table1 := SetProc(table, c, Proc(Sending, t, msg, false));
    ListsUpdate(table, s.queue, c, Proc(Sending, t, msg, false));
    var p := table1[t].proc;
    if p.status == Receiving && (p.peer == 0 || p.peer == c) {
      var woken := p.(status := Idle, buffer := Stamped(msg, c), ready := true);
      table' := SetProc(table1, t, woken);
      ListsUpdate(table1, s.queue, t, woken);
    } else {
      table' := Enqueue(table1, t, c, s.queue);
    }
  }

  /** The record updates of a reply. */
  method Replied(table: Table, server: Pid, t: Pid, msg: Msg, ghost s: State) returns (table': Table)
    requires Holds(table, s.procs) && Lists(table, s.queue)
    ensures Lists(table', s.queue) && Holds(table', ReplyStep(s, server, t, msg).procs)
  {
    table' := table;
    if t in table && table[t].proc.status == Sending && table[t].proc.peer == server {
      var woken := table[t].proc.(status := Idle, buffer := msg, ready := true);
      ListsUpdate(table, s.queue, t, woken);
      table' := SetProc(table, t, woken);
    }
  }

  /** Taking the first member off a list. */
  lemma Popped(table: Table, queue: map<Pid, seq<Pid>>, o: Pid, r: Record)
    requires Lists(table, queue) && o in table && queue[o] != []
    requires table[o].waiters == Some(queue[o][0]) && queue[o][0] in table ==>
      r.waiters == table[queue[o][0]].next && r.next == table[o].next
    ensures table[o].waiters == Some(queue[o][0]) && queue[o][0] in table
    ensures Lists(table[o := r], queue[o := queue[o][1..]])
  {
    var table', q := table[o := r], queue[o];
    assert Chain(table, table[o].waiters, q);
    assert Chain(table, At(q, 1), q[1..]);
    ChainKept(table, table', At(q, 1), q[1..]);
    forall p | p in table && p != o ensures Chain(table', table'[p].waiters, queue[p]) {
      ChainKept(table, table', table[p].waiters, queue[p]);
    }
  }

  /** The record updates of a wait. */
  method Waited(table: Table, server: Pid, ghost s: State) returns (table': Table)
    requires Holds(table, s.procs) && Lists(table, s.queue) && server in table
    requires s.queue[server] != [] ==> s.queue[server][0] in s.procs
    ensures Lists(table', WaitStep(s, server).queue) && Holds(table', WaitStep(s, server).procs)
  {
    assert Chain(table, table[server].waiters, s.queue[server]);
    var r := table[server];
    if r.waiters.Some? {
      var sender := r.waiters.value;
      var r' := Record(r.proc.(buffer := Stamped(table[sender].proc.buffer, sender)), table[sender].next, r.next);
      Popped(table, s.queue, server, r');
      table' := table[server := r'];
    } else {
      ListsUpdate(table, s.queue, server, Proc(Receiving, 0, r.proc.buffer, false));
      table' := SetProc(table, server, Proc(Receiving, 0, r.proc.buffer, false));
    }
  }

  /** The client answered is not still queued, or is the one whose request the wait takes off the queue next. */
  predicate LeavesCallers(s: State, server: Pid, reply: Option<(Pid, Msg)>) {
    reply.Some? && Answers(s, server, reply.value.0) && Queued(s, reply.value.0) ==>
      server in s.queue && At(s.queue[server], 0) == Some(reply.value.0)
  }

  /** A reply to the first client in the queue, which the wait then takes off it. */
  lemma FirstAnswered(s: State, server: Pid, t: Pid, msg: Msg)
    requires Structured(s) && Runs(s, server) && Answers(s, server, t) && Queued(s, t)
    requires server in s.queue && s.queue[server] != [] && s.queue[server][0] == t
    ensures Structured(MicroIpc.ReplyWait(s, server, Some((t, msg))))
  {
    var s' := MicroIpc.ReplyWait(s, server, Some((t, msg)));
    assert QueueOk(s, server);
    forall o | o in s'.procs ensures QueueOk(s', o) {
      assert QueueOk(s, o);
      if o == server {
        assert s'.queue[o] == s.queue[o][1..];
      } else {
        assert forall i | 0 <= i < |s.queue[o]| :: Answers(s, o, s.queue[o][i]);
      }
    }
  }

  /** A reply to a client further back: it stays in the queue but no longer calls. */
  lemma LaterAnswered(s: State, server: Pid, t: Pid, msg: Msg)
    requires Structured(s) && Runs(s, server) && Answers(s, server, t) && Queued(s, t)
    requires server in s.queue && s.queue[server] != [] && s.queue[server][0] != t
    ensures !Structured(MicroIpc.ReplyWait(s, server, Some((t, msg))))
  {
    var s' := MicroIpc.ReplyWait(s, server, Some((t, msg)));
    assert QueueOk(s, server);
    var i :| 0 <= i < |s.queue[server]| && s.queue[server][i] == t;
    assert s'.queue[server][i - 1] == t && !Answers(s', server, t);
    assert !QueueOk(s', server);
  }

  /** The queues stay those of callers exactly then. */
  lemma ReplyWaitStructured(s: State, server: Pid, reply: Option<(Pid, Msg)>)
    requires Structured(s) && Runs(s, server)
    ensures Structured(MicroIpc.ReplyWait(s, server, reply)) <==> LeavesCallers(s, server, reply)
  {
    assert QueueOk(s, server);
    if reply.None? {
      WaitStructured(s, server);
    } else {
      var t, msg := reply.value.0, reply.value.1;
      if !(Answers(s, server, t) && Queued(s, t)) {
        ReplyStructured(s, server, t, msg);
        WaitStructured(ReplyStep(s, server, t, msg), server);
      } else if s.queue[server][0] == t {
        FirstAnswered(s, server, t, msg);
      } else {
        LaterAnswered(s, server, t, msg);
      }
    }
  }

  /** The record updates of a reply and a wait. */
  method ReplyWaited(table: Table, server: Pid, reply: Option<(Pid, Msg)>, ghost s: State) returns (table': Table)
    requires Holds(table, s.procs) && Lists(table, s.queue) && Structured(s) && Runs(s, server)
    ensures Lists(table', MicroIpc.ReplyWait(s, server, reply).queue)
    ensures Holds(table', MicroIpc.ReplyWait(s, server, reply).procs)
  {
    assert QueueOk(s, server);
    if reply.Some? {
      var table1 := Replied(table, server, reply.value.0, reply.value.1, s);
      table' := Waited(table1, server, ReplyStep(s, server, reply.value.0, reply.value.1));
    } else {
      table' := Waited(table, server, s);
    }
  }

  const SUCCESS := 0
  const ESRCH := -3

  /** The kernel's process table, with the queues it encodes and the log of what happened as ghosts. */
  class Kernel {
    var table: Table
    ghost var queue: map<Pid, seq<Pid>>
    ghost var log: seq<Event>

    /** Processes that have made no call yet. */
    constructor (table: Table)
      requires forall p | p in table ::
        table[p].proc.status == Idle && table[p].proc.ready && table[p].waiters == None == table[p].next
      ensures Valid() && Init(Model()) && this.table == table
    {
      this.table, queue, log := table, map p | p in table :: [], [];
      new;
      InitInv(Model());
    }

    ghost function Model(): State
      reads this
    {
      Abs(table, queue, log)
    }

    ghost predicate Valid()
      reads this
    {
      Lists(table, queue) && Structured(Model())
    }

    /** sys_sb_ipc_call, up to the point where the caller sleeps. */
    method Call(c: Pid, t: Pid, msg: Msg) returns (err: int)
      requires Valid() && Runs(Model(), c)
      modifies this
      ensures Valid()
      ensures t !in old(table) ==> err == -3 && Model() == old(Model())
      ensures t in old(table) ==> err == 0 && Model() == CallStep(old(Model()), c, t, msg)
    {
      if t !in table {
        return ESRCH;
      }
      ghost var s := CallStep(Model(), c, t, msg);
      CallStructured(Model(), c, t, msg);
      IdleApart(Model(), t, c);
      table := Called(table, c, t, msg, Model());
      queue, log := s.queue, s.log;
      HoldsAbs(table, queue, log, s);
      err := SUCCESS;
    }

    /** sys_sb_ipc_reply_wait, up to where the server has a request or sleeps. */
    method ReplyWait(server: Pid, reply: Option<(Pid, Msg)>) returns (err: int)
      requires Valid() && Runs(Model(), server)
      modifies this
      ensures Lists(table, queue) && err == 0 && Model() == MicroIpc.ReplyWait(old(Model()), server, reply)
      ensures Valid() <==> LeavesCallers(old(Model()), server, reply)
    {
      ghost var s := MicroIpc.ReplyWait(Model(), server, reply);
      ReplyWaitStructured(Model(), server, reply);
      table := ReplyWaited(table, server, reply, Model());
      queue, log := s.queue, s.log;
      HoldsAbs(table, queue, log, s);
      err := SUCCESS;
    }
  }
}
