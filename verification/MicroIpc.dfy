/**
 * Rendezvous IPC between processes: a client calls a server and sleeps until the reply; a server replies
 * and waits for the next request. Here on values, as a state machine with a log of what happened.
 */
module MicroIpc {
  import opened Common

  datatype Msg = Msg(kind: nat, data1: nat, data2: nat, data3: nat, data4: nat)

  /** The kernel tells the receiver who sent a message through its last word. */
  function Stamped(m: Msg, sender: Pid): Msg {
    m.(data4 := sender)
  }

  /** The last word is the sender's pid; the other four are as they were sent. */
  lemma StampedWords(m: Msg, sender: Pid)
    ensures Stamped(m, sender) == Msg(m.kind, m.data1, m.data2, m.data3, sender)
  {
  }

  datatype Status = Idle | Receiving | Sending

  /** A process record; `buffer` is the message at the address it passed to the kernel. */
  datatype Proc = Proc(status: Status, peer: Pid, buffer: Msg, ready: bool)

  datatype Event =
    | Call(client: Pid, server: Pid, msg: Msg)
    | Deliver(client: Pid, server: Pid, msg: Msg)
    | Reply(client: Pid, server: Pid, msg: Msg)

  /** The live processes, each one's queue of waiting clients, and the log. */
  datatype State = State(procs: map<Pid, Proc>, queue: map<Pid, seq<Pid>>, log: seq<Event>)

  // ---- steps ----

  /** sys_sb_ipc_call by `c` to the live process `t`, up to where the caller sleeps. */
  function CallStep(s: State, c: Pid, t: Pid, msg: Msg): State
    requires c in s.procs && t in s.procs && t in s.queue
  {
    var procs := s.procs[c := Proc(Sending, t, msg, false)];
    if procs[t].status == Receiving && (procs[t].peer == 0 || procs[t].peer == c) then
      var m := Stamped(msg, c);
      State(procs[t := procs[t].(status := Idle, buffer := m, ready := true)], s.queue,
        s.log + [Call(c, t, msg)] + [Deliver(c, t, m)])
    else
      State(procs, s.queue[t := s.queue[t] + [c]], s.log + [Call(c, t, msg)])
  }

  /** The reply part accepts a process that waits for an answer from this server. */
  predicate Answers(s: State, server: Pid, t: Pid) {
    t in s.procs && s.procs[t].status == Sending && s.procs[t].peer == server
  }

  function ReplyStep(s: State, server: Pid, t: Pid, msg: Msg): State {
    if Answers(s, server, t) then
      s.(procs := s.procs[t := s.procs[t].(status := Idle, buffer := msg, ready := true)],
        log := s.log + [Reply(t, server, msg)])
    else s
  }

  /** A reply reaches exactly a process that waits for this server: it gets the message as it is, and runs again. */
  lemma ReplyReaches(s: State, server: Pid, t: Pid, msg: Msg)
    ensures t in s.procs && s.procs[t].status == Sending && s.procs[t].peer == server ==>
      && ReplyStep(s, server, t, msg).procs == s.procs[t := Proc(Idle, server, msg, true)]
      && ReplyStep(s, server, t, msg).queue == s.queue
    ensures !(t in s.procs && s.procs[t].status == Sending && s.procs[t].peer == server) ==>
      ReplyStep(s, server, t, msg) == s
  {
  }

  /** The wait part: the longest-waiting client's request, or sleep. */
  function WaitStep(s: State, server: Pid): State
    requires server in s.procs && server in s.queue
    requires s.queue[server] != [] ==> s.queue[server][0] in s.procs
  {
    var q := s.queue[server];
    if q != [] then
      var m := Stamped(s.procs[q[0]].buffer, q[0]);
      State(s.procs[server := s.procs[server].(buffer := m)], s.queue[server := q[1..]],
        s.log + [Deliver(q[0], server, m)])
    else
      s.(procs := s.procs[server := Proc(Receiving, 0, s.procs[server].buffer, false)])
  }

  // ---- what the log promises ----

  /** Where a client stands after a log: free to call, asked and not yet heard, heard and not yet answered. */
  datatype Phase = Free | Asked(server: Pid, msg: Msg) | Heard(server: Pid) | Broken

  function NextPhase(p: Phase, e: Event): Phase {
    match e
    case Call(c, s, m) => if p == Free then Asked(s, m) else Broken
    case Deliver(c, s, m) => if p.Asked? && p.server == s && m == Stamped(p.msg, c) then Heard(s) else Broken
    case Reply(c, s, m) => if p == Heard(s) then Free else Broken
  }

  function PhaseOf(log: seq<Event>, c: Pid): Phase {
    if log == [] then Free
    else
      var e, before := log[|log| - 1], PhaseOf(log[..|log| - 1], c);
      if e.client == c then NextPhase(before, e) else before
  }

  /** The requests made to a server, in call order, as the server is to see them. */
  function Requested(log: seq<Event>, s: Pid): seq<(Pid, Msg)> {
    if log == [] then []
    else
      var e, before := log[|log| - 1], Requested(log[..|log| - 1], s);
      if e.Call? && e.server == s then before + [(e.client, Stamped(e.msg, e.client))] else before
  }

  /** The requests a server received, in order. */
  function Received(log: seq<Event>, s: Pid): seq<(Pid, Msg)> {
    if log == [] then []
    else
      var e, before := log[|log| - 1], Received(log[..|log| - 1], s);
      if e.Deliver? && e.server == s then before + [(e.client, e.msg)] else before
  }

  /** The message that an event leaves in a process's buffer. */
  predicate Writes(e: Event, p: Pid) {
    if e.Deliver? then e.server == p else e.client == p
  }

  /** What the last such event left there. */
  function LastWritten(log: seq<Event>, p: Pid): Option<Msg> {
    if log == [] then None
    else if Writes(log[|log| - 1], p) then Some(log[|log| - 1].msg)
    else LastWritten(log[..|log| - 1], p)
  }

  lemma LogStep(log: seq<Event>, e: Event, p: Pid)
    ensures LastWritten(log + [e], p) == if Writes(e, p) then Some(e.msg) else LastWritten(log, p)
    ensures PhaseOf(log + [e], p) == if e.client == p then NextPhase(PhaseOf(log, p), e) else PhaseOf(log, p)
    ensures Requested(log + [e], p) ==
      if e.Call? && e.server == p then Requested(log, p) + [(e.client, Stamped(e.msg, e.client))] else Requested(log, p)
    ensures Received(log + [e], p) == if e.Deliver? && e.server == p then Received(log, p) + [(e.client, e.msg)]
      else Received(log, p)
  {
    assert (log + [e])[..|log|] == log;
  }

  // ---- the invariant ----

  /** The queues: members distinct, asleep in a call to the queue's owner; a receiver has none. */
  ghost predicate QueueOk(s: State, o: Pid) {
    && o in s.procs && o in s.queue
    && Distinct(s.queue[o])
    && (forall i | 0 <= i < |s.queue[o]| :: Answers(s, o, s.queue[o][i]))
    && (s.procs[o].status == Receiving ==> s.queue[o] == [] && s.procs[o].peer == 0)
    && (s.procs[o].ready <==> s.procs[o].status == Idle)
  }

  ghost predicate Structured(s: State) {
    s.queue.Keys == s.procs.Keys && forall o {:trigger QueueOk(s, o)} | o in s.procs :: QueueOk(s, o)
  }

  predicate Queued(s: State, c: Pid) {
    c in s.procs && s.procs[c].peer in s.queue && c in s.queue[s.procs[c].peer]
  }

  /** Each process's record agrees with the log. */
  ghost predicate PhaseOk(s: State, c: Pid) {
    && c in s.procs
    && (LastWritten(s.log, c).Some? ==> s.procs[c].buffer == LastWritten(s.log, c).value)
    && var p := s.procs[c];
       PhaseOf(s.log, c) == if p.status != Sending then Free else if Queued(s, c) then Asked(p.peer, p.buffer)
         else Heard(p.peer)
  }

  /** A client's request as its server is to see it. */
  function Request(s: State, c: Pid): (Pid, Msg) {
    (c, if c in s.procs then Stamped(s.procs[c].buffer, c) else Msg(0, 0, 0, 0, 0))
  }

  /** The requests still waiting in a server's queue. */
  function Pending(s: State, o: Pid): seq<(Pid, Msg)> {
    if o in s.queue then seq(|s.queue[o]|, i requires 0 <= i < |s.queue[o]| => Request(s, s.queue[o][i])) else []
  }

  /** First in, first out, nothing lost and nothing twice: what was asked is what was received, then what waits. */
  ghost predicate Fifo(s: State, o: Pid) {
    Requested(s.log, o) == Received(s.log, o) + Pending(s, o)
  }

  /** Only these processes appear in the log. */
  ghost predicate LogKnown(s: State) {
    forall i | 0 <= i < |s.log| :: s.log[i].client in s.procs && s.log[i].server in s.procs
  }

  ghost predicate Inv(s: State) {
    && Structured(s) && LogKnown(s)
    && (forall c {:trigger PhaseOk(s, c)} | c in s.procs :: PhaseOk(s, c))
    && (forall o {:trigger Fifo(s, o)} | o in s.procs :: Fifo(s, o))
  }

  // ---- every step keeps it ----

  lemma KnownStep(log: seq<Event>, e: Event, procs: map<Pid, Proc>)
    requires e.client in procs && e.server in procs
    requires forall i | 0 <= i < |log| :: log[i].client in procs && log[i].server in procs
    ensures forall i | 0 <= i < |log + [e]| :: (log + [e])[i].client in procs && (log + [e])[i].server in procs
  {
  }

  /** Only a process that is not asleep in the kernel can make a call. */
  predicate Runs(s: State, c: Pid) {
    c in s.procs && s.procs[c].status == Idle
  }

  lemma Regroup(a: seq<(Pid, Msg)>, b: seq<(Pid, Msg)>, c: seq<(Pid, Msg)>)
    ensures a + b + c == a + (b + c)
  {
  }

  lemma CallStructured(s: State, c: Pid, t: Pid, msg: Msg)
    requires Structured(s) && Runs(s, c) && t in s.procs
    ensures Structured(CallStep(s, c, t, msg))
  {
    var s' := CallStep(s, c, t, msg);
    forall o | o in s'.procs ensures QueueOk(s', o) {
      assert QueueOk(s, o) && QueueOk(s, t);
      assert c !in s.queue[o];
    }
  }

  /** The record and queue membership of a bystander of a call. */
  lemma CallBystander(s: State, c: Pid, t: Pid, msg: Msg, p: Pid)
    requires Structured(s) && Runs(s, c) && t in s.procs && p in s.procs && p != c
    ensures var s' := CallStep(s, c, t, msg);
      && p in s'.procs
      && (s.procs[p].status == Sending ==> s'.procs[p] == s.procs[p] && (Queued(s', p) <==> Queued(s, p)))
      && (s.procs[p].status != Sending ==> s'.procs[p].status != Sending)
      && s'.procs[p].buffer == if s'.queue == s.queue && p == t then Stamped(msg, c) else s.procs[p].buffer
  {
    assert QueueOk(s, t);
    assert |s.queue[t] + [c]| == |s.queue[t]| + 1;
  }

  lemma CallPhases(s: State, c: Pid, t: Pid, msg: Msg, p: Pid)
    requires Structured(s) && Runs(s, c) && t in s.procs && PhaseOk(s, p)
    ensures PhaseOk(CallStep(s, c, t, msg), p)
  {
    if p == c {
      CallerPhase(s, c, t, msg);
    } else {
      BystanderPhase(s, c, t, msg, p);
    }
  }

  lemma BystanderPhase(s: State, c: Pid, t: Pid, msg: Msg, p: Pid)
    requires Structured(s) && Runs(s, c) && t in s.procs && PhaseOk(s, p) && p != c
    ensures PhaseOk(CallStep(s, c, t, msg), p)
  {
    var s', log := CallStep(s, c, t, msg), s.log + [Call(c, t, msg)];
    CallerRecord(s, c, t, msg);
    CallBystander(s, c, t, msg, p);
    LogStep(s.log, Call(c, t, msg), p);
    if s'.queue == s.queue {
      LogStep(log, Deliver(c, t, Stamped(msg, c)), p);
      assert s'.log == log + [Deliver(c, t, Stamped(msg, c))];
    } else {
      assert s'.log == log;
    }
  }

  lemma CallerPhase(s: State, c: Pid, t: Pid, msg: Msg)
    requires Structured(s) && Runs(s, c) && t in s.procs && PhaseOk(s, c)
    ensures PhaseOk(CallStep(s, c, t, msg), c)
  {
    var s', log := CallStep(s, c, t, msg), s.log + [Call(c, t, msg)];
    CallerRecord(s, c, t, msg);
    LogStep(s.log, Call(c, t, msg), c);
    if s'.queue == s.queue {
      LogStep(log, Deliver(c, t, Stamped(msg, c)), c);
      assert s'.log == log + [Deliver(c, t, Stamped(msg, c))];
    } else {
      assert s'.log == log;
    }
  }

  /** The caller sleeps, and is queued exactly if the target did not take the request at once. */
  lemma CallerRecord(s: State, c: Pid, t: Pid, msg: Msg)
    requires Structured(s) && Runs(s, c) && t in s.procs
    ensures var s' := CallStep(s, c, t, msg);
      && s'.procs[c] == Proc(Sending, t, msg, false) && (Queued(s', c) <==> s'.queue != s.queue)
      && (s'.queue == s.queue ==> t != c && s'.log == s.log + [Call(c, t, msg)] + [Deliver(c, t, Stamped(msg, c))])
      && (s'.queue != s.queue ==> s'.log == s.log + [Call(c, t, msg)])
  {
    assert QueueOk(s, t) && c !in s.queue[t];
    assert |s.queue[t] + [c]| == |s.queue[t]| + 1;
  }

  /** Requests of waiting clients are not touched by a call. */
  lemma CallRequests(s: State, c: Pid, t: Pid, msg: Msg, o: Pid)
    requires Structured(s) && Runs(s, c) && t in s.procs && o in s.procs
    ensures var s' := CallStep(s, c, t, msg);
      Pending(s', o) == if o == t && s'.queue != s.queue then Pending(s, o) + [(c, Stamped(msg, c))] else Pending(s, o)
  {
    var s' := CallStep(s, c, t, msg);
    assert QueueOk(s, o) && QueueOk(s, t);
    forall i | 0 <= i < |s.queue[o]| ensures Request(s', s.queue[o][i]) == Request(s, s.queue[o][i]) {
      assert Answers(s, o, s.queue[o][i]);
    }
  }

  lemma CallFifo(s: State, c: Pid, t: Pid, msg: Msg, o: Pid)
    requires Structured(s) && Runs(s, c) && t in s.procs && o in s.procs && Fifo(s, o)
    ensures Fifo(CallStep(s, c, t, msg), o)
  {
    CallRequests(s, c, t, msg, o);
    LogStep(s.log, Call(c, t, msg), o);
    LogStep(s.log + [Call(c, t, msg)], Deliver(c, t, Stamped(msg, c)), o);
    assert QueueOk(s, t);
    assert s.procs[t].status == Receiving ==> Pending(s, t) == [];
    Regroup(Received(s.log, o), Pending(s, o), [(c, Stamped(msg, c))]);
  }

  lemma ReplyStructured(s: State, server: Pid, t: Pid, msg: Msg)
    requires Structured(s) && !(Answers(s, server, t) && Queued(s, t))
    ensures Structured(ReplyStep(s, server, t, msg))
  {
    var s' := ReplyStep(s, server, t, msg);
    forall o | o in s'.procs ensures QueueOk(s', o) {
      assert QueueOk(s, o);
      assert Answers(s, server, t) ==> t !in s.queue[o];
    }
  }

  lemma ReplyPhases(s: State, server: Pid, t: Pid, msg: Msg, p: Pid)
    requires Structured(s) && !(Answers(s, server, t) && Queued(s, t)) && PhaseOk(s, p)
    ensures PhaseOk(ReplyStep(s, server, t, msg), p)
  {
    LogStep(s.log, Reply(t, server, msg), p);
  }

  lemma ReplyFifo(s: State, server: Pid, t: Pid, msg: Msg, o: Pid)
    requires Structured(s) && !(Answers(s, server, t) && Queued(s, t)) && o in s.procs && Fifo(s, o)
    ensures Fifo(ReplyStep(s, server, t, msg), o)
  {
    var s' := ReplyStep(s, server, t, msg);
    LogStep(s.log, Reply(t, server, msg), o);
    assert QueueOk(s, o);
    forall i | 0 <= i < |s.queue[o]| ensures Request(s', s.queue[o][i]) == Request(s, s.queue[o][i]) {
      assert Answers(s, o, s.queue[o][i]);
    }
    assert Pending(s', o) == Pending(s, o);
  }

  lemma WaitStructured(s: State, server: Pid)
    requires Structured(s) && Runs(s, server)
    ensures QueueOk(s, server) && Structured(WaitStep(s, server))
  {
    assert QueueOk(s, server);
    var s' := WaitStep(s, server);
    forall o | o in s'.procs ensures QueueOk(s', o) {
      assert QueueOk(s, o);
      assert o == server && s.queue[o] != [] ==> s'.queue[o] == s.queue[o][1..];
    }
  }

  lemma WaitPhases(s: State, server: Pid, p: Pid)
    requires Structured(s) && Runs(s, server) && QueueOk(s, server) && PhaseOk(s, p)
    ensures PhaseOk(WaitStep(s, server), p)
  {
    var q := s.queue[server];
    if q != [] {
      LogStep(s.log, Deliver(q[0], server, Stamped(s.procs[q[0]].buffer, q[0])), p);
      assert Answers(s, server, q[0]);
      assert p in q && p != q[0] ==> p in q[1..];
    }
  }

  lemma WaitRequests(s: State, server: Pid, o: Pid)
    requires Structured(s) && Runs(s, server) && QueueOk(s, server) && o in s.procs
    ensures var s', q := WaitStep(s, server), s.queue[server];
      Pending(s, o) == if o == server && q != [] then [Request(s, q[0])] + Pending(s', o) else Pending(s', o)
  {
    var s', q := WaitStep(s, server), s.queue[server];
    assert QueueOk(s, o);
    forall i | 0 <= i < |s.queue[o]| ensures Request(s', s.queue[o][i]) == Request(s, s.queue[o][i]) {
      assert Answers(s, o, s.queue[o][i]);
    }
  }

  lemma WaitFifo(s: State, server: Pid, o: Pid)
    requires Structured(s) && Runs(s, server) && QueueOk(s, server) && o in s.procs && Fifo(s, o)
    ensures Fifo(WaitStep(s, server), o)
  {
    var s', q := WaitStep(s, server), s.queue[server];
    WaitRequests(s, server, o);
    if q != [] {
      LogStep(s.log, Deliver(q[0], server, Stamped(s.procs[q[0]].buffer, q[0])), o);
      Regroup(Received(s.log, o), [Request(s, q[0])], Pending(s', o));
    }
  }

  lemma CallKnown(s: State, c: Pid, t: Pid, msg: Msg)
    requires Structured(s) && LogKnown(s) && Runs(s, c) && t in s.procs
    ensures LogKnown(CallStep(s, c, t, msg))
  {
    KnownStep(s.log, Call(c, t, msg), s.procs);
    KnownStep(s.log + [Call(c, t, msg)], Deliver(c, t, Stamped(msg, c)), s.procs);
  }

  lemma ReplyKnown(s: State, server: Pid, t: Pid, msg: Msg)
    requires Inv(s) && !(Answers(s, server, t) && Queued(s, t))
    ensures LogKnown(ReplyStep(s, server, t, msg))
  {
    if Answers(s, server, t) {
      assert PhaseOk(s, t);
      var j, k, m := HeardWhen(s.log, t);
      KnownStep(s.log, Reply(t, server, msg), s.procs);
    }
  }

  lemma WaitKnown(s: State, server: Pid)
    requires Structured(s) && LogKnown(s) && QueueOk(s, server)
    ensures LogKnown(WaitStep(s, server))
  {
    var q := s.queue[server];
    if q != [] {
      KnownStep(s.log, Deliver(q[0], server, Stamped(s.procs[q[0]].buffer, q[0])), s.procs);
    }
  }

  lemma CallKeeps(s: State, c: Pid, t: Pid, msg: Msg)
    requires Inv(s) && Runs(s, c) && t in s.procs
    ensures Inv(CallStep(s, c, t, msg))
  {
    CallStructured(s, c, t, msg);
    CallKnown(s, c, t, msg);
    forall p | p in s.procs ensures PhaseOk(CallStep(s, c, t, msg), p) && Fifo(CallStep(s, c, t, msg), p) {
      CallPhases(s, c, t, msg, p);
      CallFifo(s, c, t, msg, p);
    }
  }

  lemma ReplyKeeps(s: State, server: Pid, t: Pid, msg: Msg)
    requires Inv(s) && !(Answers(s, server, t) && Queued(s, t))
    ensures Inv(ReplyStep(s, server, t, msg))
  {
    ReplyStructured(s, server, t, msg);
    ReplyKnown(s, server, t, msg);
    forall p | p in s.procs ensures PhaseOk(ReplyStep(s, server, t, msg), p) && Fifo(ReplyStep(s, server, t, msg), p) {
      ReplyPhases(s, server, t, msg, p);
      ReplyFifo(s, server, t, msg, p);
    }
  }

  lemma WaitKeeps(s: State, server: Pid)
    requires Inv(s) && Runs(s, server)
    ensures QueueOk(s, server) && Inv(WaitStep(s, server))
  {
    WaitStructured(s, server);
    WaitKnown(s, server);
    forall p | p in s.procs ensures PhaseOk(WaitStep(s, server), p) && Fifo(WaitStep(s, server), p) {
      WaitPhases(s, server, p);
      WaitFifo(s, server, p);
    }
  }

  // ---- replying too early ----

  /** Once out of order, a client's history stays out of order. */
  lemma {:induction false} BrokenStays(log: seq<Event>, i: nat, c: Pid)
    requires i <= |log| && PhaseOf(log[..i], c) == Broken
    ensures PhaseOf(log, c) == Broken
  {
    if i < |log| {
      assert log[..|log| - 1][..i] == log[..i];
      BrokenStays(log[..|log| - 1], i, c);
    } else {
      assert log[..i] == log;
    }
  }

  /** A call to reply_wait: the reply, if both its arguments are given, then the wait. */
  function ReplyWait(s: State, server: Pid, reply: Option<(Pid, Msg)>): State
    requires Structured(s) && Runs(s, server)
  {
    var s1 := if reply.Some? then ReplyStep(s, server, reply.value.0, reply.value.1) else s;
    assert QueueOk(s, server);
    WaitStep(s1, server)
  }

  /** The client being answered has been heard by this server and not answered since; a reply to nobody is harmless. */
  predicate InTurn(s: State, server: Pid, reply: Option<(Pid, Msg)>) {
    reply.Some? && Answers(s, server, reply.value.0) ==> PhaseOf(s.log, reply.value.0) == Heard(server)
  }

  /** reply_wait keeps the protocol exactly when it answers in turn. */
  lemma ReplyWaitExact(s: State, server: Pid, reply: Option<(Pid, Msg)>)
    requires Inv(s) && Runs(s, server)
    ensures Inv(ReplyWait(s, server, reply)) <==> InTurn(s, server, reply)
  {
    var s' := ReplyWait(s, server, reply);
    if reply.Some? && Answers(s, server, reply.value.0) {
      var t, m := reply.value.0, reply.value.1;
      assert PhaseOk(s, t);
      var s1 := ReplyStep(s, server, t, m);
      LogStep(s.log, Reply(t, server, m), t);
      if Queued(s, t) {
        assert s'.log[..|s1.log|] == s1.log;
        BrokenStays(s'.log, |s1.log|, t);
        assert !PhaseOk(s', t) && t in s'.procs;
      } else {
        ReplyKeeps(s, server, t, m);
        WaitKeeps(s1, server);
      }
    } else {
      WaitKeeps(s, server);
    }
  }

  // ---- whole runs ----

  datatype Step = DoCall(client: Pid, target: Pid, msg: Msg) | DoReplyWait(server: Pid, reply: Option<(Pid, Msg)>)

  /** A system call by a process that runs; a call to a process that does not exist fails and changes nothing. */
  ghost predicate Next(s: State, step: Step, s': State) {
    Structured(s) &&
    match step
    case DoCall(c, t, msg) => Runs(s, c) && s' == if t in s.procs then CallStep(s, c, t, msg) else s
    case DoReplyWait(server, reply) => Runs(s, server) && InTurn(s, server, reply) && s' == ReplyWait(s, server, reply)
  }

  ghost predicate Init(s: State) {
    && s.queue.Keys == s.procs.Keys && s.log == []
    && forall p | p in s.procs :: s.procs[p].status == Idle && s.procs[p].ready && s.queue[p] == []
  }

  lemma InitInv(s: State)
    requires Init(s)
    ensures Inv(s)
  {
    forall o | o in s.procs ensures QueueOk(s, o) && Fifo(s, o) {
      assert Pending(s, o) == [];
    }
  }

  /** An early reply is possible: a server answers a client whose request it never received. */
  lemma EarlyReply(m: Msg) returns (s: State, reply: Option<(Pid, Msg)>)
    ensures Inv(s) && Runs(s, 1) && !InTurn(s, 1, reply) && !Inv(ReplyWait(s, 1, reply))
  {
    var p := Proc(Idle, 0, m, true);
    var s0 := State(map[1 := p, 2 := p], map[1 := [], 2 := []], []);
    InitInv(s0);
    CallKeeps(s0, 2, 1, m);
    s, reply := CallStep(s0, 2, 1, m), Some((2, m));
    LogStep([], Call(2, 1, m), 2);
    ReplyWaitExact(s, 1, reply);
  }

  ghost predicate IsRun(ss: seq<State>, steps: seq<Step>) {
    |ss| == |steps| + 1 && Init(ss[0]) && forall i | 0 <= i < |steps| :: Next(ss[i], steps[i], ss[i + 1])
  }

  /** Every state of every run has well-formed queues and a log that keeps the protocol. */
  lemma {:induction false} RunKeeps(ss: seq<State>, steps: seq<Step>, k: nat)
    requires IsRun(ss, steps) && k < |ss|
    ensures Inv(ss[k])
  {
    if k == 0 {
      InitInv(ss[0]);
    } else {
      RunKeeps(ss, steps, k - 1);
      assert Next(ss[k - 1], steps[k - 1], ss[k]);
      match steps[k - 1]
      case DoCall(c, t, msg) =>
        if t in ss[k - 1].procs {
          CallKeeps(ss[k - 1], c, t, msg);
        }
      case DoReplyWait(server, reply) => ReplyWaitExact(ss[k - 1], server, reply);
    }
  }

  /** In every run each server receives the requests made to it in call order, none twice and none it was not sent. */
  lemma ExactlyOnceInOrder(ss: seq<State>, steps: seq<Step>, k: nat, o: Pid)
    requires IsRun(ss, steps) && k < |ss| && o in ss[k].procs
    ensures o in ss[k].queue && Received(ss[k].log, o) <= Requested(ss[k].log, o)
    ensures |Requested(ss[k].log, o)| == |Received(ss[k].log, o)| + |ss[k].queue[o]|
  {
    RunKeeps(ss, steps, k);
    assert Fifo(ss[k], o) && QueueOk(ss[k], o);
  }

  // ---- each call completes once, answered by its own callee ----

  /** No event of client `c` strictly between `a` and `b`. */
  ghost predicate Quiet(log: seq<Event>, a: int, b: int, c: Pid) {
    forall i | 0 <= i < |log| && a < i < b :: log[i].client != c
  }

  lemma {:induction false} AskedWhen(log: seq<Event>, c: Pid) returns (j: nat)
    requires PhaseOf(log, c).Asked?
    ensures j < |log| && log[j] == Call(c, PhaseOf(log, c).server, PhaseOf(log, c).msg) && Quiet(log, j, |log|, c)
  {
    j := |log| - 1;
    if log[j].client != c {
      j := AskedWhen(log[..|log| - 1], c);
    }
  }

  lemma {:induction false} HeardWhen(log: seq<Event>, c: Pid) returns (j: nat, k: nat, m: Msg)
    requires PhaseOf(log, c).Heard?
    ensures j < k < |log| && log[j] == Call(c, PhaseOf(log, c).server, m)
    ensures log[k] == Deliver(c, PhaseOf(log, c).server, Stamped(m, c))
    ensures Quiet(log, j, k, c) && Quiet(log, k, |log|, c)
  {
    k := |log| - 1;
    if log[k].client != c {
      j, k, m := HeardWhen(log[..|log| - 1], c);
    } else {
      m := PhaseOf(log[..k], c).msg;
      j := AskedWhen(log[..k], c);
    }
  }

  /** Before each reply of an unbroken history: the client's one open call, and the delivery of its message. */
  lemma ReplyInLog(log: seq<Event>, i: nat) returns (j: nat, k: nat, m: Msg)
    requires i < |log| && log[i].Reply? && PhaseOf(log, log[i].client) != Broken
    ensures Answered(log, i, j, k, m)
  {
    var c := log[i].client;
    assert log[..i + 1][..i] == log[..i];
    if PhaseOf(log[..i + 1], c) == Broken {
      BrokenStays(log, i + 1, c);
      assert false;
    }
    j, k, m := HeardWhen(log[..i], c);
    StampedWords(m, c);
  }

  ghost predicate Answered(log: seq<Event>, i: nat, j: nat, k: nat, m: Msg) {
    && j < k < i < |log|
    && var c, s := log[i].client, log[i].server;
       && log[j] == Call(c, s, m) && log[k] == Deliver(c, s, Msg(m.kind, m.data1, m.data2, m.data3, c))
       && Quiet(log, j, k, c) && Quiet(log, k, i, c)
  }

  /**
   * In every run, every message a server receives is that of the client's one open call to it: four words as the
   * client sent them, and the client's pid.
   */
  lemma DeliveredAsCalled(ss: seq<State>, steps: seq<Step>, n: nat, k: nat) returns (j: nat, m: Msg)
    requires IsRun(ss, steps) && n < |ss| && k < |ss[n].log| && ss[n].log[k].Deliver?
    ensures var log := ss[n].log; var c := log[k].client;
      && j < k && log[j] == Call(c, log[k].server, m) && Quiet(log, j, k, c)
      && log[k].msg == Msg(m.kind, m.data1, m.data2, m.data3, c)
  {
    RunKeeps(ss, steps, n);
    var log := ss[n].log;
    var c := log[k].client;
    assert PhaseOk(ss[n], c);
    assert log[..k + 1][..k] == log[..k];
    if PhaseOf(log[..k + 1], c) == Broken {
      BrokenStays(log, k + 1, c);
      assert false;
    }
    j := AskedWhen(log[..k], c);
    m := log[j].msg;
    StampedWords(m, c);
  }

  /** In every run, every reply answers the client's one open call, after the server received that call's message. */
  lemma ReplyAnswersCall(ss: seq<State>, steps: seq<Step>, n: nat, i: nat) returns (j: nat, k: nat, m: Msg)
    requires IsRun(ss, steps) && n < |ss| && i < |ss[n].log| && ss[n].log[i].Reply?
    ensures Answered(ss[n].log, i, j, k, m)
  {
    RunKeeps(ss, steps, n);
    assert PhaseOk(ss[n], ss[n].log[i].client);
    j, k, m := ReplyInLog(ss[n].log, i);
  }

  /** In every run, a caller that was answered last holds its own callee's reply. */
  lemma AnswerHeld(ss: seq<State>, steps: seq<Step>, n: nat, i: nat)
    requires IsRun(ss, steps) && n < |ss| && i < |ss[n].log| && ss[n].log[i].Reply?
    requires forall l | i < l < |ss[n].log| :: !Writes(ss[n].log[l], ss[n].log[i].client)
    ensures ss[n].log[i].client in ss[n].procs && ss[n].procs[ss[n].log[i].client].buffer == ss[n].log[i].msg
  {
    RunKeeps(ss, steps, n);
    assert PhaseOk(ss[n], ss[n].log[i].client);
    LastIs(ss[n].log, i, ss[n].log[i].client);
  }

  /** In every run, a server that received a request last holds it as it was delivered. */
  lemma RequestHeld(ss: seq<State>, steps: seq<Step>, n: nat, i: nat)
    requires IsRun(ss, steps) && n < |ss| && i < |ss[n].log| && ss[n].log[i].Deliver?
    requires forall l | i < l < |ss[n].log| :: !Writes(ss[n].log[l], ss[n].log[i].server)
    ensures ss[n].log[i].server in ss[n].procs && ss[n].procs[ss[n].log[i].server].buffer == ss[n].log[i].msg
  {
    RunKeeps(ss, steps, n);
    assert PhaseOk(ss[n], ss[n].log[i].server);
    LastIs(ss[n].log, i, ss[n].log[i].server);
  }

  lemma {:induction false} LastIs(log: seq<Event>, i: nat, p: Pid)
    requires i < |log| && Writes(log[i], p) && forall l | i < l < |log| :: !Writes(log[l], p)
    ensures LastWritten(log, p) == Some(log[i].msg)
  {
    if i < |log| - 1 {
      assert log[..|log| - 1][i] == log[i];
      LastIs(log[..|log| - 1], i, p);
    }
  }

  // ---- every call and every reply that is made is in the log, and waiting servers are served ----

  /** The calls of a history, as (client, server, message). */
  function Calls(log: seq<Event>): seq<(Pid, Pid, Msg)> {
    if log == [] then []
    else
      var e, before := log[|log| - 1], Calls(log[..|log| - 1]);
      if e.Call? then before + [(e.client, e.server, e.msg)] else before
  }

  function Replies(log: seq<Event>): seq<(Pid, Pid, Msg)> {
    if log == [] then []
    else
      var e, before := log[|log| - 1], Replies(log[..|log| - 1]);
      if e.Reply? then before + [(e.client, e.server, e.msg)] else before
  }

  /** The call a step makes: one to a process that exists. */
  function CallOf(s: State, step: Step): seq<(Pid, Pid, Msg)> {
    if step.DoCall? && step.target in s.procs then [(step.client, step.target, step.msg)] else []
  }

  /** The reply a step gives: one to a client whose request the server has received and not answered. */
  function ReplyOf(s: State, step: Step): seq<(Pid, Pid, Msg)> {
    if step.DoReplyWait? && step.reply.Some? && PhaseOf(s.log, step.reply.value.0) == Heard(step.server) then
      [(step.reply.value.0, step.server, step.reply.value.1)]
    else []
  }

  function CallsMade(ss: seq<State>, steps: seq<Step>, k: nat): seq<(Pid, Pid, Msg)>
    requires k <= |steps| <= |ss|
  {
    if k == 0 then [] else CallsMade(ss, steps, k - 1) + CallOf(ss[k - 1], steps[k - 1])
  }

  function RepliesMade(ss: seq<State>, steps: seq<Step>, k: nat): seq<(Pid, Pid, Msg)>
    requires k <= |steps| <= |ss|
  {
    if k == 0 then [] else RepliesMade(ss, steps, k - 1) + ReplyOf(ss[k - 1], steps[k - 1])
  }

  lemma EventStep(log: seq<Event>, e: Event)
    ensures Calls(log + [e]) == Calls(log) + if e.Call? then [(e.client, e.server, e.msg)] else []
    ensures Replies(log + [e]) == Replies(log) + if e.Reply? then [(e.client, e.server, e.msg)] else []
  {
    assert (log + [e])[..|log|] == log;
  }

  lemma CallEvents(s: State, c: Pid, t: Pid, msg: Msg)
    requires Inv(s) && Runs(s, c) && t in s.procs
    ensures t in s.queue && Calls(CallStep(s, c, t, msg).log) == Calls(s.log) + [(c, t, msg)]
    ensures Replies(CallStep(s, c, t, msg).log) == Replies(s.log)
  {
    EventStep(s.log, Call(c, t, msg));
    EventStep(s.log + [Call(c, t, msg)], Deliver(c, t, Stamped(msg, c)));
  }

  /** The state once the reply, if any, is given and before the wait. */
  function Given(s: State, server: Pid, reply: Option<(Pid, Msg)>): State {
    if reply.Some? then ReplyStep(s, server, reply.value.0, reply.value.1) else s
  }

  lemma GivenEvents(s: State, server: Pid, reply: Option<(Pid, Msg)>)
    requires Inv(s) && Runs(s, server) && InTurn(s, server, reply)
    ensures var s1 := Given(s, server, reply);
      && Inv(s1) && Runs(s1, server) && Calls(s1.log) == Calls(s.log)
      && Replies(s1.log) == Replies(s.log) + ReplyOf(s, DoReplyWait(server, reply))
      && Requested(s1.log, server) == Requested(s.log, server) && Received(s1.log, server) == Received(s.log, server)
  {
    if reply.Some? {
      var t, msg := reply.value.0, reply.value.1;
      EventStep(s.log, Reply(t, server, msg));
      LogStep(s.log, Reply(t, server, msg), server);
      if t in s.procs {
        assert PhaseOk(s, t);
      } else {
        UnknownFree(s, |s.log|, t);
      }
      ReplyKeeps(s, server, t, msg);
    }
  }

  lemma WaitEvents(s: State, server: Pid)
    requires Inv(s) && Runs(s, server)
    ensures QueueOk(s, server) && (s.queue[server] != [] ==> s.queue[server][0] in s.procs)
    ensures Calls(WaitStep(s, server).log) == Calls(s.log) && Replies(WaitStep(s, server).log) == Replies(s.log)
  {
    assert QueueOk(s, server);
    if s.queue[server] != [] {
      var c := s.queue[server][0];
      assert Answers(s, server, c);
      EventStep(s.log, Deliver(c, server, Stamped(s.procs[c].buffer, c)));
    }
  }

  /** A process that does not exist has made no call. */
  lemma {:induction false} UnknownFree(s: State, i: nat, t: Pid)
    requires LogKnown(s) && t !in s.procs && i <= |s.log|
    ensures PhaseOf(s.log[..i], t) == Free && s.log[..|s.log|] == s.log
  {
    if i > 0 {
      assert s.log[..i][..i - 1] == s.log[..i - 1];
      UnknownFree(s, i - 1, t);
    }
  }

  lemma StepEvents(s: State, step: Step, s': State)
    requires Inv(s) && Next(s, step, s')
    ensures Calls(s'.log) == Calls(s.log) + CallOf(s, step)
    ensures Replies(s'.log) == Replies(s.log) + ReplyOf(s, step)
  {
    match step
    case DoCall(c, t, msg) =>
      if t in s.procs {
        CallEvents(s, c, t, msg);
      }
    case DoReplyWait(server, reply) =>
      GivenEvents(s, server, reply);
      WaitEvents(Given(s, server, reply), server);
  }

  ghost predicate Logged(ss: seq<State>, steps: seq<Step>, k: nat) {
    && k < |steps| < |ss|
    && Calls(ss[k + 1].log) == Calls(ss[k].log) + CallOf(ss[k], steps[k])
    && Replies(ss[k + 1].log) == Replies(ss[k].log) + ReplyOf(ss[k], steps[k])
  }

  lemma {:induction false} LoggedAll(ss: seq<State>, steps: seq<Step>, k: nat)
    requires k <= |steps| < |ss| && ss[0].log == [] && forall i: nat | i < k :: Logged(ss, steps, i)
    ensures Calls(ss[k].log) == CallsMade(ss, steps, k) && Replies(ss[k].log) == RepliesMade(ss, steps, k)
  {
    if k > 0 {
      LoggedAll(ss, steps, k - 1);
      assert Logged(ss, steps, k - 1);
    }
  }

  /** In every run the log holds exactly the calls and the replies that were made, in their order. */
  lemma LogIsSteps(ss: seq<State>, steps: seq<Step>, k: nat)
    requires IsRun(ss, steps) && k <= |steps|
    ensures Calls(ss[k].log) == CallsMade(ss, steps, k) && Replies(ss[k].log) == RepliesMade(ss, steps, k)
  {
    forall i: nat | i < k ensures Logged(ss, steps, i) {
      RunKeeps(ss, steps, i);
      StepEvents(ss[i], steps[i], ss[i + 1]);
    }
    LoggedAll(ss, steps, k);
  }

  /** In every run a server that sleeps has received everything it was sent. */
  lemma SleepingServed(ss: seq<State>, steps: seq<Step>, k: nat, o: Pid)
    requires IsRun(ss, steps) && k < |ss| && o in ss[k].procs && ss[k].procs[o].status == Receiving
    ensures Received(ss[k].log, o) == Requested(ss[k].log, o)
  {
    RunKeeps(ss, steps, k);
    assert Fifo(ss[k], o) && QueueOk(ss[k], o);
  }

  /** The waiting server `o` gets its oldest request that it has not received, or sleeps if there is none. */
  ghost predicate Served(s: State, o: Pid, s': State) {
    var done, all := Received(s.log, o), Requested(s.log, o);
    && o in s'.procs && Requested(s'.log, o) == all
    && if done == all then s'.procs[o].status == Receiving && Received(s'.log, o) == all
       else |done| < |all| && s'.procs[o].status == Idle && Received(s'.log, o) == done + [all[|done|]]
  }

  lemma WaitServes(s: State, server: Pid)
    requires Inv(s) && Runs(s, server)
    ensures QueueOk(s, server) && (s.queue[server] != [] ==> s.queue[server][0] in s.procs)
    ensures Served(s, server, WaitStep(s, server))
  {
    assert QueueOk(s, server) && Fifo(s, server);
    if s.queue[server] != [] {
      var c := s.queue[server][0];
      assert Answers(s, server, c) && Pending(s, server)[0] == Request(s, c);
      LogStep(s.log, Deliver(c, server, Stamped(s.procs[c].buffer, c)), server);
    }
  }

  /** In every run each wait of a server serves it. */
  lemma ReplyWaitServes(ss: seq<State>, steps: seq<Step>, k: nat)
    requires IsRun(ss, steps) && k < |steps| && steps[k].DoReplyWait?
    ensures Served(ss[k], steps[k].server, ss[k + 1])
  {
    RunKeeps(ss, steps, k);
    var server, reply := steps[k].server, steps[k].reply;
    assert Next(ss[k], steps[k], ss[k + 1]);
    GivenEvents(ss[k], server, reply);
    WaitServes(Given(ss[k], server, reply), server);
  }
}
