/** The circular list of all processes: insertion, search, and reaping with its unlink. */
module ProcList {
  import opened Common

  /** Where a record is allocated. */
  type Addr = nat

  /** A process record: its pid, its link, its parent's pid and whether it is a zombie. */
  datatype Proc = Proc(pid: Pid, next: Addr, ppid: Pid, zombie: bool)

  /** The allocated records. */
  type Table = map<Addr, Proc>

  /** The member after position `i`, going round. */
  function After(c: seq<Addr>, i: nat): Addr
    requires i < |c|
  {
    if i + 1 < |c| then c[i + 1] else c[0]
  }

  ghost predicate Covers(t: Table, c: seq<Addr>) {
    forall p :: p in t <==> p in c
  }

  ghost predicate LinkAt(t: Table, c: seq<Addr>, i: nat) {
    i < |c| ==> c[i] in t && t[c[i]].next == After(c, i)
  }

  ghost predicate Linked(t: Table, c: seq<Addr>) {
    forall i: nat :: LinkAt(t, c, i)
  }

  /** The links from `head` run once through `c` and back; `c` is exactly the table's processes. */
  ghost predicate Cycle(t: Table, head: Option<Addr>, c: seq<Addr>) {
    head == (if c == [] then None else Some(c[0])) && Distinct(c) && Covers(t, c) && Linked(t, c)
  }

  // ---- insertion ----

  /** The cycle with `p` right behind its head. */
  function Inserted(c: seq<Addr>, p: Addr): seq<Addr>
    requires c != []
  {
    [c[0], p] + c[1..]
  }

  lemma InsertedAt(c: seq<Addr>, p: Addr, i: nat)
    requires c != [] && i <= |c|
    ensures |Inserted(c, p)| == |c| + 1 && Inserted(c, p)[i] == if i == 0 then c[0] else if i == 1 then p else c[i - 1]
  {
  }

  lemma InsertDistinct(c: seq<Addr>, p: Addr)
    requires c != [] && Distinct(c) && p !in c
    ensures Distinct(Inserted(c, p))
  {
    forall i, j | 0 <= i < j < |Inserted(c, p)| ensures Inserted(c, p)[i] != Inserted(c, p)[j] {
      InsertedAt(c, p, i);
      InsertedAt(c, p, j);
    }
  }

  lemma InsertKeeps(t: Table, c: seq<Addr>, p: Addr, r: Proc)
    requires c != [] && Cycle(t, Some(c[0]), c) && p !in t && c[0] in t && r.next == t[c[0]].next
    ensures Cycle(t[p := r][c[0] := t[c[0]].(next := p)], Some(c[0]), Inserted(c, p))
  {
    var t', c' := t[p := r][c[0] := t[c[0]].(next := p)], Inserted(c, p);
    InsertDistinct(c, p);
    InsertLinked(t, c, p, r);
    assert c == [c[0]] + c[1..];
    assert Covers(t', c');
  }

  lemma InsertLinked(t: Table, c: seq<Addr>, p: Addr, r: Proc)
    requires c != [] && Linked(t, c) && Distinct(c) && p !in c && c[0] in t && r.next == t[c[0]].next
    ensures Linked(t[p := r][c[0] := t[c[0]].(next := p)], Inserted(c, p))
  {
    var t', c' := t[p := r][c[0] := t[c[0]].(next := p)], Inserted(c, p);
    assert LinkAt(t, c, 0);
    forall i: nat ensures LinkAt(t', c', i) {
      if i < |c'| {
        InsertedAt(c, p, i);
        if i + 1 < |c'| {
          InsertedAt(c, p, i + 1);
        }
        if i >= 2 {
          assert LinkAt(t, c, i - 1) && c[i - 1] != c[0];
        }
      }
    }
  }

  // ---- unlinking ----

  /** The cycle without position `k`. */
  function Without(c: seq<Addr>, k: nat): seq<Addr>
    requires k < |c|
  {
    c[..k] + c[k + 1..]
  }

  /** The position before `k`, going round. */
  function Before(c: seq<Addr>, k: nat): (i: nat)
    requires k < |c|
    ensures i < |c| && After(c, i) == c[k]
  {
    if k == 0 then |c| - 1 else k - 1
  }

  /** The links after the predecessor of `k` was pointed past it and `k` was freed. */
  function Unlinked(t: Table, c: seq<Addr>, k: nat): Table
    requires k < |c| && c[k] in t && c[Before(c, k)] in t
  {
    t[c[Before(c, k)] := t[c[Before(c, k)]].(next := t[c[k]].next)] - {c[k]}
  }

  lemma WithoutAt(c: seq<Addr>, k: nat, i: nat)
    requires k < |c| && i < |c| - 1
    ensures Without(c, k)[i] == if i < k then c[i] else c[i + 1]
  {
  }

  lemma WithoutDistinct(c: seq<Addr>, k: nat)
    requires k < |c| && Distinct(c)
    ensures Distinct(Without(c, k)) && c[k] !in Without(c, k)
  {
    forall i, j | 0 <= i < j < |c| - 1 ensures Without(c, k)[i] != Without(c, k)[j] {
      WithoutAt(c, k, i);
      WithoutAt(c, k, j);
    }
    forall i | 0 <= i < |c| - 1 ensures Without(c, k)[i] != c[k] {
      WithoutAt(c, k, i);
    }
  }

  lemma WithoutLinked(t: Table, c: seq<Addr>, k: nat)
    requires k < |c| && Distinct(c) && Linked(t, c)
    ensures c[k] in t && c[Before(c, k)] in t && Linked(Unlinked(t, c, k), Without(c, k))
  {
    assert LinkAt(t, c, k) && LinkAt(t, c, Before(c, k));
    var t', c' := Unlinked(t, c, k), Without(c, k);
    forall i: nat ensures LinkAt(t', c', i) {
      if i < |c'| {
        WithoutAt(c, k, i);
        assert LinkAt(t, c, i) && LinkAt(t, c, i + 1);
        WithoutAt(c, k, if i + 1 < |c'| then i + 1 else 0);
      }
    }
  }

  lemma UnlinkKeeps(t: Table, c: seq<Addr>, k: nat)
    requires c != [] && Cycle(t, Some(c[0]), c) && k < |c|
    ensures c[k] in t && c[Before(c, k)] in t
    ensures Cycle(Unlinked(t, c, k), if |c| == 1 then None else Some(if k == 0 then c[1] else c[0]), Without(c, k))
  {
    WithoutDistinct(c, k);
    WithoutLinked(t, c, k);
    assert c == c[..k] + [c[k]] + c[k + 1..];
    assert Covers(Unlinked(t, c, k), Without(c, k));
  }

  // ---- walking the cycle ----

  lemma AfterIsHead(c: seq<Addr>, i: nat)
    requires Distinct(c) && i < |c|
    ensures After(c, i) == c[0] <==> i + 1 == |c|
  {
  }

  /** The walk ends at the first record that has the pid, if one has it. */
  method Find(t: Table, head: Option<Addr>, pid: Pid, ghost c: seq<Addr>) returns (found: Option<Addr>, ghost k: nat)
    requires Cycle(t, head, c)
    ensures found == None <==> forall p | p in t :: t[p].pid != pid
    ensures found.Some? ==> k < |c| && c[k] == found.value && c[k] in t && t[c[k]].pid == pid
    ensures found.Some? ==> forall j | 0 <= j < k :: c[j] in t && t[c[j]].pid != pid
  {
    k := 0;
    if head == None {
      return None, 0;
    }
    var p := head.value;
    while true
      invariant k < |c| && p == c[k] && forall j | 0 <= j < k :: c[j] in t && t[c[j]].pid != pid
      decreases |c| - k
    {
      assert LinkAt(t, c, k);
      if t[p].pid == pid {
        return Some(p), k;
      }
      AfterIsHead(c, k);
      p := t[p].next;
      k := k + 1;
      if p == head.value {
        return None, k;
      }
    }
  }

  /** A child of `parent` that the caller asked for; no selection means any child. */
  predicate Matches(t: Table, p: Addr, parent: Pid, sel: Option<Pid>) {
    p in t && t[p].ppid == parent && (sel == None || sel.value == t[p].pid)
  }

  predicate Reapable(t: Table, p: Addr, parent: Pid, sel: Option<Pid>) {
    Matches(t, p, parent, sel) && t[p].zombie
  }

  /** wait4 with no selection means all children, with one only that child, and takes only zombies. */
  lemma AskedFor(t: Table, p: Addr, parent: Pid, pid: Pid)
    ensures Matches(t, p, parent, None) <==> p in t && t[p].ppid == parent
    ensures Matches(t, p, parent, Some(pid)) <==> p in t && t[p].ppid == parent && t[p].pid == pid
    ensures Reapable(t, p, parent, None) <==> p in t && t[p].ppid == parent && t[p].zombie
    ensures Reapable(t, p, parent, Some(pid)) <==> p in t && t[p].ppid == parent && t[p].pid == pid && t[p].zombie
  {
  }

  /** The search of wait4: the first zombie child asked for, else whether there is such a child and a live one. */
  method Search(t: Table, head: Addr, parent: Pid, sel: Option<Pid>, ghost c: seq<Addr>)
    returns (zombie: Option<Addr>, child: bool, live: bool, ghost k: nat)
    requires Cycle(t, Some(head), c)
    ensures zombie.Some? ==> k < |c| && c[k] == zombie.value && Reapable(t, c[k], parent, sel)
    ensures zombie.Some? ==> forall j | 0 <= j < k :: !Reapable(t, c[j], parent, sel)
    ensures zombie == None ==> forall j | 0 <= j < |c| :: !Reapable(t, c[j], parent, sel)
    ensures zombie == None ==> (child <==> exists p :: Matches(t, p, parent, sel)) && live == child
  {
    var p := head;
    child, live, k := false, false, 0;
    while true
      invariant k < |c| && p == c[k] && live == child
      invariant forall j | 0 <= j < k :: !Reapable(t, c[j], parent, sel) && (Matches(t, c[j], parent, sel) ==> child)
      invariant child ==> exists p :: Matches(t, p, parent, sel)
      decreases |c| - k
    {
      if Matches(t, p, parent, sel) {
        child := true;
        if t[p].zombie {
          return Some(p), child, live, k;
        }
        live := true;
      }
      assert LinkAt(t, c, k);
      AfterIsHead(c, k);
      p := t[p].next;
      k := k + 1;
      if p == head {
        return None, child, live, k;
      }
    }
  }

  /** The process whose link leads to `p`. */
  method Predecessor(t: Table, p: Addr, ghost c: seq<Addr>, ghost k: nat) returns (prev: Addr)
    requires Linked(t, c) && Distinct(c) && k < |c| && c[k] == p
    ensures prev == c[Before(c, k)]
  {
    prev := p;
    ghost var j: nat := k;
    assert LinkAt(t, c, j);
    while t[prev].next != p
      invariant j < |c| && prev == c[j] && LinkAt(t, c, j)
      decreases if j >= k then |c| - j + k else k - j
    {
      prev := t[prev].next;
      j := if j + 1 < |c| then j + 1 else 0;
      assert LinkAt(t, c, j);
    }
  }

  // ---- the list as an object ----

  datatype Outcome = Reaped(pid: Pid) | NoChild | NotYet | MustWait

  /** No two records share a pid. */
  ghost predicate PidsUnique(t: Table) {
    forall p: Addr, q: Addr {:trigger OwnPid(t, p, q)} :: OwnPid(t, p, q)
  }

  ghost predicate OwnPid(t: Table, p: Addr, q: Addr) {
    p in t && q in t && t[p].pid == t[q].pid ==> p == q
  }

  lemma SamePidsUnique(t: Table, t': Table)
    requires PidsUnique(t) && forall p | p in t' :: p in t && t'[p].pid == t[p].pid
    ensures PidsUnique(t')
  {
    forall p: Addr, q: Addr ensures OwnPid(t', p, q) {
      assert OwnPid(t, p, q);
    }
  }

  /** Every pid was handed out before the next one. */
  ghost predicate PidsBelow(t: Table, next: Pid) {
    forall p | p in t :: t[p].pid < next
  }

  /** The records of `t` are in `t'` with everything but their links as it was. */
  ghost predicate SameRecords(t: Table, t': Table) {
    forall p | p in t :: p in t' && t'[p] == t[p].(next := t'[p].next)
  }

  lemma UnlinkedRecords(t: Table, c: seq<Addr>, k: nat, next: Pid)
    requires k < |c| && c[k] in t && c[Before(c, k)] in t
    ensures Unlinked(t, c, k).Keys == t.Keys - {c[k]} && SameRecords(Unlinked(t, c, k), t)
    ensures PidsUnique(t) && PidsBelow(t, next) ==> PidsUnique(Unlinked(t, c, k)) && PidsBelow(Unlinked(t, c, k), next)
  {
    if PidsUnique(t) {
      SamePidsUnique(t, Unlinked(t, c, k));
    }
  }

  /** A record with the next pid keeps pids unique; the counter stays ahead of it unless it wraps. */
  lemma InsertNumbered(t: Table, p: Addr, r: Proc, h: Addr, next: Pid)
    requires p !in t && h in t && PidsUnique(t) && PidsBelow(t, r.pid)
    ensures var t' := t[p := r][h := t[h].(next := p)];
      PidsUnique(t') && (PidsBelow(t', next) <==> PidsBelow(t, next) && r.pid < next)
  {
    var t' := t[p := r][h := t[h].(next := p)];
    assert forall q | q in t :: t'[q].pid == t[q].pid;
    assert t'[p] == r;
    forall a: Addr, b: Addr ensures OwnPid(t', a, b) {
      assert OwnPid(t, a, b);
    }
  }

  const PIDS: nat := 0x1_0000_0000

  // ---- exiting and families ----

  const INIT_PID: Pid := 1

  /** The records after `self`, whose pid is `pid`, exited: a zombie, its children handed to pid 1. */
  ghost function Exited(t: Table, self: Addr, pid: Pid): Table {
    map p | p in t ::
      if p == self then t[p].(zombie := true)
      else if t[p].ppid == pid then t[p].(ppid := INIT_PID)
      else t[p]
  }

  /** Changing parents and states leaves the links and the pids. */
  ghost predicate SameLinks(t: Table, t': Table) {
    t'.Keys == t.Keys && forall p | p in t :: t'[p].next == t[p].next && t'[p].pid == t[p].pid
  }

  lemma LinksKept(t: Table, t': Table, head: Option<Addr>, c: seq<Addr>)
    requires Cycle(t, head, c) && SameLinks(t, t')
    ensures Cycle(t', head, c)
  {
    forall i: nat ensures LinkAt(t', c, i) {
      assert LinkAt(t, c, i);
    }
    assert forall p :: p in t' <==> p in t;
  }

  /** The first `k` of the list visited: their parents are changed where they were `self`. */
  ghost predicate Visited(t: Table, t': Table, c: seq<Addr>, k: nat, self: Addr, pid: Pid) {
    && t'.Keys == t.Keys
    && forall i | 0 <= i < |c| && c[i] in t ::
         t'[c[i]] == if i < k && t[c[i]].ppid == pid && c[i] != self then t[c[i]].(ppid := INIT_PID) else t[c[i]]
  }

  lemma VisitedNext(t: Table, t': Table, c: seq<Addr>, k: nat, self: Addr, pid: Pid, r: Proc)
    requires Visited(t, t', c, k, self, pid) && Distinct(c) && k < |c| && c[k] in t
    requires r == if t[c[k]].ppid == pid && c[k] != self then t[c[k]].(ppid := INIT_PID) else t[c[k]]
    ensures Visited(t, t'[c[k] := r], c, k + 1, self, pid)
  {
  }

  lemma VisitedAll(t: Table, t': Table, head: Option<Addr>, c: seq<Addr>, self: Addr, pid: Pid)
    requires Cycle(t, head, c) && Visited(t, t', c, |c|, self, pid) && self in t && t[self].zombie
    ensures t' == Exited(t, self, pid)
  {
    forall p | p in t ensures t'[p] == Exited(t, self, pid)[p] {
      assert p in c;
      var i :| 0 <= i < |c| && c[i] == p;
    }
  }

  /** The walk of do_exit over the whole list. */
  method Reparent(t: Table, head: Addr, self: Addr, pid: Pid, ghost c: seq<Addr>) returns (t': Table)
    requires Cycle(t, Some(head), c) && self in t && t[self].zombie
    ensures t' == Exited(t, self, pid)
  {
    t' := t;
    var p := head;
    ghost var k: nat := 0;
    while true
      invariant k < |c| && p == c[k] && Visited(t, t', c, k, self, pid)
      decreases |c| - k
    {
      assert LinkAt(t, c, k);
      AfterIsHead(c, k);
      var r := t'[p];
      if r.ppid == pid && p != self {
        r := r.(ppid := INIT_PID);
      }
      VisitedNext(t, t', c, k, self, pid, r);
      t' := t'[p := r];
      p := r.next;
      k := k + 1;
      if p == head {
        break;
      }
    }
    VisitedAll(t, t', Some(head), c, self, pid);
  }

  ghost predicate HasPid(t: Table, pid: Pid) {
    exists q :: q in t && t[q].pid == pid
  }

  ghost predicate Childless(t: Table, pid: Pid) {
    forall p | p in t :: t[p].ppid != pid
  }

  /** A process other than the first has another process in the list as its parent. */
  ghost predicate Parented(t: Table, init: Addr, p: Addr) {
    p in t && p != init ==> t[p].ppid != 0 && t[p].ppid != t[p].pid && HasPid(t, t[p].ppid)
  }

  /** A zombie has no children. */
  ghost predicate Settled(t: Table, p: Addr) {
    p in t && t[p].zombie ==> Childless(t, t[p].pid)
  }

  ghost predicate Families(t: Table, init: Addr) {
    && init in t && t[init].pid == INIT_PID && t[init].ppid == 0 && !t[init].zombie && PidsUnique(t)
    && (forall p | p in t :: t[p].pid != 0)
    && (forall p: Addr {:trigger Parented(t, init, p)} :: Parented(t, init, p))
    && forall p: Addr {:trigger Settled(t, p)} :: Settled(t, p)
  }

  /** So every zombie has a live parent to wait for it. */
  lemma ZombiesAwaited(t: Table, init: Addr, z: Addr)
    requires Families(t, init) && z in t && t[z].zombie
    ensures exists q :: q in t && t[q].pid == t[z].ppid && !t[q].zombie
  {
    assert Parented(t, init, z);
    var q :| q in t && t[q].pid == t[z].ppid;
    assert Settled(t, q);
  }

  /** Two tables in which the same processes have the same pids. */
  lemma SameHasPid(t: Table, t': Table, pid: Pid)
    requires t'.Keys == t.Keys && forall p | p in t :: t'[p].pid == t[p].pid
    ensures HasPid(t', pid) <==> HasPid(t, pid)
  {
    if HasPid(t, pid) {
      var q :| q in t && t[q].pid == pid;
      assert q in t' && t'[q].pid == pid;
    }
    if HasPid(t', pid) {
      var q :| q in t' && t'[q].pid == pid;
      assert q in t && t[q].pid == pid;
    }
  }

  lemma ExitFamilies(t: Table, init: Addr, self: Addr)
    requires Families(t, init) && self in t && self != init
    ensures Families(Exited(t, self, t[self].pid), init)
  {
    var pid := t[self].pid;
    var t' := Exited(t, self, pid);
    SamePidsUnique(t, t');
    assert HasPid(t', INIT_PID) by {
      assert t'[init].pid == INIT_PID;
    }
    assert OwnPid(t, self, init);
    forall p: Addr ensures Parented(t', init, p) {
      assert Parented(t, init, p) && OwnPid(t, p, init);
      if p in t {
        SameHasPid(t, t', t[p].ppid);
      }
    }
    forall p: Addr ensures Settled(t', p) {
      assert Settled(t, p) && Parented(t, init, self) && OwnPid(t, p, init) && OwnPid(t, p, self);
      ExitSettled(t, t', init, self, p);
    }
  }

  lemma ExitSettled(t: Table, t': Table, init: Addr, self: Addr, p: Addr)
    requires self in t && t' == Exited(t, self, t[self].pid) && Settled(t, p) && t[self].pid != INIT_PID
    requires init in t && t[init].pid == INIT_PID && !t[init].zombie && OwnPid(t, p, init)
    requires t[self].ppid != t[self].pid || p != self
    ensures Settled(t', p)
  {
  }

  /** A fatal signal hands no children over: it keeps families exactly if the process has none. */
  lemma KillExact(t: Table, init: Addr, p: Addr)
    requires Families(t, init) && p in t && p != init
    ensures Families(t[p := t[p].(zombie := true)], init) <==> Childless(t, t[p].pid)
  {
    var t' := t[p := t[p].(zombie := true)];
    SamePidsUnique(t, t');
    forall q: Addr ensures Parented(t', init, q) {
      assert Parented(t, init, q);
      if q in t {
        SameHasPid(t, t', t[q].ppid);
      }
    }
    SameChildless(t, t', t[p].pid);
    assert Settled(t', p) <==> Childless(t, t[p].pid);
    forall q: Addr | q != p ensures Settled(t', q) {
      assert Settled(t, q);
      if q in t {
        SameChildless(t, t', t[q].pid);
      }
    }
  }

  lemma SameChildless(t: Table, t': Table, pid: Pid)
    requires t'.Keys == t.Keys && forall p | p in t :: t'[p].ppid == t[p].ppid
    ensures Childless(t', pid) <==> Childless(t, pid)
  {
  }

  /** Taking a record out leaves every other with its parent exactly if it had no children. */
  lemma ReapExact(t: Table, t': Table, init: Addr, z: Addr)
    requires Families(t, init) && z in t && z != init && t'.Keys == t.Keys - {z} && SameRecords(t', t)
    ensures Families(t', init) <==> Childless(t', t[z].pid)
  {
    SamePidsUnique(t, t');
    forall p: Addr ensures Settled(t', p) {
      assert Settled(t, p);
    }
    forall p: Addr | Childless(t', t[z].pid) ensures Parented(t', init, p) {
      assert Parented(t, init, p);
      if p in t' && p != init {
        var q :| q in t && t[q].pid == t[p].ppid;
        assert q in t' && t'[q].pid == t'[p].ppid;
      }
    }
    if Families(t', init) {
      ReapedHadNone(t, t', init, z);
    }
  }

  lemma ReapedHadNone(t: Table, t': Table, init: Addr, z: Addr)
    requires Families(t, init) && z in t && z != init && t'.Keys == t.Keys - {z} && SameRecords(t', t)
    requires Families(t', init)
    ensures Childless(t', t[z].pid)
  {
    forall p | p in t' ensures t'[p].ppid != t[z].pid {
      assert Parented(t', init, p);
      if p != init {
        var q :| q in t' && t'[q].pid == t'[p].ppid;
        assert OwnPid(t, q, z);
      }
    }
  }

  lemma InsertFamilies(t: Table, t': Table, init: Addr, p: Addr, r: Proc, h: Addr, parent: Addr)
    requires Families(t, init) && parent in t && !t[parent].zombie && p !in t && h in t
    requires t' == t[p := r][h := t[h].(next := p)] && r.ppid == t[parent].pid && !r.zombie && PidsBelow(t, r.pid)
    ensures Families(t', init)
  {
    InsertNumbered(t, p, r, h, r.pid + 1);
    forall q: Addr ensures Parented(t', init, q) {
      assert Parented(t, init, q) && OwnPid(t', p, parent);
      if q == p {
        assert parent in t' && t'[parent].pid == t'[p].ppid;
      } else if q in t && q != init {
        var r :| r in t && t[r].pid == t[q].ppid;
        assert r in t' && t'[r].pid == t'[q].ppid;
      }
    }
    forall q: Addr ensures Settled(t', q) {
      assert Settled(t, q) && OwnPid(t, q, parent);
    }
  }

  class Processes {
    var table: Table
    var head: Option<Addr>
    /** The counter behind next_pid++. */
    var nextPid: Pid
    ghost var cycle: seq<Addr>
    /** The first process. */
    ghost const init: Addr

    /** One cycle through exactly the processes. */
    ghost predicate Valid()
      reads this
    {
      Cycle(table, head, cycle) && nextPid < PIDS
    }

    /** The counter is ahead of all processes, so no two have the same pid. */
    ghost predicate Numbered()
      reads this
    {
      PidsUnique(table) && PidsBelow(table, nextPid)
    }

    /** task_init: the first process, its own successor. */
    constructor (init: Addr)
      ensures Valid() && Numbered() && Families(table, init) && this.init == init && cycle == [init]
      ensures table == map[init := Proc(1, init, 0, false)] && nextPid == 2
    {
      this.init := init;
      table, head, nextPid, cycle := map[init := Proc(1, init, 0, false)], Some(init), 2, [init];
    }

    /** task_create_proc and task_fork: a new process right behind the head, with the next pid of 32 bits. */
    method Insert(p: Addr, parent: Addr) returns (pid: Pid)
      requires Valid() && p !in table && parent in table
      modifies this
      ensures Valid() && old(cycle) != [] && cycle == [old(cycle)[0], p] + old(cycle)[1..] && head == old(head)
      ensures pid == old(nextPid) && nextPid == (if pid == 0xFFFF_FFFF then 0 else pid + 1)
      ensures p in table && table[p].pid == pid && table[p].ppid == old(table)[parent].pid && !table[p].zombie
      ensures SameRecords(old(table), table) && table.Keys == old(table).Keys + {p}
      ensures old(Numbered()) ==> PidsUnique(table) && (Numbered() <==> pid + 1 < PIDS)
      ensures old(Numbered() && Families(table, init) && !table[parent].zombie) ==> Families(table, init)
    {
      ghost var t, numbered := table, Numbered();
      assert parent in cycle;
      assert LinkAt(table, cycle, 0);
      pid := nextPid;
      nextPid := if pid + 1 == PIDS then 0 else pid + 1;
      var r := Proc(pid, table[head.value].next, table[parent].pid, false);
      InsertKeeps(table, cycle, p, r);
      if old(Numbered()) {
        InsertNumbered(table, p, r, head.value, nextPid);
      }
      table := table[p := r][head.value := table[head.value].(next := p)];
      cycle := Inserted(cycle, p);
      if numbered && Families(t, init) && !t[parent].zombie {
        InsertFamilies(t, table, init, p, r, head.value, parent);
      }
    }

    /** do_exit: the process is a zombie, and its children are now those of the first process. */
    method Exit(self: Addr)
      requires Valid() && self in table
      modifies this`table
      ensures Valid() && table == Exited(old(table), self, old(table)[self].pid)
      ensures self in table && table[self] == old(table)[self].(zombie := true)
      ensures var pid := old(table)[self].pid;
        forall p | p in old(table) && p != self ::
          p in table && table[p] == old(table)[p].(ppid := if old(table)[p].ppid == pid then 1 else old(table)[p].ppid)
      ensures old(Numbered()) ==> Numbered()
      ensures old(Families(table, init)) && self != init ==> Families(table, init)
    {
      ghost var t := table;
      var t1 := table[self := table[self].(zombie := true)];
      assert self in cycle;
      LinksKept(table, t1, head, cycle);
      table := Reparent(t1, head.value, self, t1[self].pid, cycle);
      assert table == Exited(t, self, t[self].pid);
      LinksKept(t1, table, head, cycle);
      if PidsUnique(t) {
        SamePidsUnique(t, table);
      }
      if Families(t, init) && self != init {
        ExitFamilies(t, init, self);
      }
    }

    /** sys_kill with SIGKILL: the process is a zombie, and its children keep it as their parent. */
    method Kill(p: Addr)
      requires Valid() && p in table
      modifies this`table
      ensures Valid() && table == old(table)[p := old(table)[p].(zombie := true)]
      ensures old(Numbered()) ==> Numbered()
      ensures old(Families(table, init)) && p != init ==>
        (Families(table, init) <==> Childless(old(table), old(table)[p].pid))
    {
      ghost var t := table;
      table := table[p := table[p].(zombie := true)];
      LinksKept(t, table, head, cycle);
      if PidsUnique(t) {
        SamePidsUnique(t, table);
      }
      if Families(t, init) && p != init {
        KillExact(t, init, p);
      }
    }

    /** proc_find: the record with the pid, if there is one; with pids numbered, the only one. */
    method ProcFind(pid: Pid) returns (found: Option<Addr>)
      requires Valid()
      ensures found == None <==> forall p | p in table :: table[p].pid != pid
      ensures found.Some? ==> found.value in table && table[found.value].pid == pid
      ensures found.Some? && Numbered() ==> forall p | p in table && table[p].pid == pid :: p == found.value
    {
      ghost var k;
      found, k := Find(table, head, pid, cycle);
      if found.Some? && Numbered() {
        forall p | p in table && table[p].pid == pid ensures p == found.value {
          assert OwnPid(table, p, found.value);
        }
      }
    }

    /** The unlink in wait4, for the head, an inner process or the only one. */
    method Unlink(p: Addr, ghost k: nat)
      requires Valid() && k < |cycle| && cycle[k] == p
      modifies this
      ensures Valid() && cycle == old(cycle)[..k] + old(cycle)[k + 1..] && (old(Numbered()) ==> Numbered())
      ensures table.Keys == old(table).Keys - {p} && SameRecords(table, old(table)) && nextPid == old(nextPid)
    {
      ghost var t := table;
      UnlinkKeeps(table, cycle, k);
      var prev := Predecessor(table, p, cycle, k);
      var next := table[p].next;
      assert LinkAt(table, cycle, k);
      table := table[prev := table[prev].(next := next)];
      if head == Some(p) {
        head := Some(table[p].next);
      }
      if head == Some(p) {
        head := None;
      }
      table := table - {p};
      UnlinkedRecords(t, cycle, k, nextPid);
      cycle := Without(cycle, k);
    }

    /** One round of wait4: the first zombie child in list order is reaped, or the caller learns why none is. */
    method Wait4(parent: Pid, sel: Option<Pid>, nohang: bool) returns (r: Outcome)
      requires Valid()
      modifies this
      ensures Valid() && (old(Numbered()) ==> Numbered())
      ensures r.Reaped? <==> exists p :: Reapable(old(table), p, parent, sel)
      ensures r.Reaped? ==> exists k: nat | k < |old(cycle)| ::
        && Reapable(old(table), old(cycle)[k], parent, sel) && r.pid == old(table)[old(cycle)[k]].pid
        && old(table)[old(cycle)[k]].ppid == parent && old(table)[old(cycle)[k]].zombie
        && cycle == old(cycle)[..k] + old(cycle)[k + 1..]
        && table.Keys == old(table).Keys - {old(cycle)[k]} && SameRecords(table, old(table))
        && forall j | 0 <= j < k :: !Reapable(old(table), old(cycle)[j], parent, sel)
      ensures r.Reaped? && sel.Some? ==> r.pid == sel.value
      ensures !r.Reaped? ==> table == old(table) && head == old(head) && cycle == old(cycle)
      ensures r == NoChild <==> !exists p :: Matches(old(table), p, parent, sel)
      ensures r == NotYet ==> nohang
      ensures r == MustWait ==> !nohang
      ensures old(Families(table, init)) ==> Families(table, init)
    {
      ghost var t := table;
      if head == None {
        return NoChild;
      }
      var zombie, child, live;
      ghost var k;
      zombie, child, live, k := Search(table, head.value, parent, sel, cycle);
      if zombie.Some? {
        var pid := table[zombie.value].pid;
        Unlink(zombie.value, k);
        if Families(t, init) {
          assert Settled(t, zombie.value);
          ReapExact(t, table, init, zombie.value);
        }
        return Reaped(pid);
      }
      assert forall p | p in table :: p in cycle;
      if !child {
        return NoChild;
      }
      if nohang {
        return NotYet;
      }
      r := if live then MustWait else NoChild;
    }
  }

  /** The first process, a child of it at 20 and a child of that at 30. */
  ghost predicate Generations(t: Table) {
    && t.Keys == {10, 20, 30} && t[10].pid == INIT_PID && t[20].pid == 2 && t[30].pid == 3
    && t[10].ppid == 0 && t[20].ppid == INIT_PID && t[30].ppid == 2
    && !t[10].zombie && !t[20].zombie && !t[30].zombie
  }

  method ThreeProcesses() returns (procs: Processes)
    ensures fresh(procs) && procs.Valid() && Generations(procs.table)
  {
    procs := new Processes(10);
    var child := procs.Insert(20, 10);
    var grandchild := procs.Insert(30, 20);
  }

  /** A process exits, is reaped by its parent, and leaves its child to the first process. */
  method ExitedParent() returns (procs: Processes, r: Outcome)
    ensures procs.Valid() && r == Reaped(2) && 30 in procs.table && procs.table[30].ppid == INIT_PID
  {
    procs := ThreeProcesses();
    procs.Exit(20);
    assert Reapable(procs.table, 20, INIT_PID, None);
    r := procs.Wait4(INIT_PID, None, true);
  }

  /** The same with a fatal signal: the child's parent is gone, and nobody can wait for the child. */
  method KilledParent() returns (procs: Processes, r: Outcome)
    ensures procs.Valid() && r == Reaped(2) && 30 in procs.table && !HasPid(procs.table, procs.table[30].ppid)
  {
    procs := ThreeProcesses();
    procs.Kill(20);
    assert Reapable(procs.table, 20, INIT_PID, None);
    r := procs.Wait4(INIT_PID, None, true);
  }
}
