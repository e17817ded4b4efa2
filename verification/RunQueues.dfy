/** The run queue as an object: a growable array heap with the least virtual runtime first. */
module RunQueues {
  import opened Common
  import opened Sched
  import opened SchedHeap

  // ---- the heap's sequence ----

  /** The root is a least element. */
  lemma {:induction false} RootLeast(h: seq<Pid>, v: map<Pid, nat>, i: nat)
    requires Keyed(h, v) && Heap(h, v) && i < |h|
    ensures v[h[0]] <= v[h[i]]
  {
    if i > 0 {
      RootLeast(h, v, Parent(i));
      assert Below(h, v, i);
    }
  }

  lemma Appended(h: seq<Pid>, v: map<Pid, nat>, p: Pid, k: nat)
    requires Keyed(h, v) && Heap(h, v) && p !in h
    ensures Keyed(h + [p], v[p := k]) && HeapUp(h + [p], v[p := k], |h|)
  {
    var h', v' := h + [p], v[p := k];
    forall i: nat | i != |h| ensures Below(h', v', i) {
      assert Below(h, v, i);
    }
  }

  /** The heap array with position `i` filled from the end. */
  function Without(h: seq<Pid>, i: nat): (r: seq<Pid>)
    requires i < |h|
    ensures |r| == |h| - 1
  {
    h[i := h[|h| - 1]][..|h| - 1]
  }

  lemma WithoutBag(h: seq<Pid>, i: nat)
    requires i < |h|
    ensures multiset(Without(h, i)) == multiset(h) - multiset{h[i]}
  {
    var n := |h| - 1;
    assert h == h[..n] + [h[n]];
    if i < n {
      assert Without(h, i) == h[..n][i := h[n]];
    } else {
      assert Without(h, i) == h[..n];
    }
  }

  /** Filling the hole leaves only that position out of place, in either direction. */
  lemma WithoutDown(h: seq<Pid>, v: map<Pid, nat>, v': map<Pid, nat>, i: nat)
    requires Keyed(h, v) && Heap(h, v) && i < |h|
    requires forall j | 0 <= j < |h| && j != i :: h[j] in v' && v'[h[j]] == v[h[j]]
    ensures Keyed(Without(h, i), v') && (i < |h| - 1 ==> HeapDown(Without(h, i), v', i, i))
    ensures i == |h| - 1 ==> Heap(Without(h, i), v')
  {
    var r := Without(h, i);
    if i < |r| {
      forall j: nat | j != i && 0 < j < |r| && Parent(j) != i ensures Below(r, v', j) {
        assert Below(h, v, j);
      }
      forall j: nat | 0 < i && 0 < j < |r| && Parent(j) == i ensures v'[r[Parent(i)]] <= v'[r[j]] {
        assert Below(h, v, j) && Below(h, v, i);
      }
    } else {
      forall j: nat ensures Below(r, v', j) {
        assert Below(h, v, j);
      }
    }
  }

  /** A bag that is a set has each element at one place. */
  lemma PlacedOnce(h: seq<Pid>, s: set<Pid>, i: nat, j: nat)
    requires multiset(h) == multiset(s) && i < j < |h|
    ensures h[i] != h[j]
  {
    assert h == h[..i] + [h[i]] + h[i + 1..j] + [h[j]] + h[j + 1..];
    assert multiset(h)[h[j]] <= 1;
  }

  lemma InBagEmpty(h: seq<Pid>, s: set<Pid>)
    requires multiset(h) == multiset(s) && h == []
    ensures s == {}
  {
    assert forall p | p in s :: p in multiset(s);
  }

  lemma InBag(h: seq<Pid>, s: set<Pid>, p: Pid)
    requires multiset(h) == multiset(s)
    ensures p in h <==> p in s
  {
    assert p in h <==> p in multiset(h);
  }

  lemma BagAdd(s: set<Pid>, p: Pid)
    ensures p !in s ==> multiset(s + {p}) == multiset(s) + multiset{p}
    ensures p in s ==> multiset(s - {p}) == multiset(s) - multiset{p}
  {
  }

  /** The queue `h` is a heap by the keys `v` that holds exactly the processes of `s`, each once. */
  ghost predicate Queue(h: seq<Pid>, v: map<Pid, nat>, s: set<Pid>) {
    Keyed(h, v) && Heap(h, v) && multiset(h) == multiset(s)
  }

  /** The root is queued, and no queued process is ahead of it. */
  lemma Leading(h: seq<Pid>, v: map<Pid, nat>, s: set<Pid>)
    requires Queue(h, v, s) && h != []
    ensures h[0] in s && forall r | r in s :: r in v && v[h[0]] <= v[r]
  {
    InBag(h, s, h[0]);
    forall r | r in s ensures r in v && v[h[0]] <= v[r] {
      InBag(h, s, r);
      var j :| 0 <= j < |h| && h[j] == r;
      RootLeast(h, v, j);
    }
  }

  /**
   * The SCHED_FIFO branch of a pick raises the root's key and leaves it in place: the array stays a heap exactly if the
   * new key is not above that of any other queued process.
   */
  lemma RaisedRootExact(h: seq<Pid>, v: map<Pid, nat>, s: set<Pid>, k: nat)
    requires Queue(h, v, s) && h != [] && k >= v[h[0]]
    ensures Queue(h, v[h[0] := k], s) <==> forall r | r in s && r != h[0] :: r in v && k <= v[r]
  {
    var v' := v[h[0] := k];
    if Queue(h, v', s) {
      Leading(h, v', s);
      Leading(h, v, s);
    } else if forall r | r in s && r != h[0] :: r in v && k <= v[r] {
      forall i: nat ensures Below(h, v', i) {
        if 0 < i < |h| {
          InBag(h, s, h[i]);
          PlacedOnce(h, s, 0, i);
          assert Below(h, v, i);
        }
      }
      assert false;
    }
  }

  lemma QueueAppended(h: seq<Pid>, v: map<Pid, nat>, s: set<Pid>, p: Pid, k: nat)
    requires Queue(h, v, s) && p !in s
    ensures Keyed(h + [p], v[p := k]) && HeapUp(h + [p], v[p := k], |h|) && multiset(h + [p]) == multiset(s + {p})
  {
    InBag(h, s, p);
    Appended(h, v, p, k);
    BagAdd(s, p);
  }

  /** Only the key of `p` may differ. */
  ghost predicate KeyChanged(v: map<Pid, nat>, v': map<Pid, nat>, p: Pid) {
    forall r | r in v && r != p :: r in v' && v'[r] == v[r]
  }

  lemma QueueWithout(h: seq<Pid>, v: map<Pid, nat>, s: set<Pid>, v': map<Pid, nat>, i: nat)
    requires Queue(h, v, s) && i < |h| && KeyChanged(v, v', h[i])
    ensures Keyed(Without(h, i), v') && multiset(Without(h, i)) == multiset(s - {h[i]})
    ensures if i < |h| - 1 then HeapDown(Without(h, i), v', i, i) else Heap(Without(h, i), v')
  {
    forall j | 0 <= j < |h| && j != i ensures h[j] in v' && v'[h[j]] == v[h[j]] {
      PlacedOnce(h, s, if i < j then i else j, if i < j then j else i);
    }
    WithoutDown(h, v, v', i);
    WithoutBag(h, i);
    InBag(h, s, h[i]);
    BagAdd(s, h[i]);
  }

  lemma Rekeyed(h: seq<Pid>, v: map<Pid, nat>, v': map<Pid, nat>, s: set<Pid>)
    requires Queue(h, v, s) && forall p | p in v :: p in v' && v'[p] == v[p]
    ensures Queue(h, v', s)
  {
    forall i: nat ensures Below(h, v', i) {
      assert Below(h, v, i);
    }
  }

  // ---- the heap's array ----

  /** The first `n` elements in an array of twice the size. */
  method Doubled(a: array<Pid>, n: nat) returns (b: array<Pid>)
    requires n <= a.Length
    ensures fresh(b) && b.Length == 2 * a.Length && b[..n] == a[..n]
  {
    b := new Pid[2 * a.Length];
    for i := 0 to n
      invariant b[..i] == a[..i]
    {
      b[i] := a[i];
    }
  }

  /** Where a process is among the first `n`; `n` if nowhere. */
  method Position(a: array<Pid>, n: nat, p: Pid, ghost s: set<Pid>) returns (i: nat)
    requires n <= a.Length && multiset(a[..n]) == multiset(s)
    ensures i <= n && (i < n <==> p in s) && (i < n ==> a[..n][i] == p)
  {
    i := 0;
    while i < n && a[i] != p
      invariant i <= n && p !in a[..i]
    {
      i := i + 1;
    }
    InBag(a[..n], s, p);
  }

  /** A new element at the end, sifted up. */
  method Push(a: array<Pid>, n: nat, v: map<Pid, nat>, p: Pid, ghost v0: map<Pid, nat>, ghost s: set<Pid>)
    requires n < a.Length && Queue(a[..n], v0, s) && p !in s && p in v && v == v0[p := v[p]]
    modifies a
    ensures Queue(a[..n + 1], v, s + {p})
  {
    ghost var h := a[..n];
    QueueAppended(h, v0, s, p, v[p]);
    a[n] := p;
    assert a[..n + 1] == h + [p];
    HeapifyUp(a, n + 1, v, n);
  }

  /** The last element moved to `i`. */
  method FillHole(a: array<Pid>, n: nat, i: nat)
    requires i < n <= a.Length
    modifies a
    ensures a[..n - 1] == Without(old(a[..n]), i)
  {
    a[i] := a[n - 1];
  }

  /** An element out of place, if it is within the heap, sifted down and then up. */
  method Settle(a: array<Pid>, n: nat, v: map<Pid, nat>, i: nat, ghost s: set<Pid>)
    requires i <= n <= a.Length && Keyed(a[..n], v) && multiset(a[..n]) == multiset(s)
    requires if i < n then HeapDown(a[..n], v, i, i) else Heap(a[..n], v)
    modifies a
    ensures Queue(a[..n], v, s)
  {
    if i < n {
      HeapifyDown(a, n, v, i);
      HeapifyUp(a, n, v, i);
    }
  }

  /** The element at `i` replaced by the last one, which is sifted down and then up. */
  method TakeAt(a: array<Pid>, n: nat, v: map<Pid, nat>, i: nat, ghost v0: map<Pid, nat>, ghost s: set<Pid>)
    requires i < n <= a.Length && Queue(a[..n], v0, s) && KeyChanged(v0, v, a[..n][i])
    modifies a
    ensures Queue(a[..n - 1], v, s - {old(a[..n][i])})
  {
    ghost var p := a[..n][i];
    QueueWithout(a[..n], v0, s, v, i);
    FillHole(a, n, i);
    Settle(a, n - 1, v, i, s - {p});
  }

  class RunQueue {
    var rq: array<Pid>
    var size: nat
    var minVruntime: nat
    /** The scheduling fields of the process records. */
    var vruntime: map<Pid, nat>
    var nice: map<Pid, int>
    ghost var queued: set<Pid>

    ghost predicate Valid()
      reads this, rq
    {
      && size <= rq.Length && 0 < rq.Length && nice.Keys == vruntime.Keys
      && Queue(rq[..size], vruntime, queued)
    }

    ghost function Model(): State
      reads this
    {
      State(vruntime, nice, queued, minVruntime)
    }

    constructor (vruntime: map<Pid, nat>, nice: map<Pid, int>)
      requires nice.Keys == vruntime.Keys
      ensures Valid() && fresh(rq) && rq.Length == 64 && Model() == State(vruntime, nice, {}, 0)
    {
      this.vruntime, this.nice, this.queued := vruntime, nice, {};
      rq, size, minVruntime := new Pid[64], 0, 0;
    }

    /** Room for one more. */
    method Reserve()
      requires Valid()
      modifies `rq
      ensures Valid() && size < rq.Length && (rq == old(rq) || fresh(rq))
      ensures rq.Length == if size < old(rq.Length) then old(rq.Length) else 2 * old(rq.Length)
    {
      if size >= rq.Length {
        rq := Doubled(rq, size);
      }
    }

    /** The scheduling fields of a new process. */
    method Register(p: Pid, n: int, v: nat)
      requires Valid() && p !in vruntime
      modifies `vruntime, `nice
      ensures Valid() && Model() == Create(old(Model()), p, n, v)
      ensures vruntime == old(vruntime)[p := v] && nice == old(nice)[p := n]
    {
      ghost var h := rq[..size];
      Rekeyed(h, vruntime, vruntime[p := v], queued);
      vruntime, nice := vruntime[p := v], nice[p := n];
    }

    /** sched_enqueue */
    method Enqueue(p: Pid)
      requires Valid() && p in vruntime
      modifies this, rq
      ensures Valid() && Model() == Sched.Enqueue(old(Model()), p) && (rq == old(rq) || fresh(rq))
      ensures queued == old(queued) + {p} && nice == old(nice) && minVruntime == old(minVruntime)
      ensures rq.Length == if old(size) < old(rq.Length) then old(rq.Length) else 2 * old(rq.Length)
      ensures p in old(queued) ==> vruntime == old(vruntime)
      ensures p !in old(queued) ==> vruntime == old(vruntime)[p := Max(old(vruntime)[p], old(minVruntime))]
    {
      Reserve();
      var i := Position(rq, size, p, queued);
      if i == size {
        Insert(p);
      }
    }

    /** A process stamped and put in the heap. */
    method Insert(p: Pid)
      requires Valid() && size < rq.Length && p in vruntime && p !in queued
      modifies `vruntime, `size, `queued, rq
      ensures Valid() && Model() == Sched.Enqueue(old(Model()), p)
    {
      var v := vruntime[p];
      if v == 0 {
        v := minVruntime;
      }
      if v < minVruntime {
        v := minVruntime;
      }
      Push(rq, size, vruntime[p := v], p, vruntime, queued);
      vruntime, size, queued := vruntime[p := v], size + 1, queued + {p};
    }

    /** The root taken off the heap with a new key. */
    method TakeRoot(p: Pid, v: nat)
      requires Valid() && size > 0 && rq[0] == p
      modifies `vruntime, `size, `queued, `minVruntime, rq
      ensures Valid() && vruntime == old(vruntime)[p := v] && queued == old(queued) - {p}
      ensures minVruntime == Max(old(minVruntime), v)
    {
      TakeAt(rq, size, vruntime[p := v], 0, vruntime, queued);
      vruntime, size, queued := vruntime[p := v], size - 1, queued - {p};
      if v > minVruntime {
        minVruntime := v;
      }
    }

    /** sched_pick_next, without the SCHED_FIFO branch */
    method PickNext() returns (r: Option<Pid>)
      requires Valid()
      modifies this, rq
      ensures Valid() && rq == old(rq)
      ensures r == None <==> old(queued) == {}
      ensures r == None ==> Model() == old(Model())
      ensures r.Some? ==> Least(old(Model()), r.value) && Model() == Pick(old(Model()), r.value)
      ensures r.Some? ==> Charged(old(vruntime)[r.value], vruntime[r.value], nice[r.value])
      ensures r.Some? ==> queued == old(queued) - {r.value} && nice == old(nice)
    {
      if size == 0 {
        InBagEmpty(rq[..size], queued);
        return None;
      }
      var p := rq[0];
      Leading(rq[..size], vruntime, queued);
      PickCharged(Model(), p);
      TakeRoot(p, vruntime[p] + Delta(nice[p]));
      r := Some(p);
    }

    /** sched_remove */
    method Remove(p: Pid)
      requires Valid()
      modifies this, rq
      ensures Valid() && rq == old(rq) && Model() == Sched.Remove(old(Model()), p)
      ensures queued == old(queued) - {p} && vruntime == old(vruntime) && nice == old(nice)
    {
      var i := Position(rq, size, p, queued);
      if i < size {
        TakeAt(rq, size, vruntime, i, vruntime, queued);
        size, queued := size - 1, queued - {p};
      }
    }
  }
}
