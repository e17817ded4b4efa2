/** The run queue's array heap: sifting up and down in place, by virtual runtime. */
module SchedHeap {
  import opened Common
  import opened Sched

  function Parent(i: nat): nat
    requires i > 0
  {
    (i - 1) / 2
  }

  /** Position `i` is not ahead of its parent. */
  predicate Below(h: seq<Pid>, v: map<Pid, nat>, i: nat) {
    0 < i < |h| && h[i] in v && h[Parent(i)] in v ==> v[h[Parent(i)]] <= v[h[i]]
  }

  ghost predicate Heap(h: seq<Pid>, v: map<Pid, nat>) {
    forall i: nat :: Below(h, v, i)
  }

  /** The children of `k` are not ahead of `k`'s parent. */
  ghost predicate Bridged(h: seq<Pid>, v: map<Pid, nat>, k: nat) {
    forall i: nat | 0 < k < |h| && 0 < i < |h| && Parent(i) == k && h[i] in v && h[Parent(k)] in v ::
      v[h[Parent(k)]] <= v[h[i]]
  }

  /** A heap but for position `k`, which may be ahead of its parent. */
  ghost predicate HeapUp(h: seq<Pid>, v: map<Pid, nat>, k: nat) {
    Bridged(h, v, k) && forall i: nat | i != k :: Below(h, v, i)
  }

  ghost predicate Keyed(h: seq<Pid>, v: map<Pid, nat>) {
    forall i | 0 <= i < |h| :: h[i] in v
  }

  function Swapped(h: seq<Pid>, i: nat, j: nat): seq<Pid>
    requires i < |h| && j < |h|
  {
    h[i := h[j]][j := h[i]]
  }

  lemma SwapKeeps(h: seq<Pid>, i: nat, j: nat, v: map<Pid, nat>)
    requires i < |h| && j < |h| && Keyed(h, v)
    ensures multiset(Swapped(h, i, j)) == multiset(h) && Keyed(Swapped(h, i, j), v)
  {
  }

  /** One step up: the violation moves to the parent. */
  lemma UpStep(h: seq<Pid>, v: map<Pid, nat>, k: nat)
    requires Keyed(h, v) && HeapUp(h, v, k) && 0 < k < |h| && v[h[k]] < v[h[Parent(k)]]
    ensures HeapUp(Swapped(h, k, Parent(k)), v, Parent(k))
  {
    var p, h' := Parent(k), Swapped(h, k, Parent(k));
    forall i: nat | i != p ensures Below(h', v, i) {
      assert i != k ==> Below(h, v, i);
    }
    forall i: nat | 0 < p < |h'| && 0 < i < |h'| && Parent(i) == p
      ensures v[h'[Parent(p)]] <= v[h'[i]]
    {
      assert Below(h, v, p) && (i != k ==> Below(h, v, i));
    }
  }

  method HeapifyUp(a: array<Pid>, n: nat, v: map<Pid, nat>, idx: nat)
    requires idx < n <= a.Length && Keyed(a[..n], v) && HeapUp(a[..n], v, idx)
    modifies a
    ensures Keyed(a[..n], v) && Heap(a[..n], v) && multiset(a[..n]) == old(multiset(a[..n]))
    ensures a[n..] == old(a[n..])
  {
    var k: nat := idx;
    while k > 0
      invariant k < n && Keyed(a[..n], v) && HeapUp(a[..n], v, k)
      invariant multiset(a[..n]) == old(multiset(a[..n])) && a[n..] == old(a[n..])
    {
      var p := (k - 1) / 2;
      ghost var h := a[..n];
      if v[a[k]] >= v[a[p]] {
        assert Below(h, v, k);
        return;
      }
      UpStep(h, v, k);
      SwapKeeps(h, k, p, v);
      a[k], a[p] := a[p], a[k];
      assert a[..n] == Swapped(h, k, p);
      k := p;
    }
  }

  /**
   * Sifting from `top`, now at `k`: only `k` may be behind its children, and `top`, until the first step, ahead of
   * its parent.
   */
  ghost predicate HeapDown(h: seq<Pid>, v: map<Pid, nat>, top: nat, k: nat) {
    && Bridged(h, v, k)
    && (forall i: nat | i != top && 0 < i < |h| && Parent(i) != k :: Below(h, v, i))
    && (k != top ==> top < k && Below(h, v, top))
  }

  /** The child of `k`, if any, that is ahead of `k` and of the other child. */
  function Smallest(h: seq<Pid>, v: map<Pid, nat>, k: nat): (c: nat)
    requires k < |h| && Keyed(h, v)
    ensures k <= c < |h| && (c != k ==> Parent(c) == k && v[h[c]] < v[h[k]])
    ensures forall i: nat | 0 < i < |h| && Parent(i) == k :: v[h[c]] <= v[h[i]]
  {
    var left, right := 2 * k + 1, 2 * k + 2;
    var c := if left < |h| && v[h[left]] < v[h[k]] then left else k;
    var d := if right < |h| && v[h[right]] < v[h[c]] then right else c;
    assert forall i: nat | 0 < i < |h| && Parent(i) == k :: i == left || i == right;
    d
  }

  lemma DownStep(h: seq<Pid>, v: map<Pid, nat>, top: nat, k: nat, c: nat)
    requires Keyed(h, v) && k < |h| && HeapDown(h, v, top, k) && c == Smallest(h, v, k) && c != k
    ensures HeapDown(Swapped(h, k, c), v, top, c)
  {
    var h' := Swapped(h, k, c);
    forall i: nat | i != top && 0 < i < |h| && Parent(i) != c ensures Below(h', v, i) {
      assert Parent(i) != k ==> Below(h, v, i);
    }
    forall i: nat | 0 < i < |h'| && Parent(i) == c ensures v[h'[Parent(c)]] <= v[h'[i]] {
      assert Below(h, v, i);
    }
    assert Below(h', v, top);
  }

  lemma DownDone(h: seq<Pid>, v: map<Pid, nat>, top: nat, k: nat)
    requires Keyed(h, v) && k < |h| && HeapDown(h, v, top, k) && Smallest(h, v, k) == k
    ensures HeapUp(h, v, top)
  {
    forall i: nat | i != top ensures Below(h, v, i) {
    }
    forall i: nat | 0 < top < |h| && 0 < i < |h| && Parent(i) == top ensures v[h[Parent(top)]] <= v[h[i]] {
      assert k != top ==> Below(h, v, top) && Below(h, v, i);
    }
  }

  method SmallestOf(a: array<Pid>, n: nat, v: map<Pid, nat>, k: nat) returns (c: nat)
    requires k < n <= a.Length && Keyed(a[..n], v)
    ensures c == Smallest(a[..n], v, k)
  {
    var left, right := 2 * k + 1, 2 * k + 2;
    ghost var h := a[..n];
    assert forall i | 0 <= i < n :: a[i] == h[i];
    c := k;
    if left < n && v[a[left]] < v[a[c]] {
      c := left;
    }
    if right < n && v[a[right]] < v[a[c]] {
      c := right;
    }
  }

  /** Afterwards at most the starting position is ahead of its parent, as before. */
  method HeapifyDown(a: array<Pid>, n: nat, v: map<Pid, nat>, idx: nat)
    requires idx < n <= a.Length && Keyed(a[..n], v) && HeapDown(a[..n], v, idx, idx)
    modifies a
    ensures Keyed(a[..n], v) && HeapUp(a[..n], v, idx) && multiset(a[..n]) == old(multiset(a[..n]))
    ensures a[n..] == old(a[n..])
  {
    var k: nat := idx;
    while true
      invariant k < n && Keyed(a[..n], v) && HeapDown(a[..n], v, idx, k)
      invariant multiset(a[..n]) == old(multiset(a[..n])) && a[n..] == old(a[n..])
      decreases n - k
    {
      ghost var h := a[..n];
      var smallest := SmallestOf(a, n, v, k);
      if smallest == k {
        DownDone(h, v, idx, k);
        return;
      }
      DownStep(h, v, idx, k, smallest);
      SwapKeeps(h, k, smallest, v);
      a[k], a[smallest] := a[smallest], a[k];
      assert a[..n] == Swapped(h, k, smallest);
      k := smallest;
    }
  }
}
