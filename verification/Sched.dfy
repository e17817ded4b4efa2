/** The fair scheduler's rules: keys, stamping and picking, and what they promise a waiting process. */
module Sched {
  import opened Common
  import opened Arith

  const GRANULARITY := 10000000

  const WEIGHTS: seq<nat> := [
    88761, 71713, 56483, 46273, 36291,
    29154, 23254, 18705, 14949, 11916,
    9548, 7620, 6100, 4904, 3906,
    3121, 2501, 1991, 1586, 1277,
    1024, 820, 655, 526, 423,
    335, 272, 215, 172, 137,
    110, 87, 70, 56, 45,
    36, 29, 23, 18, 15
  ]

  function NiceToWeight(nice: int): (w: nat)
    ensures 15 <= w <= 88761
  {
    WEIGHTS[if nice < -20 then 0 else if nice > 19 then 39 else nice + 20]
  }

  /** The virtual time one pick costs: always some, less for a nicer weight. */
  function Delta(nice: int): (d: nat)
    ensures d >= 115365
  {
    var w := NiceToWeight(nice);
    assert w * 115365 <= GRANULARITY * 1024;
    GRANULARITY * 1024 / w
  }

  lemma {:induction false} WeightsDescend(i: nat, j: nat)
    requires i <= j < 40
    ensures WEIGHTS[i] >= WEIGHTS[j]
  {
    if i < j {
      WeightsDescend(i, j - 1);
      assert WEIGHTS[j - 1] >= WEIGHTS[j];
    }
  }

  /** A process that is less nice is never charged more for a pick. */
  lemma DeltaMonotone(a: int, b: int)
    requires a <= b
    ensures Delta(a) <= Delta(b)
  {
    var i := if a < -20 then 0 else if a > 19 then 39 else a + 20;
    var j := if b < -20 then 0 else if b > 19 then 39 else b + 20;
    WeightsDescend(i, j);
    QuotientOrder(GRANULARITY * 1024, NiceToWeight(a), NiceToWeight(b));
  }

  /**
   * Nice 0 weighs 1024, each step of niceness weighs between 6/5 and 9/7 less, and values beyond the ends count as
   * the ends.
   */
  lemma WeightSteps(nice: int)
    ensures NiceToWeight(0) == 1024
    ensures -20 <= nice < 19 ==>
      6 * NiceToWeight(nice + 1) <= 5 * NiceToWeight(nice) && 7 * NiceToWeight(nice) <= 9 * NiceToWeight(nice + 1)
    ensures nice <= -20 ==> NiceToWeight(nice) == 88761
    ensures nice >= 19 ==> NiceToWeight(nice) == 15
  {
  }

  // ---- the queue as a set of keyed processes ----

  /** Every process's virtual runtime and nice value, the queued ones, and the highest runtime handed out. */
  datatype State = State(key: map<Pid, nat>, nice: map<Pid, int>, queued: set<Pid>, min: nat)

  predicate Wf(s: State) {
    s.nice.Keys == s.key.Keys && s.queued <= s.key.Keys
  }

  function Max(a: nat, b: nat): nat {
    if a < b then b else a
  }

  /** A new process starts without runtime, or with its parent's if it is forked. */
  function Create(s: State, p: Pid, nice: int, key: nat): State {
    s.(key := s.key[p := key], nice := s.nice[p := nice])
  }

  /** sched_enqueue: a process already queued stays as it is. */
  function Enqueue(s: State, p: Pid): State
    requires p in s.key
  {
    if p in s.queued then s else s.(key := s.key[p := Max(s.key[p], s.min)], queued := s.queued + {p})
  }

  /** A queued process no other queued process is ahead of. */
  predicate Least(s: State, p: Pid) {
    p in s.queued && p in s.key && forall r | r in s.queued && r in s.key :: s.key[p] <= s.key[r]
  }

  /** sched_pick_next, when it returns `p`. */
  function Pick(s: State, p: Pid): State
    requires p in s.key && p in s.nice
  {
    var v := s.key[p] + Delta(s.nice[p]);
    s.(key := s.key[p := v], queued := s.queued - {p}, min := Max(s.min, v))
  }

  /** The share of a pick: what it adds to the key, times the weight, is the granularity times 1024, up to rounding. */
  ghost predicate Charged(before: nat, after: nat, nice: int) {
    before <= after && var v, w := after - before, NiceToWeight(nice); v * w <= 10240000000 < (v + 1) * w
  }

  lemma PickCharged(s: State, p: Pid)
    requires p in s.key && p in s.nice
    ensures Charged(s.key[p], Pick(s, p).key[p], s.nice[p])
    ensures forall r | r in s.key && r != p :: Pick(s, p).key[r] == s.key[r]
  {
    DivMod(GRANULARITY * 1024, NiceToWeight(s.nice[p]));
    var v, w := Delta(s.nice[p]), NiceToWeight(s.nice[p]);
    assert (v + 1) * w == v * w + w;
  }

  function Remove(s: State, p: Pid): State {
    s.(queued := s.queued - {p})
  }

  // ---- bounded overtaking ----

  datatype Op = DoCreate(p: Pid, nice: int, key: nat) | DoEnqueue(p: Pid) | DoPick(p: Pid) | DoRemove(p: Pid)

  ghost predicate Next(s: State, op: Op, s': State) {
    match op
    case DoCreate(p, nice, key) => p !in s.key && key <= s.min && s' == Create(s, p, nice, key)
    case DoEnqueue(p) => p in s.key && s' == Enqueue(s, p)
    case DoPick(p) => Least(s, p) && p in s.nice && s' == Pick(s, p)
    case DoRemove(p) => s' == Remove(s, p)
  }

  /** No key is beyond the highest handed out, so a process that enters the queue is stamped exactly that. */
  ghost predicate Inv(s: State) {
    Wf(s) && forall p | p in s.key :: s.key[p] <= s.min
  }

  lemma StepKeeps(s: State, op: Op, s': State)
    requires Inv(s) && Next(s, op, s')
    ensures Inv(s') && s.min <= s'.min
  {
  }

  /** A process keeps the nice value it was created with, and only picks of it and its own queueing change its key. */
  lemma NiceStays(s: State, op: Op, s': State, p: Pid)
    requires Inv(s) && Next(s, op, s')
    ensures p in s.nice ==> p in s'.nice && s'.nice[p] == s.nice[p]
    ensures op.DoCreate? && op.p == p ==> p in s'.nice && s'.nice[p] == op.nice && s'.key[p] == op.key
    ensures p in s.key ==> p in s'.key && if op.p != p then s'.key[p] == s.key[p] else s'.key[p] >= s.key[p]
    ensures op == DoPick(p) ==> p in s.key && p in s'.key && Charged(s.key[p], s'.key[p], s.nice[p])
  {
    if op == DoPick(p) {
      PickCharged(s, p);
    }
  }

  lemma StampedExactly(s: State, p: Pid)
    requires Inv(s) && p in s.key && p !in s.queued
    ensures Enqueue(s, p).key[p] == s.min
  {
  }

  /** How often `r` can still be picked ahead of the waiting `q`. */
  function Budget(s: State, q: Pid, r: Pid): nat
    requires q in s.key && (r in s.queued ==> r in s.key)
  {
    if r !in s.queued then if s.min == s.key[q] then 1 else 0
    else if s.key[r] < s.key[q] then 2
    else if s.key[r] == s.key[q] then 1
    else 0
  }

  /** Every step while `q` waits uses up the budget it takes and returns none. */
  lemma BudgetStep(s: State, op: Op, s': State, q: Pid, r: Pid)
    requires Inv(s) && Next(s, op, s') && q in s.queued && q in s'.queued && op != DoPick(q) && r != q
    ensures q in s'.key && (r in s'.queued ==> r in s'.key) && s'.key[q] == s.key[q]
    ensures Budget(s', q, r) + (if op == DoPick(r) then 1 else 0) <= Budget(s, q, r)
  {
  }

  function Picks(ops: seq<Op>, r: Pid): nat {
    if ops == [] then 0 else (if ops[0] == DoPick(r) then 1 else 0) + Picks(ops[1..], r)
  }

  /** A stretch of a run through which `q` is queued and is not picked. */
  ghost predicate Waits(ss: seq<State>, ops: seq<Op>, q: Pid) {
    && |ss| == |ops| + 1 && Inv(ss[0])
    && (forall i | 0 <= i < |ops| :: Next(ss[i], ops[i], ss[i + 1]) && ops[i] != DoPick(q))
    && forall i | 0 <= i < |ss| :: q in ss[i].queued
  }

  lemma {:induction false} PicksBounded(ss: seq<State>, ops: seq<Op>, q: Pid, r: Pid)
    requires Waits(ss, ops, q) && r != q
    ensures Picks(ops, r) <= Budget(ss[0], q, r)
  {
    if ops != [] {
      StepKeeps(ss[0], ops[0], ss[1]);
      BudgetStep(ss[0], ops[0], ss[1], q, r);
      assert Waits(ss[1..], ops[1..], q);
      PicksBounded(ss[1..], ops[1..], q, r);
    }
  }

  /** While a process waits, any other process is picked ahead of it at most twice. */
  lemma BoundedOvertaking(ss: seq<State>, ops: seq<Op>, q: Pid, r: Pid)
    requires Waits(ss, ops, q) && r != q
    ensures Picks(ops, r) <= 2
  {
    PicksBounded(ss, ops, q, r);
  }

  /** A stretch of steps from a state of some run. */
  ghost predicate Stretch(ss: seq<State>, ops: seq<Op>) {
    |ss| == |ops| + 1 && Inv(ss[0]) && forall i | 0 <= i < |ops| :: Next(ss[i], ops[i], ss[i + 1])
  }

  /** The virtual time from `before` to `after` pays for `n` picks: each costs 1024 granularities by the weight. */
  ghost predicate PaidFor(before: nat, after: nat, n: nat, w: nat) {
    before <= after && (after - before + n) * w >= 10240000000 * n
  }

  lemma PaidOnce(a: nat, b: nat, c: nat, n: nat, w: nat)
    requires a <= b && 10240000000 < (b - a + 1) * w && PaidFor(b, c, n, w)
    ensures PaidFor(a, c, n + 1, w)
  {
    assert (c - a + (n + 1)) * w == (b - a + 1) * w + (c - b + n) * w;
  }

  lemma PaidMore(a: nat, b: nat, c: nat, n: nat, w: nat)
    requires a <= b && PaidFor(b, c, n, w)
    ensures PaidFor(a, c, n, w)
  {
    assert (c - a + n) * w == (b - a) * w + (c - b + n) * w;
  }

  /** Over any stretch of any run, a process pays for all its picks in virtual time, at the rate of its weight. */
  lemma {:induction false} PicksPaid(ss: seq<State>, ops: seq<Op>, p: Pid)
    requires Stretch(ss, ops) && p in ss[0].key
    ensures p in ss[|ops|].key && p in ss[0].nice && p in ss[|ops|].nice && ss[|ops|].nice[p] == ss[0].nice[p]
    ensures PaidFor(ss[0].key[p], ss[|ops|].key[p], Picks(ops, p), NiceToWeight(ss[0].nice[p]))
  {
    if ops != [] {
      StepKeeps(ss[0], ops[0], ss[1]);
      NiceStays(ss[0], ops[0], ss[1], p);
      assert Stretch(ss[1..], ops[1..]);
      PicksPaid(ss[1..], ops[1..], p);
      var a, b, c := ss[0].key[p], ss[1].key[p], ss[|ops|].key[p];
      if ops[0] == DoPick(p) {
        PaidOnce(a, b, c, Picks(ops[1..], p), NiceToWeight(ss[0].nice[p]));
      } else {
        PaidMore(a, b, c, Picks(ops[1..], p), NiceToWeight(ss[0].nice[p]));
      }
    }
  }

  const EMPTY := State(map[], map[], {}, 0)

  ghost predicate IsRun(ss: seq<State>, ops: seq<Op>) {
    |ss| == |ops| + 1 && ss[0] == EMPTY && forall i | 0 <= i < |ops| :: Next(ss[i], ops[i], ss[i + 1])
  }

  /** Process 1 has run once and waits again; process 2 has not run yet. */
  const ONE_RAN := State(map[1 := 10000000, 2 := 0], map[1 := 0, 2 := 0], {1, 2}, 10000000)

  lemma OneRan() returns (ss: seq<State>, ops: seq<Op>)
    ensures IsRun(ss, ops) && ss[|ops|] == ONE_RAN
  {
    assert Delta(0) == 10000000;
    var s2 := Enqueue(Create(EMPTY, 1, 0, 0), 1);
    var s4 := Enqueue(Create(s2, 2, 0, 0), 2);
    assert s4 == State(map[1 := 0, 2 := 0], map[1 := 0, 2 := 0], {1, 2}, 0);
    var s6 := Enqueue(Pick(s4, 1), 1);
    assert s6 == ONE_RAN;
    ss := [EMPTY, Create(EMPTY, 1, 0, 0), s2, Create(s2, 2, 0, 0), s4, Pick(s4, 1), s6];
    ops := [DoCreate(1, 0, 0), DoEnqueue(1), DoCreate(2, 0, 0), DoEnqueue(2), DoPick(1), DoEnqueue(1)];
  }

  lemma OtherRunsTwice() returns (ss: seq<State>, ops: seq<Op>)
    ensures Waits(ss, ops, 1) && ss[0] == ONE_RAN && Picks(ops, 2) == 2
  {
    assert Delta(0) == 10000000;
    var s1 := Pick(ONE_RAN, 2);
    var s2 := Enqueue(s1, 2);
    var s3 := Pick(s2, 2);
    assert s2.key[2] == s2.key[1] == 10000000;
    ss, ops := [ONE_RAN, s1, s2, s3], [DoPick(2), DoEnqueue(2), DoPick(2)];
    assert ops[1..] == [DoEnqueue(2), DoPick(2)] && ops[1..][1..] == [DoPick(2)] && ops[1..][1..][1..] == [];
  }

  lemma Joined(ss: seq<State>, ops: seq<Op>, ts: seq<State>, more: seq<Op>, q: Pid)
    requires IsRun(ss, ops) && Waits(ts, more, q) && ts[0] == ss[|ops|]
    ensures IsRun(ss[..|ops|] + ts, ops + more) && (ss[..|ops|] + ts)[|ops|..] == ts && (ops + more)[|ops|..] == more
  {
    var rs, os := ss[..|ops|] + ts, ops + more;
    forall i | 0 <= i < |os| ensures Next(rs[i], os[i], rs[i + 1]) {
      if i >= |ops| {
        assert Next(ts[i - |ops|], more[i - |ops|], ts[i - |ops| + 1]);
      }
    }
  }

  /**
   * Two is the exact bound, in a run from the empty queue: process 1 has run once and waits again while process 2,
   * which has not, is picked, comes back level with it, and is picked again.
   */
  lemma OvertakenTwice() returns (ss: seq<State>, ops: seq<Op>, k: nat)
    ensures IsRun(ss, ops) && k <= |ops| && Waits(ss[k..], ops[k..], 1) && Picks(ops[k..], 2) == 2
  {
    var before, first := OneRan();
    var after, more := OtherRunsTwice();
    Joined(before, first, after, more, 1);
    ss, ops, k := before[..|first|] + after, first + more, |first|;
  }

  // ---- no starvation ----

  /** How many of the picks are of members of `rs`. */
  function PicksIn(ops: seq<Op>, rs: set<Pid>): nat {
    if ops == [] then 0 else (if ops[0].DoPick? && ops[0].p in rs then 1 else 0) + PicksIn(ops[1..], rs)
  }

  lemma {:induction false} PicksSplit(ops: seq<Op>, rs: set<Pid>, r: Pid)
    requires r in rs
    ensures PicksIn(ops, rs) == PicksIn(ops, rs - {r}) + Picks(ops, r)
  {
    if ops != [] {
      PicksSplit(ops[1..], rs, r);
    }
  }

  lemma {:induction false} NonePicked(ops: seq<Op>)
    ensures PicksIn(ops, {}) == 0
  {
    if ops != [] {
      NonePicked(ops[1..]);
    }
  }

  /** A waiting process sees at most two picks for each other process: after that many the next pick is its own. */
  lemma {:induction false} NoStarvation(ss: seq<State>, ops: seq<Op>, q: Pid, rs: set<Pid>)
    requires Waits(ss, ops, q) && q !in rs
    ensures PicksIn(ops, rs) <= 2 * |rs|
    decreases rs
  {
    if rs == {} {
      NonePicked(ops);
    } else {
      var r :| r in rs;
      PicksSplit(ops, rs, r);
      BoundedOvertaking(ss, ops, q, r);
      NoStarvation(ss, ops, q, rs - {r});
    }
  }
}
