/**
 * Tasklets: scheduled from anywhere at any time, run by softirq_do_pending. One step here is one
 * access to shared data, so that interrupts and other processors may come between any two.
 */
module Softirq {
  import opened Common

  type Id = nat

  /** What a runner of the pending softirqs is about to do; `rest` is the list its pointer `at` stands for. */
  datatype Phase =
    | Start                                        // its snapshot has the tasklet bit; the list is not detached yet
    | Loop(at: Option<Id>, rest: seq<Id>)          // at the head of the while loop
    | Hand(t: Id, at: Option<Id>, rest: seq<Id>)   // has taken t and moved on to its successor
    | Call(t: Id, at: Option<Id>, rest: seq<Id>)   // has cleared t's state and is in its handler

  /** Where a tasklet is. */
  datatype Place = Off | Global | InList(r: nat) | InHand(r: nat)

  /**
   * The shared data (list head, next pointers, state words, the pending bit, the list lock), the runners,
   * and for the proofs the list behind the head, each tasklet's place and two counts.
   */
  datatype State = State(
    head: Option<Id>, next: map<Id, Option<Id>>, on: map<Id, bool>, pending: bool, pushing: bool, runners: map<nat,
      Phase>,
    list: seq<Id>, place: map<Id, Place>, scheduled: map<Id, nat>, runs: map<Id, nat>)

  // ---- steps ----

  datatype Step =
    | Push(t: Id) | Raise
    | Snapshot(r: nat) | Detach(r: nat) | Take(r: nat) | Clear(r: nat) | Return(r: nat) | Finish(r: nat)

  predicate Enabled(s: State, step: Step) {
    match step
    case Push(t) => !s.pushing && t in s.on && t in s.next && t in s.scheduled && t in s.place
    case Raise => s.pushing
    case Snapshot(r) => s.pending && r !in s.runners
    case Detach(r) => r in s.runners && s.runners[r] == Start && !s.pushing
    case Take(r) =>
      r in s.runners && s.runners[r].Loop? && s.runners[r].at.Some? && s.runners[r].at.value in s.next
        && s.runners[r].rest != []
    case Clear(r) => r in s.runners && s.runners[r].Hand? && s.runners[r].t in s.runs
    case Return(r) => r in s.runners && s.runners[r].Call?
    case Finish(r) => r in s.runners && s.runners[r].Loop? && s.runners[r].at == None
  }

  /** tasklet_schedule up to the raise, under the list lock: an idle tasklet goes to the front of the list. */
  function PushStep(s: State, t: Id): State
    requires Enabled(s, Push(t))
  {
    if s.on[t] then s
    else s.(
      on := s.on[t := true], next := s.next[t := s.head], head := Some(t), pushing := true,
      list := [t] + s.list, place := s.place[t := Global], scheduled := s.scheduled[t := s.scheduled[t] + 1])
  }

  function Moved(place: map<Id, Place>, r: nat): map<Id, Place> {
    map t | t in place :: if place[t] == Global then InList(r) else place[t]
  }

  function Apply(s: State, step: Step): State
    requires Enabled(s, step)
  {
    match step
    case Push(t) => PushStep(s, t)
    case Raise => s.(pending := true, pushing := false)
    case Snapshot(r) => s.(pending := false, runners := s.runners[r := Start])
    case Detach(r) =>
      s.(runners := s.runners[r := Loop(s.head, s.list)], head := None, list := [], place := Moved(s.place, r))
    case Take(r) =>
      var p := s.runners[r];
      s.(runners := s.runners[r := Hand(p.at.value, s.next[p.at.value], p.rest[1..])],
        place := s.place[p.at.value := InHand(r)])
    case Clear(r) =>
      var p := s.runners[r];
      s.(on := s.on[p.t := false], runners := s.runners[r := Call(p.t, p.at, p.rest)],
        place := s.place[p.t := Off], runs := s.runs[p.t := s.runs[p.t] + 1])
    case Return(r) => s.(runners := s.runners[r := Loop(s.runners[r].at, s.runners[r].rest)])
    case Finish(r) => s.(runners := s.runners - {r})
  }

  // ---- the invariant ----

  /** The list from `at` runs through exactly `q`, no member twice. */
  ghost predicate Chain(next: map<Id, Option<Id>>, at: Option<Id>, q: seq<Id>) {
    && at == At(q, 0)
    && (forall i | 0 <= i < |q| :: q[i] in next && next[q[i]] == At(q, i + 1))
    && forall i, j | 0 <= i < j < |q| :: q[i] != q[j]
  }

  /** The members of `q` are exactly the tasklets at place `p`. */
  ghost predicate Holds(place: map<Id, Place>, p: Place, q: seq<Id>) {
    (forall i | 0 <= i < |q| :: q[i] in place && place[q[i]] == p) && forall t | t in place && place[t] == p :: t in q
  }

  ghost predicate RunnerOk(s: State, r: nat) {
    r in s.runners &&
    match s.runners[r]
    case Start => Holds(s.place, InList(r), []) && Holds(s.place, InHand(r), [])
    case Loop(at, rest) => Chain(s.next, at, rest) && Holds(s.place, InList(r), rest) && Holds(s.place, InHand(r), [])
    case Hand(t, at, rest) =>
      Chain(s.next, at, rest) && Holds(s.place, InList(r), rest) && Holds(s.place, InHand(r), [t])
    case Call(t, at, rest) =>
      Chain(s.next, at, rest) && Holds(s.place, InList(r), rest) && Holds(s.place, InHand(r), [])
  }

  /** The state word tells whether the tasklet is somewhere, and the counts differ by it. */
  ghost predicate TaskletOk(s: State, t: Id) {
    && t in s.on && t in s.next && t in s.place && t in s.scheduled && t in s.runs
    && (s.on[t] <==> s.place[t] != Off)
    && s.scheduled[t] == s.runs[t] + (if s.on[t] then 1 else 0)
    && (s.place[t].InList? || s.place[t].InHand? ==> s.place[t].r in s.runners)
  }

  /**
   * Scheduled work that nobody has taken is announced: by the bit, by a raise under way, or by an unserved snapshot.
   */
  ghost predicate Announced(s: State) {
    s.list != [] ==> s.pending || s.pushing || exists r :: r in s.runners && s.runners[r] == Start
  }

  ghost predicate Keyed(s: State) {
    s.next.Keys == s.on.Keys == s.place.Keys == s.scheduled.Keys == s.runs.Keys
  }

  ghost predicate Inv(s: State) {
    && Keyed(s)
    && Chain(s.next, s.head, s.list) && Holds(s.place, Global, s.list) && Announced(s)
    && (forall t | t in s.on :: TaskletOk(s, t))
    && (forall r | r in s.runners :: RunnerOk(s, r))
  }

  // ---- every step keeps it ----

  lemma ChainKept(next: map<Id, Option<Id>>, next': map<Id, Option<Id>>, at: Option<Id>, q: seq<Id>)
    requires Chain(next, at, q) && forall i | 0 <= i < |q| ::
      q[i] in next' && (q[i] in next ==> next'[q[i]] == next[q[i]])
    ensures Chain(next', at, q)
  {
  }

  /** A tasklet is with runner `r`. */
  predicate With(p: Place, r: nat) {
    (p.InList? || p.InHand?) && p.r == r
  }

  /** Nothing of runner `r` changed: not its phase, not what it holds, not the links of that. */
  ghost predicate Untouched(s: State, s': State, r: nat) {
    && r in s.runners && r in s'.runners && s'.runners[r] == s.runners[r]
    && s'.place.Keys == s.place.Keys && s'.next.Keys == s.next.Keys == s.place.Keys
    && (forall u | u in s.place :: s'.place[u] == s.place[u] || (!With(s.place[u], r) && !With(s'.place[u], r)))
    && (forall u | u in s.place && With(s.place[u], r) :: s'.next[u] == s.next[u])
  }

  lemma HoldsKept(place: map<Id, Place>, place': map<Id, Place>, p: Place, q: seq<Id>)
    requires Holds(place, p, q) && place'.Keys == place.Keys
    requires forall u | u in place :: place'[u] == place[u] || (place[u] != p && place'[u] != p)
    ensures Holds(place', p, q)
  {
  }

  lemma RunnerKept(s: State, s': State, r: nat)
    requires RunnerOk(s, r) && Untouched(s, s', r)
    ensures RunnerOk(s', r)
  {
    match s.runners[r]
    case Start =>
      HoldsKept(s.place, s'.place, InList(r), []);
      HoldsKept(s.place, s'.place, InHand(r), []);
    case Loop(at, rest) =>
      ChainKept(s.next, s'.next, at, rest);
      HoldsKept(s.place, s'.place, InList(r), rest);
      HoldsKept(s.place, s'.place, InHand(r), []);
    case Hand(t, at, rest) =>
      ChainKept(s.next, s'.next, at, rest);
      HoldsKept(s.place, s'.place, InList(r), rest);
      HoldsKept(s.place, s'.place, InHand(r), [t]);
    case Call(t, at, rest) =>
      ChainKept(s.next, s'.next, at, rest);
      HoldsKept(s.place, s'.place, InList(r), rest);
      HoldsKept(s.place, s'.place, InHand(r), []);
  }

  /** An element with no place in a list is put in front of it. */
  lemma Pushed(next: map<Id, Option<Id>>, at: Option<Id>, q: seq<Id>, t: Id)
    requires Chain(next, at, q) && t !in q
    ensures Chain(next[t := at], Some(t), [t] + q)
  {
    var q', next' := [t] + q, next[t := at];
    forall i | 0 <= i < |q'| ensures q'[i] in next' && next'[q'[i]] == At(q', i + 1) {
      assert i > 0 ==> q'[i] == q[i - 1];
    }
  }

  lemma HoldsPushed(place: map<Id, Place>, p: Place, q: seq<Id>, t: Id)
    requires Holds(place, p, q) && t in place
    ensures Holds(place[t := p], p, [t] + q)
  {
  }

  lemma PushTasklet(s: State, s': State, t: Id, u: Id)
    requires TaskletOk(s, t) && TaskletOk(s, u) && Enabled(s, Push(t)) && s' == PushStep(s, t)
    ensures TaskletOk(s', u)
  {
  }

  lemma PushUntouched(s: State, s': State, t: Id, r: nat)
    requires Keyed(s) && TaskletOk(s, t) && Enabled(s, Push(t)) && !s.on[t] && s' == PushStep(s, t) && r in s.runners
    ensures Untouched(s, s', r)
  {
  }

  lemma PushKeeps(s: State, t: Id)
    requires Inv(s) && Enabled(s, Push(t))
    ensures Inv(PushStep(s, t))
  {
    var s' := PushStep(s, t);
    if !s.on[t] {
      Pushed(s.next, s.head, s.list, t);
      HoldsPushed(s.place, Global, s.list, t);
      forall u | u in s'.on ensures TaskletOk(s', u) {
        PushTasklet(s, s', t, u);
      }
      forall r | r in s'.runners ensures RunnerOk(s', r) {
        PushUntouched(s, s', t, r);
        RunnerKept(s, s', r);
      }
    }
  }

  lemma RaiseKeeps(s: State)
    requires Inv(s) && Enabled(s, Raise)
    ensures Inv(Apply(s, Raise))
  {
    var s' := Apply(s, Raise);
    forall u | u in s'.on ensures TaskletOk(s', u) {
      assert TaskletOk(s, u);
    }
    forall r | r in s'.runners ensures RunnerOk(s', r) {
      RunnerKept(s, s', r);
    }
  }

  lemma SnapshotKeeps(s: State, r: nat)
    requires Inv(s) && Enabled(s, Snapshot(r))
    ensures Inv(Apply(s, Snapshot(r)))
  {
    var s' := Apply(s, Snapshot(r));
    forall u | u in s'.on ensures TaskletOk(s', u) && !With(s.place[u], r) {
      assert TaskletOk(s, u);
    }
    forall r' | r' in s'.runners && r' != r ensures RunnerOk(s', r') {
      RunnerKept(s, s', r');
    }
    assert RunnerOk(s', r) && s'.runners[r] == Start;
  }

  lemma DetachedHolds(place: map<Id, Place>, r: nat, q: seq<Id>)
    requires Holds(place, Global, q) && Holds(place, InList(r), [])
    ensures Holds(Moved(place, r), InList(r), q) && Holds(Moved(place, r), Global, [])
  {
  }

  lemma DetachRunner(s: State, s': State, r: nat)
    requires RunnerOk(s, r) && Chain(s.next, s.head, s.list) && Holds(s.place, Global, s.list) && Enabled(s, Detach(r))
    requires s' == Apply(s, Detach(r))
    ensures RunnerOk(s', r) && Holds(s'.place, Global, [])
  {
    DetachedHolds(s.place, r, s.list);
    HoldsKept(s.place, s'.place, InHand(r), []);
  }

  lemma DetachOther(s: State, s': State, r: nat, r': nat)
    requires Keyed(s) && Enabled(s, Detach(r)) && s' == Apply(s, Detach(r)) && r' in s.runners && r' != r
    requires RunnerOk(s, r')
    ensures RunnerOk(s', r')
  {
    assert Untouched(s, s', r');
    RunnerKept(s, s', r');
  }

  lemma DetachTasklet(s: State, s': State, r: nat, u: Id)
    requires TaskletOk(s, u) && Enabled(s, Detach(r)) && s' == Apply(s, Detach(r))
    ensures TaskletOk(s', u)
  {
  }

  lemma DetachKeyed(s: State, s': State, r: nat)
    requires Keyed(s) && Enabled(s, Detach(r)) && s' == Apply(s, Detach(r))
    ensures Keyed(s') && Chain(s'.next, s'.head, s'.list) && Announced(s')
  {
    assert Moved(s.place, r).Keys == s.place.Keys;
  }

  lemma DetachOthers(s: State, s': State, r: nat)
    requires Keyed(s) && Enabled(s, Detach(r)) && s' == Apply(s, Detach(r)) && forall r' | r' in s.runners ::
      RunnerOk(s, r')
    ensures forall r' | r' in s'.runners && r' != r :: RunnerOk(s', r')
  {
    forall r' | r' in s'.runners && r' != r ensures RunnerOk(s', r') {
      DetachOther(s, s', r, r');
    }
  }

  lemma DetachTasklets(s: State, s': State, r: nat)
    requires Enabled(s, Detach(r)) && s' == Apply(s, Detach(r)) && forall u | u in s.on :: TaskletOk(s, u)
    ensures forall u | u in s'.on :: TaskletOk(s', u)
  {
    forall u | u in s'.on ensures TaskletOk(s', u) {
      DetachTasklet(s, s', r, u);
    }
  }

  lemma DetachKeeps(s: State, s': State, r: nat)
    requires Inv(s) && Enabled(s, Detach(r)) && s' == Apply(s, Detach(r))
    ensures Inv(s')
  {
    DetachKeyed(s, s', r);
    DetachRunner(s, s', r);
    DetachOthers(s, s', r);
    DetachTasklets(s, s', r);
  }

  /** A step of runner `r` alone: links, list and bit stay, and only what was or will be with `r` changes place. */
  ghost predicate StepOf(s: State, s': State, r: nat) {
    && s'.next == s.next && s'.head == s.head && s'.list == s.list && s'.pending == s.pending && s'.pushing == s.pushing
    && r in s.runners && s.runners[r] != Start && r in s'.runners && s'.runners == s.runners[r := s'.runners[r]]
    && s'.on.Keys == s.on.Keys && s'.place.Keys == s.place.Keys && s'.scheduled.Keys == s.scheduled.Keys
      && s'.runs.Keys == s.runs.Keys
    && forall u | u in s.place ::
      s'.place[u] == s.place[u] || (With(s.place[u], r) && (s'.place[u] == Off || With(s'.place[u], r)))
  }

  lemma OthersUntouched(s: State, s': State, r: nat, r': nat)
    requires Keyed(s) && StepOf(s, s', r) && r' in s.runners && r' != r
    ensures Untouched(s, s', r')
  {
  }

  lemma StepOfGlobal(s: State, s': State, r: nat)
    requires Inv(s) && StepOf(s, s', r)
    ensures Holds(s'.place, Global, s'.list) && Announced(s')
  {
    HoldsKept(s.place, s'.place, Global, s.list);
    if r' :| r' in s.runners && s.runners[r'] == Start {
      assert s'.runners[r'] == Start;
    }
  }

  lemma StepOfKeeps(s: State, s': State, r: nat)
    requires Inv(s) && StepOf(s, s', r) && RunnerOk(s', r) && forall u | u in s'.on :: TaskletOk(s', u)
    ensures Inv(s')
  {
    StepOfGlobal(s, s', r);
    forall r' | r' in s'.runners && r' != r ensures RunnerOk(s', r') {
      OthersUntouched(s, s', r, r');
      RunnerKept(s, s', r');
    }
  }

  lemma PlaceMoved(place: map<Id, Place>, p: Place, q: seq<Id>, to: Place)
    requires Holds(place, p, q) && q != [] && p != to && forall j | 0 < j < |q| :: q[j] != q[0]
    ensures Holds(place[q[0] := to], p, q[1..])
  {
    forall t | t in place && place[t] == p && t != q[0] ensures t in q[1..] {
      assert t in q && q == [q[0]] + q[1..];
    }
  }

  lemma ChainRest(next: map<Id, Option<Id>>, at: Option<Id>, q: seq<Id>)
    requires Chain(next, at, q) && q != []
    ensures at == Some(q[0]) && q[0] in next && Chain(next, next[q[0]], q[1..]) && forall j | 0 < j < |q| ::
      q[j] != q[0]
  {
  }

  lemma TakeRunner(s: State, s': State, r: nat)
    requires RunnerOk(s, r) && Enabled(s, Take(r)) && s' == Apply(s, Take(r))
    ensures RunnerOk(s', r) && s.runners[r].at.value in s.place && s.place[s.runners[r].at.value] == InList(r)
  {
    var p := s.runners[r];
    ChainRest(s.next, p.at, p.rest);
    PlaceMoved(s.place, InList(r), p.rest, InHand(r));
    HoldsPushed(s.place, InHand(r), [], p.rest[0]);
  }

  lemma TakeTasklet(s: State, s': State, r: nat, u: Id)
    requires TaskletOk(s, u) && Enabled(s, Take(r)) && s' == Apply(s, Take(r))
    requires s.runners[r].at.value in s.place && s.place[s.runners[r].at.value] == InList(r)
    ensures TaskletOk(s', u)
  {
  }

  lemma TakeStepOf(s: State, s': State, r: nat)
    requires Keyed(s) && Enabled(s, Take(r)) && s' == Apply(s, Take(r))
    requires s.runners[r].at.value in s.place && s.place[s.runners[r].at.value] == InList(r)
    ensures StepOf(s, s', r)
  {
  }

  lemma TakeKeeps(s: State, r: nat)
    requires Inv(s) && Enabled(s, Take(r))
    ensures Inv(Apply(s, Take(r)))
  {
    var s' := Apply(s, Take(r));
    TakeRunner(s, s', r);
    TakeStepOf(s, s', r);
    forall u | u in s'.on ensures TaskletOk(s', u) {
      TakeTasklet(s, s', r, u);
    }
    StepOfKeeps(s, s', r);
  }

  lemma ClearRunner(s: State, s': State, r: nat)
    requires RunnerOk(s, r) && Enabled(s, Clear(r)) && s' == Apply(s, Clear(r))
    ensures RunnerOk(s', r) && s.runners[r].t in s.place && s.place[s.runners[r].t] == InHand(r)
  {
    var p := s.runners[r];
    assert [p.t][0] == p.t;
    PlaceMoved(s.place, InHand(r), [p.t], Off);
    HoldsKept(s.place, s'.place, InList(r), p.rest);
  }

  lemma ClearTasklet(s: State, s': State, r: nat, u: Id)
    requires TaskletOk(s, u) && Enabled(s, Clear(r)) && s' == Apply(s, Clear(r))
    requires s.runners[r].t in s.place && s.place[s.runners[r].t] == InHand(r)
    ensures TaskletOk(s', u)
  {
  }

  lemma ClearStepOf(s: State, s': State, r: nat)
    requires Keyed(s) && Enabled(s, Clear(r)) && s' == Apply(s, Clear(r))
    requires s.runners[r].t in s.place && s.place[s.runners[r].t] == InHand(r)
    ensures StepOf(s, s', r)
  {
  }

  lemma ClearKeeps(s: State, r: nat)
    requires Inv(s) && Enabled(s, Clear(r))
    ensures Inv(Apply(s, Clear(r)))
  {
    var s' := Apply(s, Clear(r));
    ClearRunner(s, s', r);
    ClearStepOf(s, s', r);
    forall u | u in s'.on ensures TaskletOk(s', u) {
      ClearTasklet(s, s', r, u);
    }
    StepOfKeeps(s, s', r);
  }

  lemma ReturnKeeps(s: State, r: nat)
    requires Inv(s) && Enabled(s, Return(r))
    ensures Inv(Apply(s, Return(r)))
  {
    var s' := Apply(s, Return(r));
    assert RunnerOk(s, r);
    forall u | u in s'.on ensures TaskletOk(s', u) {
      assert TaskletOk(s, u);
    }
    StepOfKeeps(s, s', r);
  }

  lemma FinishKeeps(s: State, r: nat)
    requires Inv(s) && Enabled(s, Finish(r))
    ensures Inv(Apply(s, Finish(r)))
  {
    var s' := Apply(s, Finish(r));
    assert RunnerOk(s, r) && s.runners[r].rest == [];
    forall u | u in s'.on ensures TaskletOk(s', u) {
      assert TaskletOk(s, u) && !With(s.place[u], r);
    }
    forall r' | r' in s'.runners ensures RunnerOk(s', r') {
      RunnerKept(s, s', r');
    }
    assert forall r' | r' in s.runners && s.runners[r'] == Start :: r' in s'.runners && s'.runners[r'] == Start;
  }

  lemma StepKeeps(s: State, step: Step)
    requires Inv(s) && Enabled(s, step)
    ensures Inv(Apply(s, step))
  {
    match step
    case Push(t) => PushKeeps(s, t);
    case Raise => RaiseKeeps(s);
    case Snapshot(r) => SnapshotKeeps(s, r);
    case Detach(r) => DetachKeeps(s, Apply(s, step), r);
    case Take(r) => TakeKeeps(s, r);
    case Clear(r) => ClearKeeps(s, r);
    case Return(r) => ReturnKeeps(s, r);
    case Finish(r) => FinishKeeps(s, r);
  }

  // ---- whole runs ----

  ghost predicate Init(s: State) {
    && Keyed(s) && s.head == None && s.list == [] && !s.pending && !s.pushing && s.runners == map[]
    && forall t | t in s.on :: !s.on[t] && s.place[t] == Off && s.scheduled[t] == 0 && s.runs[t] == 0
  }

  ghost predicate IsRun(ss: seq<State>, steps: seq<Step>) {
    && |ss| == |steps| + 1 && Init(ss[0])
    && forall i | 0 <= i < |steps| :: Enabled(ss[i], steps[i]) && ss[i + 1] == Apply(ss[i], steps[i])
  }

  /**
   * Under every interleaving: each tasklet is in one place exactly if its state is set, and queued work is announced.
   */
  lemma {:induction false} RunKeeps(ss: seq<State>, steps: seq<Step>, k: nat)
    requires IsRun(ss, steps) && k < |ss|
    ensures Inv(ss[k])
  {
    if k > 0 {
      RunKeeps(ss, steps, k - 1);
      StepKeeps(ss[k - 1], steps[k - 1]);
    }
  }

  /** No tasklet is lost and none runs twice: once nothing is pending or under way, runs equal effective schedules. */
  lemma NothingLost(ss: seq<State>, steps: seq<Step>, k: nat, t: Id)
    requires IsRun(ss, steps) && k < |ss| && t in ss[k].on
    requires !ss[k].pending && !ss[k].pushing && ss[k].runners == map[]
    ensures t in ss[k].scheduled && t in ss[k].runs && ss[k].scheduled[t] == ss[k].runs[t] && !ss[k].on[t]
  {
    RunKeeps(ss, steps, k);
    assert TaskletOk(ss[k], t);
  }

  /** A step that schedules the idle tasklet `t`. */
  predicate Enlists(s: State, step: Step, t: Id) {
    step == Push(t) && t in s.on && !s.on[t]
  }

  /** A step that starts the handler of `t`: the runner that has taken `t` clears its state and calls it. */
  predicate Handles(s: State, step: Step, t: Id) {
    step.Clear? && step.r in s.runners && s.runners[step.r].Hand? && s.runners[step.r].t == t
  }

  /** How many of the first `k` steps of a run scheduled `t` while it was idle. */
  function Schedulings(ss: seq<State>, steps: seq<Step>, k: nat, t: Id): nat
    requires k <= |steps| <= |ss|
  {
    if k == 0 then 0
    else Schedulings(ss, steps, k - 1, t) + if Enlists(ss[k - 1], steps[k - 1], t) then 1 else 0
  }

  /** How many of them started its handler. */
  function Handlings(ss: seq<State>, steps: seq<Step>, k: nat, t: Id): nat
    requires k <= |steps| <= |ss|
  {
    if k == 0 then 0
    else Handlings(ss, steps, k - 1, t) + if Handles(ss[k - 1], steps[k - 1], t) then 1 else 0
  }

  lemma StepCounts(s: State, step: Step, t: Id)
    requires Keyed(s) && t in s.on && Enabled(s, step)
    ensures var s' := Apply(s, step);
      && Keyed(s') && t in s'.on
      && s'.scheduled[t] == s.scheduled[t] + (if Enlists(s, step, t) then 1 else 0)
      && s'.runs[t] == s.runs[t] + if Handles(s, step, t) then 1 else 0
  {
    match step
    case Push(u) => PushCounts(s, u, t);
    case Clear(r) => ClearCounts(s, r, t);
    case _ =>
  }

  lemma PushCounts(s: State, u: Id, t: Id)
    requires Keyed(s) && t in s.on && Enabled(s, Push(u))
    ensures var s' := PushStep(s, u);
      && Keyed(s') && t in s'.on && s'.runs == s.runs
      && s'.scheduled[t] == s.scheduled[t] + if u == t && !s.on[t] then 1 else 0
  {
  }

  lemma ClearCounts(s: State, r: nat, t: Id)
    requires Keyed(s) && t in s.on && Enabled(s, Clear(r))
    ensures var s' := Apply(s, Clear(r));
      && Keyed(s') && t in s'.on && s'.scheduled == s.scheduled
      && s'.runs[t] == s.runs[t] + if s.runners[r].t == t then 1 else 0
  {
  }

  /** In every run the counts of the states are those of the steps taken. */
  lemma {:induction false} CountsAreSteps(ss: seq<State>, steps: seq<Step>, k: nat, t: Id)
    requires IsRun(ss, steps) && k <= |steps| && t in ss[0].on
    ensures Keyed(ss[k]) && t in ss[k].on
    ensures ss[k].scheduled[t] == Schedulings(ss, steps, k, t) && ss[k].runs[t] == Handlings(ss, steps, k, t)
  {
    if k > 0 {
      CountsAreSteps(ss, steps, k - 1, t);
      StepCounts(ss[k - 1], steps[k - 1], t);
    }
  }

  /** How many of the first `k` steps announced work. */
  function Raises(steps: seq<Step>, k: nat): nat
    requires k <= |steps|
  {
    if k == 0 then 0 else Raises(steps, k - 1) + if steps[k - 1].Raise? then 1 else 0
  }

  /** How many started a runner. */
  function Starts(steps: seq<Step>, k: nat): nat
    requires k <= |steps|
  {
    if k == 0 then 0 else Starts(steps, k - 1) + if steps[k - 1].Snapshot? then 1 else 0
  }

  /** In every run each announcement starts at most one runner, and one that has started none is still pending. */
  lemma {:induction false} OneRunnerEach(ss: seq<State>, steps: seq<Step>, k: nat)
    requires IsRun(ss, steps) && k <= |steps|
    ensures Starts(steps, k) + (if ss[k].pending then 1 else 0) <= Raises(steps, k)
    ensures Starts(steps, k) == 0 && Raises(steps, k) > 0 ==> ss[k].pending
  {
    if k > 0 {
      OneRunnerEach(ss, steps, k - 1);
      PendingStep(ss[k - 1], steps[k - 1]);
    }
  }

  lemma PendingStep(s: State, step: Step)
    requires Enabled(s, step)
    ensures Apply(s, step).pending == if step.Raise? then true else if step.Snapshot? then false else s.pending
    ensures step.Snapshot? ==> s.pending
  {
  }

  /**
   * Once nothing is pending or under way, a handler was called exactly as often as its tasklet was scheduled while
   * idle.
   */
  lemma CalledAsScheduled(ss: seq<State>, steps: seq<Step>, k: nat, t: Id)
    requires IsRun(ss, steps) && k <= |steps| && t in ss[0].on
    requires !ss[k].pending && !ss[k].pushing && ss[k].runners == map[]
    ensures Handlings(ss, steps, k, t) == Schedulings(ss, steps, k, t)
  {
    CountsAreSteps(ss, steps, k, t);
    NothingLost(ss, steps, k, t);
  }

  /** A tasklet with its state set sits in the shared list or with one runner, and nowhere else. */
  lemma OnePlace(s: State, t: Id, r: nat)
    requires Inv(s) && t in s.on && r in s.runners && !s.runners[r].Start?
    ensures !s.on[t] ==> t !in s.list && t !in s.runners[r].rest
    ensures t in s.list ==> t !in s.runners[r].rest && s.runners[r] != Hand(t, s.runners[r].at, s.runners[r].rest)
    ensures t in s.runners[r].rest ==> forall r' | r' in s.runners && r' != r && !s.runners[r'].Start? ::
      t !in s.runners[r'].rest
  {
    assert TaskletOk(s, t) && RunnerOk(s, r);
    if s.runners[r].Hand? {
      assert [s.runners[r].t][0] == s.runners[r].t;
    }
    forall r' | r' in s.runners && r' != r && !s.runners[r'].Start? && t in s.runners[r].rest
      ensures t !in s.runners[r'].rest
    {
      assert RunnerOk(s, r');
    }
  }

  // ---- runners finish ----

  /** The step a runner is about to take. */
  function OwnStep(s: State, r: nat): Step
    requires r in s.runners
  {
    match s.runners[r]
    case Start => Detach(r)
    case Loop(at, rest) => if at == None then Finish(r) else Take(r)
    case Hand(t, at, rest) => Clear(r)
    case Call(t, at, rest) => Return(r)
  }

  /** A runner can always go on; only the detaching waits, for a schedule under way. */
  lemma RunnerCanStep(s: State, r: nat)
    requires Inv(s) && r in s.runners && (s.runners[r] == Start ==> !s.pushing)
    ensures Enabled(s, OwnStep(s, r))
  {
    assert RunnerOk(s, r);
    if s.runners[r].Hand? {
      assert [s.runners[r].t][0] == s.runners[r].t;
      assert TaskletOk(s, s.runners[r].t);
    }
  }

  /** The steps a runner has left once it has detached the list. */
  function Left(p: Phase): nat
    requires p != Start
  {
    match p
    case Loop(at, rest) => 3 * |rest| + 1
    case Hand(t, at, rest) => 3 * |rest| + 3
    case Call(t, at, rest) => 3 * |rest| + 2
  }

  /** Each own step leaves fewer; no step of others, not even rescheduling from a handler, adds any. */
  lemma RunnerProgress(s: State, step: Step, r: nat)
    requires Enabled(s, step) && r in s.runners && s.runners[r] != Start
    ensures step == OwnStep(s, r) ==>
      r !in Apply(s, step).runners
        || (Apply(s, step).runners[r] != Start && Left(Apply(s, step).runners[r]) < Left(s.runners[r]))
    ensures step != OwnStep(s, r) ==> r in Apply(s, step).runners && Apply(s, step).runners[r] == s.runners[r]
  {
  }

  // ---- the calls as they run, one at a time ----

  /** The shared words: the list pointer, the links, the state words and the pending bit. */
  datatype Words = Words(head: Option<Id>, next: map<Id, Option<Id>>, on: map<Id, bool>, pending: bool)

  /** The state words are set for exactly the members of two lists, which share none. */
  ghost predicate SetFor(on: map<Id, bool>, rest: seq<Id>, list: seq<Id>) {
    (forall t | t in on :: on[t] <==> t in rest || t in list) && forall t | t in rest :: t !in list
  }

  /** `list` is scheduled; `rest` is what a runner, now at `at`, still has of a list it took. */
  ghost predicate Encodes(w: Words, at: Option<Id>, rest: seq<Id>, list: seq<Id>) {
    && w.next.Keys == w.on.Keys && Chain(w.next, w.head, list) && Chain(w.next, at, rest) && (w.pending <==> list != [])
    && SetFor(w.on, rest, list)
  }

  /** The list after `t` is scheduled: in front, unless it is already scheduled or about to run. */
  function Listed(list: seq<Id>, rest: seq<Id>, t: Id): seq<Id> {
    if t in rest || t in list then list else [t] + list
  }

  function ListedAll(list: seq<Id>, rest: seq<Id>, ts: seq<Id>): seq<Id> {
    if ts == [] then list else Listed(ListedAll(list, rest, ts[..|ts| - 1]), rest, ts[|ts| - 1])
  }

  /** What a tasklet's handler schedules, in order. */
  function Schedules(handlers: map<Id, seq<Id>>, t: Id): seq<Id> {
    if t in handlers then handlers[t] else []
  }

  /** Handlers schedule only tasklets that exist. */
  ghost predicate HandlersKnown(handlers: map<Id, seq<Id>>, ids: set<Id>) {
    forall t, u | t in handlers && u in handlers[t] :: u in ids
  }

  /** The list once the first `k` handlers of a list that was taken have run. */
  function Rescheduled(all: seq<Id>, handlers: map<Id, seq<Id>>, k: nat): seq<Id>
    requires k <= |all|
  {
    if k == 0 then [] else ListedAll(Rescheduled(all, handlers, k - 1), all[k..], Schedules(handlers, all[k - 1]))
  }

  lemma {:induction false} ListedMembers(list: seq<Id>, rest: seq<Id>, ts: seq<Id>, t: Id)
    ensures t in ListedAll(list, rest, ts) <==> t in list || (t in ts && t !in rest)
  {
    if ts != [] {
      assert ts == ts[..|ts| - 1] + [ts[|ts| - 1]];
      ListedMembers(list, rest, ts[..|ts| - 1], t);
    }
  }

  /** Nothing a handler schedules is lost: it is scheduled at the end, or ran later in the same pass. */
  lemma {:induction false} HandlersHeard(all: seq<Id>, handlers: map<Id, seq<Id>>, k: nat, i: nat, t: Id)
    requires i < k <= |all| && t in Schedules(handlers, all[i])
    ensures t in Rescheduled(all, handlers, k) || t in all[i + 1..]
  {
    ListedMembers(Rescheduled(all, handlers, k - 1), all[k..], Schedules(handlers, all[k - 1]), t);
    if i < k - 1 {
      HandlersHeard(all, handlers, k - 1, i, t);
    }
  }

  /** And nothing else is scheduled at the end. */
  lemma {:induction false} OnlyHandlersHeard(all: seq<Id>, handlers: map<Id, seq<Id>>, k: nat, t: Id)
    requires k <= |all| && t in Rescheduled(all, handlers, k)
    ensures exists i | 0 <= i < k :: t in Schedules(handlers, all[i])
  {
    ListedMembers(Rescheduled(all, handlers, k - 1), all[k..], Schedules(handlers, all[k - 1]), t);
    if t in Rescheduled(all, handlers, k - 1) {
      OnlyHandlersHeard(all, handlers, k - 1, t);
    }
  }

  lemma ChainBeside(next: map<Id, Option<Id>>, at: Option<Id>, q: seq<Id>, t: Id, to: Option<Id>)
    requires Chain(next, at, q) && t !in q
    ensures Chain(next[t := to], at, q)
  {
  }

  /** The words after an idle tasklet is linked in front and announced; a scheduled one changes nothing. */
  function Enlisted(w: Words, t: Id): Words
    requires t in w.on && t in w.next
  {
    if w.on[t] then w else Words(Some(t), w.next[t := w.head], w.on[t := true], true)
  }

  function Shared(s: State): Words {
    Words(s.head, s.next, s.on, s.pending)
  }

  /** The steps of a scheduling, taken together, do to the shared words what tasklet_schedule does. */
  lemma PushIsSchedule(s: State, t: Id)
    requires Enabled(s, Push(t))
    ensures s.on[t] ==> Apply(s, Push(t)) == s
    ensures !s.on[t] ==> Enabled(Apply(s, Push(t)), Raise)
    ensures !s.on[t] ==> Shared(Apply(Apply(s, Push(t)), Raise)) == Enlisted(Shared(s), t)
  {
  }

  /** tasklet_schedule on the words. */
  method Put(w: Words, t: Id, ghost at: Option<Id>, ghost rest: seq<Id>, ghost list: seq<Id>) returns (w': Words)
    requires Encodes(w, at, rest, list) && t in w.on
    ensures Encodes(w', at, rest, Listed(list, rest, t)) && w'.on.Keys == w.on.Keys
    ensures t in w.next && w' == Enlisted(w, t)
  {
    w' := w;
    if !w.on[t] {
      Pushed(w.next, w.head, list, t);
      ChainBeside(w.next, at, rest, t, w.head);
      w' := Words(Some(t), w.next[t := w.head], w.on[t := true], true);
    }
  }

  /** The schedules of one handler. */
  method PutAll(w: Words, ts: seq<Id>, ghost at: Option<Id>, ghost rest: seq<Id>, ghost list: seq<Id>)
    returns (w': Words)
    requires Encodes(w, at, rest, list) && forall t | t in ts :: t in w.on
    ensures Encodes(w', at, rest, ListedAll(list, rest, ts)) && w'.on.Keys == w.on.Keys
  {
    w' := w;
    for i := 0 to |ts|
      invariant Encodes(w', at, rest, ListedAll(list, rest, ts[..i])) && w'.on.Keys == w.on.Keys
    {
      assert ts[..i + 1][..i] == ts[..i];
      w' := Put(w', ts[i], at, rest, ListedAll(list, rest, ts[..i]));
    }
    assert ts[..|ts|] == ts;
  }

  /** The runner takes the next tasklet and clears its state word. */
  lemma FirstCleared(w: Words, at: Option<Id>, rest: seq<Id>, list: seq<Id>)
    requires Encodes(w, at, rest, list) && rest != []
    ensures rest[0] in w.next && Encodes(w.(on := w.on[rest[0] := false]), w.next[rest[0]], rest[1..], list)
  {
    ChainTail(w.next, at, rest);
    ClearedSet(w.on, rest, list);
  }

  lemma ChainTail(next: map<Id, Option<Id>>, at: Option<Id>, q: seq<Id>)
    requires Chain(next, at, q) && q != []
    ensures q[0] in next && q[0] !in q[1..] && Chain(next, next[q[0]], q[1..])
  {
  }

  lemma ClearedSet(on: map<Id, bool>, rest: seq<Id>, list: seq<Id>)
    requires SetFor(on, rest, list) && rest != [] && rest[0] !in rest[1..] && rest[0] in on
    ensures SetFor(on[rest[0] := false], rest[1..], list)
  {
    assert rest == [rest[0]] + rest[1..];
  }

  lemma NextOf(all: seq<Id>, k: nat)
    requires k < |all|
    ensures all[k..][0] == all[k] && all[k..][1..] == all[k + 1..] && all[..k] + [all[k]] == all[..k + 1]
  {
  }

  /** The loop of tasklet_action over the list it took. */
  method RunList(w: Words, head: Option<Id>, handlers: map<Id, seq<Id>>, ghost all: seq<Id>)
    returns (ran: seq<Id>, w': Words)
    requires Encodes(w, head, all, []) && HandlersKnown(handlers, w.on.Keys)
    ensures ran == all && Encodes(w', None, [], Rescheduled(all, handlers, |all|)) && w'.on.Keys == w.on.Keys
  {
    ran, w' := [], w;
    var at := head;
    ghost var k := 0;
    assert all[0..] == all;
    while at.Some?
      invariant k <= |all| && ran == all[..k] && w'.on.Keys == w.on.Keys
      invariant Encodes(w', at, all[k..], Rescheduled(all, handlers, k))
      decreases |all| - k
    {
      NextOf(all, k);
      ran := ran + [at.value];
      w', at := RunOne(w', at.value, handlers, all[k..], Rescheduled(all, handlers, k));
      k := k + 1;
    }
  }

  /** One round: the state word is cleared, then the handler runs. */
  method RunOne(w: Words, t: Id, handlers: map<Id, seq<Id>>, ghost rest: seq<Id>, ghost list: seq<Id>)
    returns (w': Words, at: Option<Id>)
    requires Encodes(w, Some(t), rest, list) && HandlersKnown(handlers, w.on.Keys)
    ensures rest != [] && rest[0] == t && w'.on.Keys == w.on.Keys
    ensures Encodes(w', at, rest[1..], ListedAll(list, rest[1..], Schedules(handlers, t)))
  {
    FirstCleared(w, Some(t), rest, list);
    at := w.next[t];
    w' := PutAll(w.(on := w.on[t := false]), Schedules(handlers, t), at, rest[1..], list);
  }

  /** The tasklet list and the pending bit, with the list behind the pointers as a ghost. */
  class Tasklets {
    var head: Option<Id>
    var next: map<Id, Option<Id>>
    var on: map<Id, bool>
    var pending: bool
    ghost var list: seq<Id>

    ghost predicate Valid()
      reads this
    {
      Encodes(Words(head, next, on, pending), None, [], list)
    }

    constructor (ids: set<Id>)
      ensures Valid() && list == [] && on.Keys == ids
    {
      head, pending, list := None, false, [];
      next, on := map t | t in ids :: None, map t | t in ids :: false;
    }

    /** tasklet_schedule */
    method Schedule(t: Id)
      requires Valid() && t in on
      modifies this
      ensures Valid() && list == (if t in old(list) then old(list) else [t] + old(list)) && on.Keys == old(on.Keys)
      ensures t in old(next) && Words(head, next, on, pending) == Enlisted(old(Words(head, next, on, pending)), t)
    {
      var w := Put(Words(head, next, on, pending), t, None, [], list);
      head, next, on, pending := w.head, w.next, w.on, w.pending;
      list := Listed(list, [], t);
    }

    /**
     * softirq_do_pending: everything scheduled runs once, latest first; what the handlers schedule meanwhile,
     * themselves included, waits for the next pass, except tasklets that were about to run in this one.
     */
    method DoPending(handlers: map<Id, seq<Id>>) returns (ran: seq<Id>)
      requires Valid() && HandlersKnown(handlers, on.Keys)
      modifies this
      ensures Valid() && on.Keys == old(on.Keys)
      ensures ran == old(list) && list == Rescheduled(old(list), handlers, |old(list)|)
    {
      ran := [];
      if pending {
        pending := false;
        var at := head;
        head := None;
        var w;
        ran, w := RunList(Words(head, next, on, pending), at, handlers, list);
        head, next, on, pending := w.head, w.next, w.on, w.pending;
        list := Rescheduled(list, handlers, |list|);
      }
    }
  }
}
