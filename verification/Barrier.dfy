/**
  ACE_Barrier (ACE/ace/Barrier.cpp): a reusable barrier for `count` threads made of two sub-barriers
  that take turns. `wait` holds the lock up to its condition wait and again from the wake-up to its
  return, so its atomic steps are the arrival and the wake-up.
 */
module Barrier {

  /** Where a thread is: outside `wait`, or blocked in the condition wait of a sub-barrier, and in the
      latter case whether a broadcast has reached it since it last blocked. */
  datatype Pc = Outside | Waiting(gen: nat, signalled: bool)

  /** `calls` and `rounds` are history: the number of calls of `wait` each thread has made and the
      number of times the generations were swapped. No step reads them. */
  datatype State = State(count: int, running: seq<int>, gen: nat, down: bool,
                         pc: seq<Pc>, calls: seq<nat>, rounds: nat)

  datatype Outcome = Blocks | Returns(value: int)

  function Init(count: nat, threads: nat): State {
    State(count, [count, count], 0, false, seq(threads, i => Outside), seq(threads, i => 0), 0)
  }

  function Broadcast(pc: seq<Pc>, g: nat): seq<Pc> {
    seq(|pc|, i requires 0 <= i < |pc| => if pc[i].Waiting? && pc[i].gen == g then Waiting(g, true) else pc[i])
  }

  ghost predicate Shape(s: State) {
    |s.running| == 2 && s.gen < 2 && |s.calls| == |s.pc|
    && forall t | 0 <= t < |s.pc| && s.pc[t].Waiting? :: s.pc[t].gen < 2
  }

  /** The arrival part of `wait`. */
  function Arrive(s: State, t: nat): (State, Outcome)
    requires Shape(s) && t < |s.pc| && s.pc[t].Outside?
  {
    var s := s.(calls := s.calls[t := s.calls[t] + 1]);
    if s.down then (s, Returns(-1))
    else if s.running[s.gen] == 1 then
      (s.(running := s.running[s.gen := s.count], gen := 1 - s.gen, pc := Broadcast(s.pc, s.gen),
          rounds := s.rounds + 1),
       Returns(0))
    else
      var s := s.(running := s.running[s.gen := s.running[s.gen] - 1]);
      if s.running[s.gen] != s.count then (s.(pc := s.pc[t := Waiting(s.gen, false)]), Blocks)
      else (s, Returns(0))
  }

  /** A blocked thread, signalled or not, wakes up and tests the loop condition of `wait` again. */
  function Wake(s: State, t: nat): (State, Outcome)
    requires Shape(s) && t < |s.pc| && s.pc[t].Waiting?
  {
    if s.running[s.pc[t].gen] != s.count then (s.(pc := s.pc[t := Waiting(s.pc[t].gen, false)]), Blocks)
    else (s.(pc := s.pc[t := Outside]), Returns(if s.down then -1 else 0))
  }

  function Shutdown(s: State): (State, Outcome)
    requires Shape(s)
  {
    if s.down then (s, Returns(-1))
    else (s.(down := true, running := s.running[s.gen := s.count], pc := Broadcast(s.pc, s.gen)), Returns(0))
  }

  // ----- The invariant

  function CountAt(pc: seq<Pc>, g: nat): nat {
    if pc == [] then 0
    else CountAt(pc[..|pc| - 1], g) + if pc[|pc| - 1].Waiting? && pc[|pc| - 1].gen == g then 1 else 0
  }

  function At(p: Pc, g: nat): nat {
    if p.Waiting? && p.gen == g then 1 else 0
  }

  lemma {:induction false} CountUpdate(pc: seq<Pc>, t: nat, p: Pc, g: nat)
    requires t < |pc|
    ensures CountAt(pc[t := p], g) == CountAt(pc, g) - At(pc[t], g) + At(p, g)
    decreases |pc|
  {
    var n := |pc| - 1;
    if t < n {
      assert pc[t := p][..n] == pc[..n][t := p];
      CountUpdate(pc[..n], t, p, g);
    } else {
      assert pc[t := p][..n] == pc[..n];
    }
  }

  lemma {:induction false} CountBroadcast(pc: seq<Pc>, b: nat, g: nat)
    ensures CountAt(Broadcast(pc, b), g) == CountAt(pc, g)
    decreases |pc|
  {
    if pc != [] {
      assert Broadcast(pc, b)[..|pc| - 1] == Broadcast(pc[..|pc| - 1], b);
      CountBroadcast(pc[..|pc| - 1], b, g);
    }
  }

  lemma {:induction false} CountBounds(pc: seq<Pc>, g: nat)
    ensures CountAt(pc, g) <= |pc|
    ensures CountAt(pc, g) == |pc| <==> forall t | 0 <= t < |pc| :: At(pc[t], g) == 1
    ensures CountAt(pc, g) == 0 <==> forall t | 0 <= t < |pc| :: At(pc[t], g) == 0
    decreases |pc|
  {
    if pc != [] {
      CountBounds(pc[..|pc| - 1], g);
    }
  }

  /** With exactly `count` threads: while the barrier is up, a thread in the current sub-barrier has
      made one call more than there were swaps and everybody else as many as there were; the current
      sub-barrier counts down the threads in it, and the other one is full, its waiters free to go. */
  ghost predicate Inv(s: State) {
    && Shape(s) && |s.pc| == s.count
    && (!s.down ==>
          && s.running[s.gen] == s.count - CountAt(s.pc, s.gen)
          && (s.count > 0 ==> CountAt(s.pc, s.gen) < s.count)
          && forall t | 0 <= t < s.count :: s.calls[t] == s.rounds + At(s.pc[t], s.gen))
    && (s.down ==> s.running[s.gen] == s.count)
    && s.running[1 - s.gen] == s.count
    && forall t | 0 <= t < s.count && s.pc[t].Waiting? && (s.down || s.pc[t].gen != s.gen) :: s.pc[t].signalled
  }

  lemma InvInit(count: nat)
    ensures Inv(Init(count, count))
  {
    CountBounds(Init(count, count).pc, 0);
  }

  lemma InvArrive(s: State, t: nat)
    requires Inv(s) && t < s.count && s.pc[t].Outside?
    ensures Inv(Arrive(s, t).0)
    ensures Arrive(s, t).1 != Blocks <==> s.down || CountAt(s.pc, s.gen) == s.count - 1
  {
    if !s.down {
      if s.running[s.gen] == 1 {
        var pc := Broadcast(s.pc, s.gen);
        OthersAllAt(s.pc, t, s.gen);
        CountBounds(pc, 1 - s.gen);
      } else {
        CountUpdate(s.pc, t, Waiting(s.gen, false), s.gen);
      }
    }
  }

  lemma OthersAllAt(pc: seq<Pc>, t: nat, g: nat)
    requires t < |pc| && pc[t].Outside? && CountAt(pc, g) == |pc| - 1
    ensures forall u | 0 <= u < |pc| && u != t :: At(pc[u], g) == 1
  {
    CountUpdate(pc, t, Waiting(g, true), g);
    CountBounds(pc[t := Waiting(g, true)], g);
    forall u | 0 <= u < |pc| && u != t ensures At(pc[u], g) == 1 {
      assert pc[t := Waiting(g, true)][u] == pc[u];
    }
  }

  lemma InvLeave(s: State, t: nat)
    requires Inv(s) && t < s.count && s.pc[t].Waiting? && (s.down || s.pc[t].gen != s.gen)
    ensures Inv(Wake(s, t).0) && Wake(s, t).1 == Returns(if s.down then -1 else 0)
  {
    CountUpdate(s.pc, t, Outside, s.gen);
    hide CountAt;
  }

  lemma InvStay(s: State, t: nat)
    requires Inv(s) && t < s.count && s.pc[t].Waiting? && !s.down && s.pc[t].gen == s.gen
    ensures Inv(Wake(s, t).0) && Wake(s, t).1 == Blocks
  {
    CountBounds(s.pc, s.gen);
    CountUpdate(s.pc, t, Waiting(s.gen, false), s.gen);
    hide CountAt;
  }

  lemma InvWake(s: State, t: nat)
    requires Inv(s) && t < s.count && s.pc[t].Waiting?
    ensures Inv(Wake(s, t).0)
    ensures Wake(s, t).1 == Blocks <==> !s.down && s.pc[t].gen == s.gen
  {
    hide Wake, CountAt;
    if s.down || s.pc[t].gen != s.gen {
      InvLeave(s, t);
    } else {
      InvStay(s, t);
    }
  }

  lemma InvShutdown(s: State)
    requires Inv(s)
    ensures Inv(Shutdown(s).0)
  {}

  // ----- Runs

  datatype Event = Arrival(t: nat) | WakeUp(t: nat) | Close

  ghost predicate Enabled(s: State, e: Event) {
    Shape(s) &&
    match e
    case Arrival(t) => t < |s.pc| && s.pc[t].Outside?
    case WakeUp(t) => t < |s.pc| && s.pc[t].Waiting?
    case Close => true
  }

  function Step(s: State, e: Event): (State, Outcome)
    requires Enabled(s, e)
  {
    match e
    case Arrival(t) => Arrive(s, t)
    case WakeUp(t) => Wake(s, t)
    case Close => Shutdown(s)
  }

  /** A run of a barrier for `count` threads that `threads` threads use. */
  ghost predicate IsRun(count: nat, threads: nat, states: seq<State>, events: seq<Event>) {
    |states| == |events| + 1 && states[0] == Init(count, threads)
    && forall i | 0 <= i < |events| :: Enabled(states[i], events[i]) && states[i + 1] == Step(states[i], events[i]).0
  }

  /** How many calls of `wait` thread t has made. */
  function Calls(s: State, t: nat): nat {
    if t < |s.calls| then s.calls[t] else 0
  }

  lemma InvStep(s: State, e: Event)
    requires Inv(s) && Enabled(s, e)
    ensures Inv(Step(s, e).0)
  {
    match e
    case Arrival(t) => InvArrive(s, t);
    case WakeUp(t) => InvWake(s, t);
    case Close => InvShutdown(s);
  }

  lemma {:induction false} InvRun(count: nat, states: seq<State>, events: seq<Event>, i: nat)
    requires IsRun(count, count, states, events) && i < |states|
    ensures Inv(states[i]) && states[i].count == count
    decreases i
  {
    hide Inv;
    if i == 0 {
      InvInit(count);
    } else {
      InvRun(count, states, events, i - 1);
      InvStep(states[i - 1], events[i - 1]);
    }
  }

  /** No early release: when a thread's k-th `wait` returns 0, every thread has made its k-th call. */
  lemma NoEarlyRelease(count: nat, states: seq<State>, events: seq<Event>, i: nat, t: nat, u: nat)
    requires IsRun(count, count, states, events) && i < |events| && t < count && u < count
    requires events[i] == Arrival(t) || events[i] == WakeUp(t)
    requires Step(states[i], events[i]).1 == Returns(0)
    ensures Calls(states[i + 1], u) >= Calls(states[i + 1], t)
  {
    InvRun(count, states, events, i);
    InvRun(count, states, events, i + 1);
    if events[i] == Arrival(t) {
      InvArrive(states[i], t);
    } else {
      InvWake(states[i], t);
    }
    hide CountAt;
  }

  /** Nobody is turned away early either: a call or wake-up returns 0 unless the barrier is down. */
  lemma OnlyShutdownFails(count: nat, states: seq<State>, events: seq<Event>, i: nat)
    requires IsRun(count, count, states, events) && i < |events| && Step(states[i], events[i]).1.Returns?
    ensures Step(states[i], events[i]).1 == Returns(if states[i].down then -1 else 0)
  {}

  /** Until it is shut down, the barrier keeps all threads within one round of each other. */
  lemma RoundsAgree(count: nat, states: seq<State>, events: seq<Event>, i: nat, t: nat, u: nat)
    requires IsRun(count, count, states, events) && i < |states| && !states[i].down && t < count && u < count
    ensures Calls(states[i], t) <= Calls(states[i], u) + 1
  {
    InvRun(count, states, events, i);
  }

  /** A wake-up by a thread that a broadcast has reached, and that leaves the barrier. */
  ghost predicate CanLeave(s: State, t: nat) {
    Shape(s) && t < |s.pc| && s.pc[t].Waiting? && s.pc[t].signalled && Wake(s, t).1.Returns?
  }

  /** No waiter is stranded: one left behind in the previous generation, or in any when the barrier is
      down, has been signalled and will leave; no broadcast is lost. */
  lemma NoWaiterStranded(count: nat, states: seq<State>, events: seq<Event>, i: nat, t: nat)
    requires IsRun(count, count, states, events) && i < |states| && t < |states[i].pc|
    requires var s := states[i]; s.pc[t].Waiting? && (s.down || s.pc[t].gen != s.gen)
    ensures CanLeave(states[i], t)
  {
    InvRun(count, states, events, i);
    InvWake(states[i], t);
  }

  /** The last arrival completes the round: with everybody else blocked in the current generation it
      returns at once, and everybody else has been told to leave. */
  lemma LastArrivalReleases(count: nat, states: seq<State>, events: seq<Event>, i: nat, t: nat, u: nat)
    requires IsRun(count, count, states, events) && i < |events| && events[i] == Arrival(t) && !states[i].down
    requires forall v | 0 <= v < |states[i].pc| && v != t :: At(states[i].pc[v], states[i].gen) == 1
    requires u < |states[i].pc| && u != t
    ensures Step(states[i], Arrival(t)).1 == Returns(0) && CanLeave(states[i + 1], u)
  {
    var s := states[i];
    InvRun(count, states, events, i);
    CountUpdate(s.pc, t, Waiting(s.gen, true), s.gen);
    CountBounds(s.pc[t := Waiting(s.gen, true)], s.gen);
    InvArrive(s, t);
    hide CountAt;
    assert states[i + 1].pc[u] == Waiting(s.gen, true);
  }

  /** No deadlock: some thread is outside, free to call `wait`, or has been told to leave. */
  lemma SomeThreadCanStep(count: nat, states: seq<State>, events: seq<Event>, i: nat) returns (t: nat)
    requires IsRun(count, count, states, events) && i < |states| && count > 0
    ensures t < |states[i].pc| && (states[i].pc[t].Outside? || CanLeave(states[i], t))
  {
    var s := states[i];
    InvRun(count, states, events, i);
    CountBounds(s.pc, s.gen);
    if s.down {
      t := 0;
    } else {
      t :| 0 <= t < |s.pc| && At(s.pc[t], s.gen) == 0;
    }
    if s.pc[t].Waiting? {
      InvWake(s, t);
    }
  }

  // ----- Shutting down

  ghost predicate Waits(s: State, t: nat) {
    t < |s.pc| && s.pc[t].Waiting?
  }

  /** A shutdown takes the barrier down, whoever uses it, and releases everybody in the current generation.
      With exactly `count` threads it releases every waiter. */
  lemma ShutdownReleases(count: nat, threads: nat, states: seq<State>, events: seq<Event>, i: nat, t: nat)
    requires IsRun(count, threads, states, events) && i < |events| && events[i] == Close
    ensures states[i + 1].down && Step(states[i], Close).1 == Returns(if states[i].down then -1 else 0)
    ensures var s := states[i];
      Waits(s, t) && (threads == count || (!s.down && s.pc[t].gen == s.gen)) ==>
        CanLeave(states[i + 1], t) && Wake(states[i + 1], t).1 == Returns(-1)
  {
    SameCount(count, threads, states, events, i);
    if threads == count {
      InvRun(count, states, events, i);
      InvRun(count, states, events, i + 1);
    }
    hide CountAt;
  }

  lemma {:induction false} SameCount(count: nat, threads: nat, states: seq<State>, events: seq<Event>, i: nat)
    requires IsRun(count, threads, states, events) && i < |states|
    ensures states[i].count == count && |states[i].pc| == threads
    decreases i
  {
    if i > 0 {
      SameCount(count, threads, states, events, i - 1);
    }
  }

  /** It stays down, and no call of `wait` succeeds any more. */
  lemma {:induction false} DownForGood(count: nat, threads: nat, states: seq<State>, events: seq<Event>,
                                       from: nat, i: nat, t: nat)
    requires IsRun(count, threads, states, events) && from <= i < |states| && states[from].down
    ensures states[i].down
    ensures i < |events| && events[i] == Arrival(t) ==>
      Step(states[i], events[i]).1 == Returns(-1) && states[i + 1].pc == states[i].pc
    decreases i
  {
    if from < i {
      DownForGood(count, threads, states, events, from, i - 1, t);
    }
  }

  // ----- Draining after shutdown

  function Waiters(s: State): nat
  {
    CountAt(s.pc, 0) + CountAt(s.pc, 1)
  }

  function WakeUps(events: seq<Event>): nat {
    if events == [] then 0
    else WakeUps(events[..|events| - 1]) + if events[|events| - 1].WakeUp? then 1 else 0
  }

  lemma StepWhenDown(s: State, e: Event)
    requires Inv(s) && s.down && Enabled(s, e)
    ensures var (s', r) := Step(s, e);
      s'.down && r == Returns(-1) && Waiters(s') + (if e.WakeUp? then 1 else 0) == Waiters(s)
  {
    if e.WakeUp? {
      CountUpdate(s.pc, e.t, Outside, 0);
      CountUpdate(s.pc, e.t, Outside, 1);
    }
  }

  /** Once the barrier is down every call, every wake-up and every further shutdown returns -1, and
      each wake-up is one waiter gone for good: the waiters drain in exactly as many wake-ups. */
  lemma {:induction false} Drains(count: nat, states: seq<State>, events: seq<Event>, from: nat, i: nat)
    requires IsRun(count, count, states, events) && from <= i < |states| && states[from].down
    ensures Inv(states[from]) && Inv(states[i]) && states[i].down
    ensures Waiters(states[i]) + WakeUps(events[from..i]) == Waiters(states[from])
    ensures i < |events| ==> Step(states[i], events[i]).1 == Returns(-1)
    decreases i
  {
    hide Inv, Waiters, Step;
    InvRun(count, states, events, i);
    InvRun(count, states, events, from);
    if from < i {
      Drains(count, states, events, from, i - 1);
      StepWhenDown(states[i - 1], events[i - 1]);
      assert events[from..i][..i - 1 - from] == events[from..i - 1];
    }
    if i < |events| {
      StepWhenDown(states[i], events[i]);
    }
  }

  lemma Extend(count: nat, threads: nat, states: seq<State>, events: seq<Event>, s: State, e: Event)
    returns (states': seq<State>, events': seq<Event>, s': State)
    requires IsRun(count, threads, states, events) && states[|events|] == s && Enabled(s, e)
    ensures IsRun(count, threads, states', events') && states'[|events'|] == s' == Step(s, e).0
  {
    hide Step, Enabled;
    s' := Step(s, e).0;
    states', events' := states + [s'], events + [e];
  }

  /** Why exactly `count` threads: with one thread too many, three for a barrier of two, a waiter of a
      completed round finds its sub-barrier in use again and stays blocked. */
  lemma OneThreadTooMany() returns (states: seq<State>, events: seq<Event>, s: State)
    ensures IsRun(2, 3, states, events) && s == states[|events|]
    ensures s.rounds == 2 && Calls(s, 0) == 1 && Enabled(s, WakeUp(0)) && Step(s, WakeUp(0)).1 == Blocks
  {
    states, events, s := [Init(2, 3)], [], Init(2, 3);
    hide IsRun;
    states, events, s := Extend(2, 3, states, events, s, Arrival(0));
    states, events, s := Extend(2, 3, states, events, s, Arrival(1));
    states, events, s := Extend(2, 3, states, events, s, Arrival(1));
    states, events, s := Extend(2, 3, states, events, s, Arrival(2));
    states, events, s := Extend(2, 3, states, events, s, Arrival(2));
  }

  // ----- More threads than the barrier is for

  /** A call that arrived at step j and has been waiting since, though its round is complete, and whose
      wake-up would block again. */
  ghost predicate Overtaken(states: seq<State>, events: seq<Event>, j: nat, t: nat) {
    && |states| == |events| + 1 && j < |events| && events[j] == Arrival(t)
    && (forall i | j < i < |states| :: Waits(states[i], t))
    && states[|events|].rounds > states[j].rounds
    && Enabled(states[|events|], WakeUp(t)) && Step(states[|events|], WakeUp(t)).1 == Blocks
  }

  /** A call is counted when it begins, and none begins while it waits. */
  lemma {:induction false} CallsWhileWaiting(count: nat, states: seq<State>, events: seq<Event>, j: nat, t: nat, i: nat)
    requires IsRun(count, count, states, events) && j < i < |states| && events[j] == Arrival(t)
    requires forall k | j < k <= i :: Waits(states[k], t)
    ensures Calls(states[i], t) == Calls(states[j], t) + 1 && (states[j].down ==> states[i].down)
    decreases i
  {
    assert states[i] == Step(states[i - 1], events[i - 1]).0;
    if j + 1 < i {
      CallsWhileWaiting(count, states, events, j, t, i - 1);
      assert Waits(states[i - 1], t);
    }
  }

  /** With exactly `count` threads a waiter whose wake-up blocks is still in the round it arrived in. */
  lemma ExactlyEnough(count: nat, states: seq<State>, events: seq<Event>, j: nat, t: nat)
    requires IsRun(count, count, states, events)
    ensures !Overtaken(states, events, j, t)
  {
    if Overtaken(states, events, j, t) {
      var n := |events|;
      InvRun(count, states, events, j);
      InvRun(count, states, events, n);
      InvWake(states[n], t);
      CallsWhileWaiting(count, states, events, j, t, n);
      hide CountAt, Step;
    }
  }

  /** With fewer threads, or for no thread at all, no round is ever completed. */
  ghost predicate NoRound(s: State) {
    && Shape(s) && s.rounds == 0
    && if s.count == 0 then s.running[0] <= 0 && s.running[1] <= 0
       else |s.pc| < s.count && (!s.down ==> s.gen == 0 && s.running[0] == s.count - CountAt(s.pc, 0))
  }

  lemma NoRoundArrive(s: State, t: nat)
    requires NoRound(s) && s.count >= 0 && t < |s.pc| && s.pc[t].Outside?
    ensures NoRound(Arrive(s, t).0)
  {
    CountBounds(s.pc, 0);
    CountUpdate(s.pc, t, Waiting(0, false), 0);
    hide CountAt;
  }

  lemma NoRoundWake(s: State, t: nat)
    requires NoRound(s) && s.count >= 0 && t < |s.pc| && s.pc[t].Waiting?
    ensures NoRound(Wake(s, t).0)
  {
    CountBounds(s.pc, 0);
    CountUpdate(s.pc, t, Wake(s, t).0.pc[t], 0);
    hide CountAt;
  }

  lemma NoRoundStep(s: State, e: Event)
    requires NoRound(s) && Enabled(s, e) && s.count >= 0
    ensures NoRound(Step(s, e).0)
  {
    match e
    case Arrival(t) => NoRoundArrive(s, t);
    case WakeUp(t) => NoRoundWake(s, t);
    case Close => hide CountAt;
  }

  /** A barrier for one thread blocks nobody. */
  ghost predicate NobodyWaits(s: State) {
    Shape(s) && s.count == 1 && s.running == [1, 1] && forall t | 0 <= t < |s.pc| :: s.pc[t] == Outside
  }

  lemma NobodyWaitsStep(s: State, e: Event)
    requires NobodyWaits(s) && Enabled(s, e)
    ensures NobodyWaits(Step(s, e).0)
  {}

  lemma {:induction false} NoRoundRun(count: nat, threads: nat, states: seq<State>, events: seq<Event>, i: nat)
    requires IsRun(count, threads, states, events) && i < |states| && (threads < count || count <= 1)
    ensures states[i].count == count && (NoRound(states[i]) || NobodyWaits(states[i]))
    decreases i
  {
    if i == 0 {
      CountBounds(states[0].pc, 0);
    } else {
      NoRoundRun(count, threads, states, events, i - 1);
      hide NoRound, NobodyWaits;
      if NoRound(states[i - 1]) {
        NoRoundStep(states[i - 1], events[i - 1]);
      } else {
        NobodyWaitsStep(states[i - 1], events[i - 1]);
      }
    }
  }

  lemma NotEnough(count: nat, threads: nat, states: seq<State>, events: seq<Event>, j: nat, t: nat)
    requires IsRun(count, threads, states, events) && (threads < count || count <= 1)
    ensures !Overtaken(states, events, j, t)
  {
    if Overtaken(states, events, j, t) {
      NoRoundRun(count, threads, states, events, j);
      NoRoundRun(count, threads, states, events, |events|);
      hide IsRun;
    }
  }

  /** A run in which thread 0 arrives first and waits ever after. */
  ghost predicate FirstWaits(count: nat, threads: nat, states: seq<State>, events: seq<Event>, s: State) {
    && IsRun(count, threads, states, events) && s == states[|events|]
    && events != [] && events[0] == Arrival(0) && forall i | 0 < i < |states| :: Waits(states[i], 0)
  }

  lemma More(count: nat, threads: nat, states: seq<State>, events: seq<Event>, s: State, e: Event)
    returns (states': seq<State>, events': seq<Event>, s': State)
    requires FirstWaits(count, threads, states, events, s) && Enabled(s, e) && Waits(Step(s, e).0, 0)
    ensures FirstWaits(count, threads, states', events', s') && s' == Step(s, e).0
  {
    hide Step, Enabled, Waits;
    s' := Step(s, e).0;
    states', events' := states + [s'], events + [e];
  }

  /** All of a state but where its threads are. */
  ghost predicate Counters(s: State, count: nat, threads: nat, first: int, second: int, gen: nat, rounds: nat) {
    && Shape(s) && |s.pc| == threads && s.count == count && s.running == [first, second] && s.gen == gen && !s.down
    && s.rounds == rounds
  }

  /** Threads lo to hi - 1 are all at p. */
  ghost predicate AllAt(s: State, lo: nat, hi: nat, p: Pc) {
    hi <= |s.pc| && forall i | lo <= i < hi :: s.pc[i] == p
  }

  /** The first round: all but one of `count` threads block, the last one completes the round. */
  lemma FirstRound(count: nat, threads: nat) returns (states: seq<State>, events: seq<Event>, s: State)
    requires 2 <= count < threads
    ensures FirstWaits(count, threads, states, events, s) && Counters(s, count, threads, count, count, 1, 1)
    ensures AllAt(s, 0, count - 1, Waiting(0, true)) && AllAt(s, count - 1, threads, Outside)
  {
    var init := Init(count, threads);
    s := Step(init, Arrival(0)).0;
    states, events := [init, s], [Arrival(0)];
    var k := 1;
    while k < count - 1
      invariant 1 <= k <= count - 1 && FirstWaits(count, threads, states, events, s)
      invariant Counters(s, count, threads, count - k, count, 0, 0)
      invariant AllAt(s, 0, k, Waiting(0, false)) && AllAt(s, k, threads, Outside)
    {
      hide FirstWaits;
      states, events, s := More(count, threads, states, events, s, Arrival(k));
      k := k + 1;
    }
    hide FirstWaits;
    states, events, s := More(count, threads, states, events, s, Arrival(k));
  }

  /** All but thread 0 leave, and complete a second round with one thread more; thread 0 is still waiting
      when that thread arrives again. */
  lemma SecondRound(count: nat, threads: nat, before: seq<State>, did: seq<Event>, was: State)
    returns (states: seq<State>, events: seq<Event>, s: State)
    requires 2 <= count < threads
    requires FirstWaits(count, threads, before, did, was) && Counters(was, count, threads, count, count, 1, 1)
    requires AllAt(was, 0, count - 1, Waiting(0, true)) && AllAt(was, count - 1, threads, Outside)
    ensures FirstWaits(count, threads, states, events, s) && Counters(s, count, threads, count - 1, count, 0, 2)
    ensures s.pc[0] == Waiting(0, true)
  {
    hide FirstWaits;
    states, events, s := before, did, was;
    var k := 1;
    while k < count - 1
      invariant 1 <= k <= count - 1 && FirstWaits(count, threads, states, events, s)
      invariant Counters(s, count, threads, count, count, 1, 1) && s.pc[0] == Waiting(0, true)
      invariant AllAt(s, 1, k, Outside) && AllAt(s, k, count - 1, Waiting(0, true))
      invariant AllAt(s, count - 1, threads, Outside)
    {
      states, events, s := More(count, threads, states, events, s, WakeUp(k));
      k := k + 1;
    }
    k := 1;
    while k < count
      invariant 1 <= k <= count && FirstWaits(count, threads, states, events, s)
      invariant Counters(s, count, threads, count, count - k + 1, 1, 1) && s.pc[0] == Waiting(0, true)
      invariant AllAt(s, 1, k, Waiting(1, false)) && AllAt(s, k, threads, Outside)
    {
      states, events, s := More(count, threads, states, events, s, Arrival(k));
      k := k + 1;
    }
    states, events, s := More(count, threads, states, events, s, Arrival(count));
    states, events, s := More(count, threads, states, events, s, Arrival(count));
  }

  /** Why exactly `count` threads: a waiter of a completed round can find its sub-barrier in use again, and
      stay blocked, if and only if the barrier is for two threads or more and more threads than that use it. */
  lemma TooManyThreads(count: nat, threads: nat)
    ensures (exists states, events, j: nat, t: nat ::
               IsRun(count, threads, states, events) && Overtaken(states, events, j, t)) <==> 2 <= count < threads
  {
    if 2 <= count < threads {
      var states, events, s := FirstRound(count, threads);
      states, events, s := SecondRound(count, threads, states, events, s);
      assert Overtaken(states, events, 0, 0);
    } else {
      hide IsRun, Overtaken;
      forall states, events, j: nat, t: nat | IsRun(count, threads, states, events)
        ensures !Overtaken(states, events, j, t)
      {
        if threads == count {
          ExactlyEnough(count, states, events, j, t);
        } else {
          NotEnough(count, threads, states, events, j, t);
        }
      }
    }
  }

  /** A waiter of a completed round reports the shutdown if that comes before it wakes up. */
  lemma CompletedWaiterFails() returns (states: seq<State>, events: seq<Event>, s: State)
    ensures IsRun(2, 2, states, events) && s == states[|events|]
    ensures s.rounds == 1 && Calls(s, 0) == 1 && Enabled(s, WakeUp(0)) && Step(s, WakeUp(0)).1 == Returns(-1)
  {
    states, events, s := [Init(2, 2)], [], Init(2, 2);
    hide IsRun;
    states, events, s := Extend(2, 2, states, events, s, Arrival(0));
    states, events, s := Extend(2, 2, states, events, s, Arrival(1));
    states, events, s := Extend(2, 2, states, events, s, Close);
  }

  // ----- The barrier object

  class SubBarrier {
    var runningThreads: int

    constructor (count: nat)
      ensures runningThreads == count
    {
      runningThreads := count;
    }
  }

  /** The object itself. Its methods are the atomic steps, each made with the lock held; where its
      threads are is ghost, and `Model` ties the object to the states above. */
  class Barrier {
    const count: nat
    var currentGeneration: nat
    const subBarrier1: SubBarrier
    const subBarrier2: SubBarrier
    const sub: array<SubBarrier?>
    ghost var pc: seq<Pc>
    ghost var calls: seq<nat>
    ghost var rounds: nat

    ghost predicate Valid()
      reads this, sub
    {
      && currentGeneration < 2 && subBarrier1 != subBarrier2 && sub.Length == 2
      && (sub[..] == [subBarrier1, subBarrier2] || sub[..] == [null, null])
    }

    ghost function Model(): State
      reads this, sub, subBarrier1, subBarrier2
      requires Valid()
    {
      State(count, [subBarrier1.runningThreads, subBarrier2.runningThreads], currentGeneration,
            sub[0] == null, pc, calls, rounds)
    }

    /** The sub-barrier of a generation, null pointers in `sub` or not. */
    ghost function Sub(g: nat): SubBarrier {
      if g == 0 then subBarrier1 else subBarrier2
    }

    constructor (count: nat, ghost threads: nat)
      ensures Valid() && fresh(sub) && fresh(subBarrier1) && fresh(subBarrier2)
      ensures Model() == Init(count, threads)
    {
      this.count := count;
      currentGeneration := 0;
      subBarrier1 := new SubBarrier(count);
      subBarrier2 := new SubBarrier(count);
      sub := new SubBarrier?[2];
      pc := seq(threads, i => Outside);
      calls := seq(threads, i => 0);
      rounds := 0;
      new;
      sub[0] := subBarrier1;
      sub[1] := subBarrier2;
    }

    /** `wait` up to its return or its first condition wait; a thread that blocks keeps `sbp`. */
    method WaitArrival(ghost t: nat) returns (r: Outcome, sbp: SubBarrier?)
      requires Valid() && Enabled(Model(), Arrival(t))
      modifies this, subBarrier1, subBarrier2
      ensures Valid() && (Model(), r) == Step(old(Model()), Arrival(t))
      ensures r == Blocks ==> sbp == Sub(pc[t].gen)
    {
      ghost var s := Model();
      calls := calls[t := calls[t] + 1];
      sbp := sub[currentGeneration];
      if sbp == null {
        return Returns(-1), sbp;
      }
      if sbp.runningThreads == 1 {
        sbp.runningThreads := count;
        assert Model().running == s.running[s.gen := count];
        pc := Broadcast(pc, currentGeneration);
        rounds := rounds + 1;
        currentGeneration := 1 - currentGeneration;
      } else {
        sbp.runningThreads := sbp.runningThreads - 1;
        assert Model().running == s.running[s.gen := s.running[s.gen] - 1];
        if sbp.runningThreads != count {
          pc := pc[t := Waiting(currentGeneration, false)];
          return Blocks, sbp;
        }
        if sub[currentGeneration] == null {
          return Returns(-1), sbp;
        }
      }
      r := Returns(0);
    }

    /** `wait` from a return of its condition wait to the next one or to its return. */
    method WaitWakeUp(ghost t: nat, sbp: SubBarrier) returns (r: Outcome)
      requires Valid() && Enabled(Model(), WakeUp(t)) && sbp == Sub(pc[t].gen)
      modifies this
      ensures Valid() && (Model(), r) == Step(old(Model()), WakeUp(t))
    {
      if sbp.runningThreads != count {
        pc := pc[t := Waiting(pc[t].gen, false)];
        return Blocks;
      }
      pc := pc[t := Outside];
      if sub[currentGeneration] == null {
        r := Returns(-1);
      } else {
        r := Returns(0);
      }
    }

    method ShutdownBarrier() returns (r: Outcome)
      requires Valid() && Enabled(Model(), Close)
      modifies this, sub, subBarrier1, subBarrier2
      ensures Valid() && (Model(), r) == Step(old(Model()), Close)
      ensures sub[..] == [null, null] && r == Returns(if old(sub[0]) == null then -1 else 0)
      ensures old(sub[0]) != null ==>
        && Sub(currentGeneration).runningThreads == count
        && forall t | 0 <= t < |pc| && pc[t].Waiting? && pc[t].gen == currentGeneration :: pc[t].signalled
    {
      ghost var s := Model();
      var sbp := sub[currentGeneration];
      if sbp == null {
        return Returns(-1);
      }
      sub[0] := null;
      sub[1] := null;
      sbp.runningThreads := count;
      assert Model().running == s.running[s.gen := count];
      pc := Broadcast(pc, currentGeneration);
      r := Returns(0);
    }
  }

  /** What each waiting thread holds on to: the sub-barrier it blocked in. */
  ghost predicate Holds(b: Barrier, held: map<nat, SubBarrier>)
    reads b
  {
    forall t | 0 <= t < |b.pc| && b.pc[t].Waiting? :: t in held && held[t] == b.Sub(b.pc[t].gen)
  }

  lemma SameGeneration(s: State, e: Event, u: nat)
    requires Enabled(s, e) && u < |s.pc| && u < |Step(s, e).0.pc| && Step(s, e).0.pc[u].Waiting?
    ensures (s.pc[u].Waiting? && s.pc[u].gen == Step(s, e).0.pc[u].gen) || (e == Arrival(u) && Step(s, e).1 == Blocks)
  {}

  /** Any step the model can make, made by the object, with the sub-barriers its threads hold on to. */
  method Perform(b: Barrier, held: map<nat, SubBarrier>, e: Event) returns (r: Outcome, held': map<nat, SubBarrier>)
    requires b.Valid() && Holds(b, held) && Enabled(b.Model(), e)
    modifies b, b.sub, b.subBarrier1, b.subBarrier2
    ensures b.Valid() && Holds(b, held') && (b.Model(), r) == Step(old(b.Model()), e)
  {
    ghost var s := b.Model();
    held' := held;
    match e {
      case Arrival(t) =>
        var sbp;
        r, sbp := b.WaitArrival(t);
        if r == Blocks {
          held' := held[t := sbp];
        }
      case WakeUp(t) =>
        r := b.WaitWakeUp(t, held[t]);
      case Close =>
        r := b.ShutdownBarrier();
    }
    forall u: nat | u < |b.pc| && b.pc[u].Waiting? ensures u in held' && held'[u] == b.Sub(b.pc[u].gen) {
      SameGeneration(s, e, u);
    }
  }

  /** The object goes through any run of the model, step by step, with the outcomes the run has: what
      holds of every run holds of the object. */
  method Drive(b: Barrier, events: seq<Event>, ghost states: seq<State>) returns (outcomes: seq<Outcome>)
    requires b.Valid() && b.Model() == Init(b.count, b.count) && IsRun(b.count, b.count, states, events)
    modifies b, b.sub, b.subBarrier1, b.subBarrier2
    ensures b.Valid() && b.Model() == states[|events|] && |outcomes| == |events|
    ensures forall i | 0 <= i < |events| :: outcomes[i] == Step(states[i], events[i]).1
    ensures Inv(b.Model())
  {
    outcomes := [];
    var held := map[];
    for k := 0 to |events|
      invariant b.Valid() && Holds(b, held) && b.Model() == states[k] && |outcomes| == k
      invariant forall i | 0 <= i < k :: outcomes[i] == Step(states[i], events[i]).1
    {
      var r;
      r, held := Perform(b, held, events[k]);
      outcomes := outcomes + [r];
    }
    InvRun(b.count, states, events, |events|);
  }
}
