/**
  DSRT_CV_Dispatcher_Impl (ACE/Kokyu/DSRT_CV_Dispatcher_Impl_T.cpp): threads schedule themselves and wait
  on one condition variable until each is the most eligible one and nobody else is scheduled.

  The steps take any guid. The results are for threads that use one guid each, their own, so that a
  thread and its guid are one number, and 0 is neither. `synch_lock_` is held from an insertion to the
  arbitration after it and from a removal to the broadcast after it; `run_cond_lock_` covers
  arbitrations, wake-ups and broadcasts. An arbitration or wake-up reads the queue once and then the
  current handle; that it may be taken as one step, although steps under the other lock can come
  between, is proved below. The timeout of the condition wait is a wake-up like any other.
 */
module CvDispatcher {
  import opened Eligibility
  import opened ReadyQueue

  /** Entering: holds `synch_lock_` between its insertion and its arbitration. Waiting: in the condition
      wait, reached by a broadcast since or not. Leaving: holds `synch_lock_` before its broadcast. */
  datatype Pc = Outside | Entering | Waiting(signalled: bool) | Running | Leaving

  /** `holder` is the thread that holds `synch_lock_` from one step to the next, or 0. */
  datatype State = State(c: Comparator, items: Items, curr: nat, currGuid: nat, pc: map<nat, Pc>, holder: nat)

  datatype Outcome = Continues | Blocks | Returns(value: int)

  function Init(c: Comparator, threads: set<nat>): State {
    State(c, map[], 0, 0, map t | t in threads :: Outside, 0)
  }

  function Broadcast(pc: map<nat, Pc>): map<nat, Pc> {
    map t | t in pc :: if pc[t].Waiting? then Waiting(true) else pc[t]
  }

  /** What keeps the steps below from reading an empty queue: a thread that inserts or waits is queued. */
  ghost predicate Shape(s: State) {
    && 0 !in s.pc && Keyed(s.c, s.items)
    && (forall t | t in s.items :: t in s.pc && s.items[t].thread == t)
    && forall t | t in s.pc && (s.pc[t].Entering? || s.pc[t].Waiting?) :: t in s.items
  }

  // ----- The atomic steps

  ghost predicate Idle(s: State, t: nat) {
    t in s.pc && (s.pc[t].Outside? || s.pc[t].Running?) && s.holder == 0
  }

  /** `schedule_i` up to the insertion. */
  ghost function Insert(s: State, t: nat, item: Item): (State, Outcome) {
    var (items, ok) := Inserted(s.c, s.items, item);
    if !ok then (s.(items := items), Returns(-1))
    else (s.(items := items, pc := s.pc[t := Entering], holder := t), Continues)
  }

  /** The test of the loop in `schedule_i`, with what follows it, for the item read from the queue. */
  function Check(s: State, t: nat, head: Item): (State, Outcome) {
    if head.thread != t || (head.thread == t && s.curr != t && s.curr != 0) then
      (s.(pc := s.pc[t := Waiting(false)]), Blocks)
    else
      (s.(currGuid := head.guid, curr := head.thread, pc := s.pc[t := Running]), Returns(0))
  }

  /** The hand-off in front of that loop, and the loop. */
  function HandOffAndCheck(s: State, t: nat, head: Item): (State, Outcome) {
    Check(if s.curr == t && head.thread != t then s.(curr := head.thread, pc := Broadcast(s.pc)) else s, t, head)
  }

  ghost function HeadItem(s: State): Item
    requires Keyed(s.c, s.items) && s.items != map[]
  {
    s.items[Head(s.c, s.items)]
  }

  /** `schedule_i` from the insertion to its condition wait or its return. */
  ghost function Arbitrate(s: State, t: nat): (State, Outcome)
    requires Keyed(s.c, s.items) && s.items != map[]
  {
    HandOffAndCheck(s.(holder := 0), t, HeadItem(s))
  }

  /** `schedule_i` from a return of its condition wait to the next one or to its return. */
  ghost function WakeUp(s: State, t: nat): (State, Outcome)
    requires Keyed(s.c, s.items) && s.items != map[]
  {
    Check(s, t, HeadItem(s))
  }

  /** The two halves of `cancel_schedule_i` before its broadcast: the removal, and the reset of the handle. */
  function Remove(s: State, t: nat, g: nat): State {
    s.(items := s.items - {g}, pc := s.pc[t := Leaving], holder := t)
  }

  function Reset(s: State, t: nat): State {
    if s.curr == t then s.(curr := 0, currGuid := 0) else s
  }

  function Cancel(s: State, t: nat, g: nat): (State, Outcome) {
    (Reset(Remove(s, t, g), t), Continues)
  }

  /** The broadcast of `cancel_schedule_i`. */
  function Release(s: State, t: nat): (State, Outcome) {
    (s.(pc := Broadcast(s.pc)[t := Outside], holder := 0), Returns(0))
  }

  /** `update_schedule_i` with a block flag: cancels what it finds. */
  function UpdateFlag(s: State, t: nat, g: nat, block: bool): (State, Outcome) {
    if g in s.items && block then Cancel(s, t, g) else (s, Returns(-1))
  }

  datatype Event = DoInsert(t: nat, item: Item) | DoArbitrate(t: nat) | DoWakeUp(t: nat)
                 | DoCancel(t: nat) | DoRelease(t: nat) | DoUpdateFlag(t: nat, block: bool)

  /** When a step can be made, by threads that keep to one guid each, their own. */
  ghost predicate Enabled(s: State, e: Event) {
    Shape(s) && e.t in s.pc &&
    match e
    case DoInsert(t, item) => Idle(s, t) && item.guid == item.thread == t
    case DoArbitrate(t) => s.pc[t].Entering?
    case DoWakeUp(t) => s.pc[t].Waiting?
    case DoCancel(t) => Idle(s, t)
    case DoRelease(t) => s.pc[t].Leaving?
    case DoUpdateFlag(t, block) => Idle(s, t)
  }

  ghost function Step(s: State, e: Event): (State, Outcome)
    requires Enabled(s, e)
  {
    match e
    case DoInsert(t, item) => Insert(s, t, item)
    case DoArbitrate(t) => Arbitrate(s, t)
    case DoWakeUp(t) => WakeUp(s, t)
    case DoCancel(t) => Cancel(s, t, t)
    case DoRelease(t) => Release(s, t)
    case DoUpdateFlag(t, block) => UpdateFlag(s, t, t, block)
  }

  ghost predicate IsRun(c: Comparator, threads: set<nat>, states: seq<State>, events: seq<Event>) {
    && 0 !in threads && |states| == |events| + 1 && states[0] == Init(c, threads)
    && forall i | 0 <= i < |events| :: Enabled(states[i], events[i]) && states[i + 1] == Step(states[i], events[i]).0
  }

  // ----- The invariant

  /** A thread is running only while it is the current one; a current thread is running, re-entering, or
      waiting after a hand-off to it. */
  ghost predicate CurrentInv(s: State) {
    && (forall t | t in s.pc && s.pc[t].Running? :: s.curr == t && s.currGuid == t)
    && (s.curr != 0 ==> s.curr in s.pc && !s.pc[s.curr].Outside? && !s.pc[s.curr].Leaving?)
  }

  ghost predicate HolderInv(s: State) {
    && (forall t | t in s.pc :: s.pc[t].Entering? || s.pc[t].Leaving? <==> s.holder == t)
    && (s.holder != 0 ==> s.holder in s.pc)
    && forall t | t in s.items && t in s.pc :: !s.pc[t].Outside? && !s.pc[t].Leaving?
  }

  /** No wake-up is lost: unless somebody is about to broadcast, a waiting head that nothing stands in
      the way of has been reached by a broadcast. */
  ghost predicate SignalInv(s: State)
    requires Shape(s)
  {
    s.items != map[] && !(s.holder in s.pc && s.pc[s.holder].Leaving?) ==>
      var h := Head(s.c, s.items);
      s.pc[h].Waiting? && (s.curr == 0 || s.curr == h) ==> s.pc[h].signalled
  }

  ghost predicate Inv(s: State) {
    Shape(s) && CurrentInv(s) && HolderInv(s) && SignalInv(s)
  }

  lemma InvInit(c: Comparator, threads: set<nat>)
    requires 0 !in threads
    ensures Inv(Init(c, threads))
  {}

  lemma ShapeInsert(s: State, t: nat, item: Item)
    requires Inv(s) && Enabled(s, DoInsert(t, item))
    ensures var s' := Insert(s, t, item).0; Shape(s') && HolderInv(s')
  {
    hide Before, Keyed, SignalInv, CurrentInv;
    InsertedKeyed(s.c, s.items, item);
  }

  lemma InvInsert(s: State, t: nat, item: Item)
    requires Inv(s) && Enabled(s, DoInsert(t, item))
    ensures Inv(Insert(s, t, item).0)
  {
    ShapeInsert(s, t, item);
    hide Before, Keyed;
    if s.items != map[] && Head(s.c, s.items) != t {
      HeadAfterInsert(s.c, s.items, item);
    }
    hide Shape, HolderInv;
  }

  lemma InvCheck(s: State, t: nat)
    requires Shape(s) && t in s.items && (s.pc[t].Entering? || s.pc[t].Waiting?)
    requires CurrentInv(s) && SignalInv(s)
    ensures var s' := Check(s, t, HeadItem(s)).0; Shape(s') && CurrentInv(s') && SignalInv(s')
  {
    hide Before;
  }

  lemma InvArbitrate(s: State, t: nat)
    requires Inv(s) && Enabled(s, DoArbitrate(t))
    ensures Inv(Arbitrate(s, t).0)
  {
    hide Before, Keyed;
    var head := Head(s.c, s.items);
    var s1 := s.(holder := 0);
    var s2 := if s.curr == t && head != t then s1.(curr := head, pc := Broadcast(s1.pc)) else s1;
    assert Shape(s2) && CurrentInv(s2) && SignalInv(s2);
    InvCheck(s2, t);
    hide CurrentInv, SignalInv, Shape;
    assert HolderInv(Arbitrate(s, t).0);
  }

  lemma InvWakeUp(s: State, t: nat)
    requires Inv(s) && Enabled(s, DoWakeUp(t))
    ensures Inv(WakeUp(s, t).0)
  {
    hide Before, Keyed;
    InvCheck(s, t);
    hide CurrentInv, SignalInv, Shape;
  }

  lemma InvCancel(s: State, t: nat)
    requires Inv(s) && Enabled(s, DoCancel(t))
    ensures Inv(Cancel(s, t, t).0)
  {
    hide Before;
    RemovedKeyed(s.c, s.items, t);
    hide Keyed;
  }

  lemma InvRelease(s: State, t: nat)
    requires Inv(s) && Enabled(s, DoRelease(t))
    ensures Inv(Release(s, t).0)
  {
    hide Before, Keyed;
  }

  lemma InvStep(s: State, e: Event)
    requires Inv(s) && Enabled(s, e)
    ensures Inv(Step(s, e).0)
  {
    match e
    case DoInsert(t, item) => InvInsert(s, t, item);
    case DoArbitrate(t) => InvArbitrate(s, t);
    case DoWakeUp(t) => InvWakeUp(s, t);
    case DoCancel(t) => InvCancel(s, t);
    case DoRelease(t) => InvRelease(s, t);
    case DoUpdateFlag(t, block) =>
      hide Inv, Cancel;
      if t in s.items && block {
        InvCancel(s, t);
      }
  }

  lemma {:induction false} InvRun(c: Comparator, threads: set<nat>, states: seq<State>, events: seq<Event>, i: nat)
    requires IsRun(c, threads, states, events) && i < |states|
    ensures Inv(states[i])
    decreases i
  {
    if i == 0 {
      InvInit(c, threads);
    } else {
      InvRun(c, threads, states, events, i - 1);
      InvStep(states[i - 1], events[i - 1]);
    }
  }

  // ----- Why an arbitration, a wake-up and a cancellation are one step each

  /** The steps that run under `synch_lock_` alone, and so can fall between a thread's reading of the queue
      and its use of the current handle. */
  ghost predicate UnderSynch(e: Event) {
    e.DoInsert? || e.DoCancel? || e.DoUpdateFlag?
  }

  ghost predicate Others(es: seq<Event>, t: nat) {
    forall i | 0 <= i < |es| :: UnderSynch(es[i]) && es[i].t != t
  }

  datatype Reach = Reached(state: State) | Impossible

  /** The state after a sequence of steps, if they can be made. */
  ghost function After(s: State, es: seq<Event>): Reach {
    if es == [] then Reached(s)
    else match After(s, es[..|es| - 1])
      case Impossible => Impossible
      case Reached(m) => if Enabled(m, es[|es| - 1]) then Reached(Step(m, es[|es| - 1]).0) else Impossible
  }

  ghost predicate Part(items: Items, all: Items) {
    forall g | g in items :: g in all && items[g] == all[g]
  }

  lemma PartKeyed(c: Comparator, items: Items, all: Items)
    requires Keyed(c, all) && Part(items, all)
    ensures Keyed(c, items)
  {}

  lemma {:induction false} LockFree(s: State, es: seq<Event>, t: nat)
    requires Others(es, t) && After(s, es).Reached? && es != []
    ensures s.holder == 0
    decreases |es|
  {
    if |es| > 1 {
      LockFree(s, es[..|es| - 1], t);
    } else {
      assert es[..0] == [];
    }
  }

  lemma RefusedStep(s: State, e: Event)
    requires Enabled(s, e) && UnderSynch(e) && Step(s, e).0.holder == 0
    ensures var items := Step(s, e).0.items;
      && Step(s, e).0 == s.(items := items) && Part(items, s.items)
      && (forall g | g in s.items && g != e.t :: g in items) && Shape(s.(items := items))
  {
    hide Before, Keyed;
    PartKeyed(s.c, Step(s, e).0.items, s.items);
  }

  /** As long as the lock is free again after each, all that has happened is that items have gone. */
  lemma {:induction false} RefusedOnly(s: State, t: nat, es: seq<Event>)
    requires Shape(s) && t in s.items && Others(es, t)
    requires After(s, es).Reached? && After(s, es).state.holder == 0
    ensures var m := After(s, es).state;
      m == s.(items := m.items) && Part(m.items, s.items) && t in m.items && Shape(m)
    decreases |es|
  {
    hide Before, Keyed, Shape, Step, Idle;
    if es != [] {
      var front, e := es[..|es| - 1], es[|es| - 1];
      var m := After(s, front).state;
      LockFree(m, [e], t) by {
        assert [e][..0] == [];
      }
      RefusedOnly(s, t, front);
      RefusedStep(m, e);
    }
  }

  /** And from any state with the same queue, in which the others can do as much, the same items go. */
  lemma {:induction false} RefusedCommutes(s: State, w: State, t: nat, es: seq<Event>)
    requires Shape(s) && Shape(w) && t in s.items && Others(es, t)
    requires After(s, es).Reached? && After(s, es).state.holder == 0
    requires w.items == s.items && w.c == s.c && w.holder == 0
    requires forall u | u in s.pc && u != t && Idle(s, u) :: Idle(w, u)
    ensures var m := After(s, es).state; After(w, es) == Reached(w.(items := m.items)) && Shape(w.(items := m.items))
    decreases |es|
  {
    hide Before, Keyed;
    if es != [] {
      var front, e := es[..|es| - 1], es[|es| - 1];
      var m := After(s, front).state;
      RefusedOnly(s, t, front);
      RefusedCommutes(s, w, t, front);
      RefusedStep(m, e);
      var w1 := w.(items := m.items);
      assert Enabled(w1, e);
      RefusedStep(w1, e);
    }
  }

  ghost predicate Between(s: State, t: nat, e: Event)
    requires Shape(s)
  {
    Enabled(s, e) && UnderSynch(e) && e.t != t && t in s.items
  }

  /** A step by another thread commutes with the test if it leaves the handle alone, or if the test
      fails for the item that was read in any case. */
  lemma CheckCommutes(s: State, t: nat, head: Item, e: Event)
    requires Shape(s) && Between(s, t, e) && Enabled(Check(s, t, head).0, e)
    requires Step(s, e).0.curr == s.curr || head.thread != t
    ensures Check(Step(s, e).0, t, head).0 == Step(Check(s, t, head).0, e).0
    ensures Check(Step(s, e).0, t, head).1 == Check(s, t, head).1
  {
    hide Shape, Inserted, Keyed, Head, Cancel;
    if e.DoInsert? {
      Swap(s.pc, t, Running, e.t, Entering);
      Swap(s.pc, t, Waiting(false), e.t, Entering);
    } else if e.DoCancel? || (e.t in s.items && e.block) {
      CheckCancel(s, t, head, e.t);
    }
  }

  lemma Swap(pc: map<nat, Pc>, t: nat, p: Pc, u: nat, q: Pc)
    requires t != u
    ensures pc[t := p][u := q] == pc[u := q][t := p]
  {}

  lemma CheckCancel(s: State, t: nat, head: Item, v: nat)
    requires v != t && (Cancel(s, v, v).0.curr == s.curr || head.thread != t)
    ensures Check(Cancel(s, v, v).0, t, head) == (Cancel(Check(s, t, head).0, v, v).0, Check(s, t, head).1)
  {
    Swap(s.pc, t, Running, v, Leaving);
    Swap(s.pc, t, Waiting(false), v, Leaving);
  }

  /** The one step that changes the handle is the current thread's cancellation, which leaves another
      head where it is. */
  lemma HandleChanges(s: State, t: nat, e: Event)
    requires Shape(s) && Between(s, t, e) && Step(s, e).0.curr != s.curr && HeadItem(s).thread == t
    ensures s.curr == e.t && Step(s, e).0 == Cancel(s, e.t, e.t).0
    ensures Shape(Step(s, e).0) && t in Step(s, e).0.items && HeadItem(Step(s, e).0) == HeadItem(s)
  {
    RemovedKeyed(s.c, s.items, e.t);
    hide Before, Keyed;
    HeadUnique(s.c, s.items - {e.t}, t);
  }

  /** A hand-off goes to a waiting thread, so the other thread's step does not undo it. */
  lemma HandOffCommutes(s: State, t: nat, head: Item, e: Event)
    requires Shape(s) && Between(s, t, e) && s.curr == t && head.thread != t
    requires head.thread in s.pc && s.pc[head.thread].Waiting? && Enabled(HandOffAndCheck(s, t, head).0, e)
    ensures HandOffAndCheck(Step(s, e).0, t, head).0 == Step(HandOffAndCheck(s, t, head).0, e).0
    ensures HandOffAndCheck(Step(s, e).0, t, head).1 == HandOffAndCheck(s, t, head).1
  {
    hide Shape, Inserted, Keyed, Head;
    assert Broadcast(s.pc)[t := Waiting(false)][e.t := Entering]
        == Broadcast(s.pc[e.t := Entering])[t := Waiting(false)];
    assert Broadcast(s.pc)[t := Waiting(false)][e.t := Leaving]
        == Broadcast(s.pc[e.t := Leaving])[t := Waiting(false)];
  }

  /** The head read before the current thread cancels goes ahead at once; as a whole step it blocks first
      and goes ahead when it wakes up. */
  lemma ReadBeforeCancel(s: State, t: nat, e: Event)
    requires Shape(s) && Between(s, t, e) && s.pc[t].Entering?
    requires Step(s, e).0.curr != s.curr && HeadItem(s).thread == t
    requires Shape(Check(s, t, HeadItem(s)).0) && Enabled(Check(s, t, HeadItem(s)).0, e)
    ensures var whole := Step(Check(s, t, HeadItem(s)).0, e).0;
      Enabled(whole, DoWakeUp(t)) && Check(Step(s, e).0, t, HeadItem(s)) == Step(whole, DoWakeUp(t))
  {
    HandleChanges(s, t, e);
    var blocked := Check(s, t, HeadItem(s)).0;
    RemovedKeyed(s.c, s.items, e.t);
    hide Before, Keyed, Inserted;
    assert s.pc[e.t := Leaving][t := Running] == s.pc[t := Waiting(false)][e.t := Leaving][t := Running];
  }

  /** A waiting or entering thread that is the head stays it while other items go. */
  lemma HeadStays(s: State, m: State, t: nat)
    requires Shape(s) && Shape(m) && m == s.(items := m.items) && Part(m.items, s.items) && t in m.items
    ensures HeadItem(s).thread == t ==> HeadItem(m) == HeadItem(s)
  {
    hide Before, Keyed;
    if HeadItem(s).thread == t {
      HeadUnique(m.c, m.items, t);
    }
  }

  /** Whatever steps other threads make between the two halves of a wake-up, the outcome is that of the
      whole wake-up before all of them or of the whole wake-up after all of them. */
  lemma WakeUpIsAtomic(s: State, t: nat, es: seq<Event>)
    requires Inv(s) && Enabled(s, DoWakeUp(t)) && Others(es, t) && After(s, es).Reached?
    ensures var (last, (w, r)) := (After(s, es).state, Step(s, DoWakeUp(t)));
      var halves := Check(last, t, HeadItem(s));
      || (Enabled(last, DoWakeUp(t)) && halves == Step(last, DoWakeUp(t)))
      || (After(w, es) == Reached(halves.0) && halves.1 == r)
  {
    hide Before, Keyed, Inserted, CurrentInv, SignalInv, HolderInv, Broadcast;
    if es != [] {
      var front, e, head := es[..|es| - 1], es[|es| - 1], HeadItem(s);
      var m, w := After(s, front).state, WakeUp(s, t).0;
      LockFree(s, es, t);
      LastLockFree(s, es, t);
      InvStep(s, DoWakeUp(t));
      RefusedOnly(s, t, front);
      RefusedCommutes(s, w, t, front);
      HeadStays(s, m, t);
      WakeUpInTwo(m, t, head, e);
    }
  }

  lemma LastLockFree(s: State, es: seq<Event>, t: nat)
    requires Others(es, t) && After(s, es).Reached? && es != []
    ensures After(s, es[..|es| - 1]).Reached? && After(s, es[..|es| - 1]).state.holder == 0
  {}

  lemma WakeUpInTwo(s: State, t: nat, head: Item, e: Event)
    requires Shape(s) && Between(s, t, e) && s.pc[t].Waiting? && (head.thread == t ==> head == HeadItem(s))
    requires Enabled(Check(s, t, head).0, e)
    ensures var halves := Check(Step(s, e).0, t, head);
      || (Enabled(Step(s, e).0, DoWakeUp(t)) && halves == Step(Step(s, e).0, DoWakeUp(t)))
      || (halves.0 == Step(Check(s, t, head).0, e).0 && halves.1 == Check(s, t, head).1)
  {
    hide Before, Keyed, Inserted, Broadcast;
    if Step(s, e).0.curr == s.curr || head.thread != t {
      CheckCommutes(s, t, head, e);
      hide Shape;
    } else {
      HandleChanges(s, t, e);
    }
  }

  lemma HandOffTarget(s: State, t: nat)
    requires Inv(s) && Enabled(s, DoArbitrate(t)) && s.curr == t && HeadItem(s).thread != t
    ensures HeadItem(s).thread in s.pc && s.pc[HeadItem(s).thread].Waiting?
  {
    hide Before, Keyed, SignalInv;
  }

  /** The same for an arbitration, except that the second possibility is a wake-up after the steps: while
      the arbitration has the lock it took with the insertion, they cannot come first. */
  lemma ArbitrationIsAtomic(s: State, t: nat, es: seq<Event>)
    requires Inv(s) && Enabled(s, DoArbitrate(t)) && Others(es, t) && After(s.(holder := 0), es).Reached?
    ensures var (last, (w, r)) := (After(s.(holder := 0), es).state, Step(s, DoArbitrate(t)));
      var halves := HandOffAndCheck(last, t, HeadItem(s));
      After(w, es).Reached? &&
      var whole := After(w, es).state;
      || (halves.0 == whole && halves.1 == r)
      || (Enabled(whole, DoWakeUp(t)) && halves == Step(whole, DoWakeUp(t)))
  {
    hide Before, Keyed, Inserted, CurrentInv, SignalInv, HolderInv;
    if es != [] {
      var front, e, head := es[..|es| - 1], es[|es| - 1], HeadItem(s);
      var s0, w := s.(holder := 0), Arbitrate(s, t).0;
      var m := After(s0, front).state;
      LockFree(s0, es, t);
      LastLockFree(s0, es, t);
      InvStep(s, DoArbitrate(t));
      RefusedOnly(s0, t, front);
      OthersIdle(s0, t, head);
      RefusedCommutes(s0, w, t, front);
      HeadStays(s0, m, t);
      OtherItems(s0, t, head, m.items);
      if s.curr == t && head.thread != t {
        HandOffTarget(s, t);
      }
      hide HandOffAndCheck;
      ArbitrationInTwo(m, t, head, e);
    }
  }

  lemma OthersIdle(s: State, t: nat, head: Item)
    ensures forall u | u in s.pc && u != t && Idle(s, u) :: Idle(HandOffAndCheck(s, t, head).0, u)
  {}

  lemma OtherItems(s: State, t: nat, head: Item, items: Items)
    ensures HandOffAndCheck(s.(items := items), t, head)
         == (HandOffAndCheck(s, t, head).0.(items := items), HandOffAndCheck(s, t, head).1)
  {}

  lemma ArbitrationInTwo(s: State, t: nat, head: Item, e: Event)
    requires Shape(s) && Between(s, t, e) && s.pc[t].Entering? && (head.thread == t ==> head == HeadItem(s))
    requires s.curr == t && head.thread != t ==> head.thread in s.pc && s.pc[head.thread].Waiting?
    requires Enabled(HandOffAndCheck(s, t, head).0, e)
    ensures var halves := HandOffAndCheck(Step(s, e).0, t, head);
      var whole := Step(HandOffAndCheck(s, t, head).0, e).0;
      || (halves.0 == whole && halves.1 == HandOffAndCheck(s, t, head).1)
      || (Enabled(whole, DoWakeUp(t)) && halves == Step(whole, DoWakeUp(t)))
  {
    hide Before, Keyed, Inserted;
    if s.curr == t && head.thread != t {
      HandOffCommutes(s, t, head, e);
    } else if Step(s, e).0.curr == s.curr || head.thread != t {
      CheckCommutes(s, t, head, e);
    } else {
      ReadBeforeCancel(s, t, e);
    }
  }

  /** A wake-up that falls between the two halves of a cancellation, when the item has gone and the handle
      has not been reset, might as well have come before it. */
  lemma WakeUpInsideCancel(s: State, t: nat, u: nat)
    requires Inv(s) && Enabled(s, DoCancel(t)) && Enabled(s, DoWakeUp(u))
    ensures Enabled(WakeUp(s, u).0, DoCancel(t))
    ensures var r := Remove(s, t, t);
      && Keyed(r.c, r.items) && u in r.items
      && WakeUp(r, u) == (Remove(WakeUp(s, u).0, t, t), WakeUp(s, u).1)
  {
    InvStep(s, DoWakeUp(u));
    RemovedKeyed(s.c, s.items, t);
    hide Before, Keyed, SignalInv;
    if s.pc[t].Running? {
      assert s.curr == t;
    } else {
      assert s.items - {t} == s.items;
    }
    TestInsideCancel(s, u, HeadItem(s), t);
  }

  /** And a test that falls there, of an item read before, might as well have come before it too. */
  lemma TestInsideCancel(s: State, t: nat, head: Item, v: nat)
    requires v != t && v in s.pc && !s.pc[v].Waiting?
    ensures Check(Remove(s, v, v), t, head) == (Remove(Check(s, t, head).0, v, v), Check(s, t, head).1)
    ensures HandOffAndCheck(Remove(s, v, v), t, head)
         == (Remove(HandOffAndCheck(s, t, head).0, v, v), HandOffAndCheck(s, t, head).1)
  {
    var b: map<nat, Pc> := Broadcast(s.pc);
    assert Broadcast(s.pc[v := Leaving]) == b[v := Leaving];
    assert b[v := Leaving][t := Waiting(false)] == b[t := Waiting(false)][v := Leaving];
    assert s.pc[v := Leaving][t := Waiting(false)] == s.pc[t := Waiting(false)][v := Leaving];
    assert s.pc[v := Leaving][t := Running] == s.pc[t := Running][v := Leaving];
  }

  // ----- Safety over every run

  lemma {:induction false} SameComparator(c: Comparator, threads: set<nat>, states: seq<State>, events: seq<Event>,
                                          i: nat)
    requires IsRun(c, threads, states, events) && i < |states|
    ensures states[i].c == c
    decreases i
  {
    if i > 0 {
      SameComparator(c, threads, states, events, i - 1);
    }
  }

  ghost predicate Grants(s: State, e: Event)
    requires Enabled(s, e)
  {
    (e.DoArbitrate? || e.DoWakeUp?) && Step(s, e).1 == Returns(0)
  }

  /** At most one thread is past `schedule_i` without having re-entered or cancelled, and it is the
      current one. */
  lemma OneRuns(c: Comparator, threads: set<nat>, states: seq<State>, events: seq<Event>, i: nat, t: nat, u: nat)
    requires IsRun(c, threads, states, events) && i < |states|
    requires var s := states[i]; t in s.pc && u in s.pc && s.pc[t].Running? && s.pc[u].Running?
    ensures t == u == states[i].curr == states[i].currGuid
  {
    InvRun(c, threads, states, events, i);
  }

  /** A thread is let go only when nobody else is scheduled and its item comes before every other. */
  lemma GrantsTheMostEligible(c: Comparator, threads: set<nat>, states: seq<State>, events: seq<Event>, i: nat)
    requires IsRun(c, threads, states, events) && i < |events| && Grants(states[i], events[i])
    ensures IsHead(c, states[i].items, events[i].t)
    ensures forall u | u in states[i].pc :: !states[i].pc[u].Running?
    ensures states[i + 1].curr == events[i].t && states[i + 1].pc[events[i].t].Running?
  {
    InvRun(c, threads, states, events, i);
    SameComparator(c, threads, states, events, i);
  }

  // ----- What each call does to the queue and to the current thread

  /** What a cancellation amounts to: the guid has left the queue and nothing else has, its thread is not the
      current one, whoever else was still is, and the broadcast is due. */
  ghost predicate Cancelled(s: State, s': State, t: nat) {
    && t !in s'.items && OnlyAt(s.items, s'.items, t)
    && s'.curr == (if s.curr == t then 0 else s.curr) && s'.currGuid == (if s.curr == t then 0 else s.currGuid)
    && t in s'.pc && s'.pc[t].Leaving? && s'.holder == t
    && s'.pc.Keys == s.pc.Keys && forall u | u in s.pc && u != t :: s'.pc[u] == s.pc[u]
  }

  /** An item is queued unless its key ties with that of another guid; one that was queued under the guid
      is gone in either case. */
  lemma InsertEffect(c: Comparator, threads: set<nat>, states: seq<State>, events: seq<Event>, i: nat,
                     t: nat, item: Item)
    requires IsRun(c, threads, states, events) && i < |events| && events[i] == DoInsert(t, item)
    ensures var (s, s', r) := (states[i], states[i + 1], Step(states[i], events[i]).1);
      && OnlyAt(s.items, s'.items, t) && s'.curr == s.curr && s'.currGuid == s.currGuid
      && if forall u | u in s.items && u != t :: !Tied(c, s.items[u], item)
         then r == Continues && t in s'.items && s'.items[t] == item && s'.pc == s.pc[t := Entering] && s'.holder == t
         else r == Returns(-1) && t !in s'.items && s'.pc == s.pc && s'.holder == s.holder
  {
    SameComparator(c, threads, states, events, i);
    forall g {
      InsertedMeans(c, states[i].items, item, g);
    }
    hide Keyed, Tied, Inserted;
  }

  lemma CancelEffect(c: Comparator, threads: set<nat>, states: seq<State>, events: seq<Event>, i: nat, t: nat)
    requires IsRun(c, threads, states, events) && i < |events| && events[i] == DoCancel(t)
    ensures Cancelled(states[i], states[i + 1], t) && Step(states[i], events[i]).1 == Continues
  {
    InvRun(c, threads, states, events, i);
    hide Keyed;
  }

  /** An update with a block flag cancels exactly a queued guid, and only to block it; anything else changes
      nothing and fails. */
  lemma UpdateEffect(c: Comparator, threads: set<nat>, states: seq<State>, events: seq<Event>, i: nat,
                     t: nat, block: bool)
    requires IsRun(c, threads, states, events) && i < |events| && events[i] == DoUpdateFlag(t, block)
    ensures var (s, s', r) := (states[i], states[i + 1], Step(states[i], events[i]).1);
      if block && t in s.items then Cancelled(s, s', t) && r == Continues else s' == s && r == Returns(-1)
  {
    InvRun(c, threads, states, events, i);
    hide Keyed;
  }

  /** Whoever has cancelled tells every waiter before it returns 0. */
  lemma ReleaseEffect(c: Comparator, threads: set<nat>, states: seq<State>, events: seq<Event>, i: nat, t: nat, u: nat)
    requires IsRun(c, threads, states, events) && i < |events| && events[i] == DoRelease(t) && u in states[i].pc
    ensures var (s, s', r) := (states[i], states[i + 1], Step(states[i], events[i]).1);
      && r == Returns(0) && s'.items == s.items && s'.curr == s.curr && s'.currGuid == s.currGuid && s'.holder == 0
      && u in s'.pc
      && s'.pc[u] == if u == t then Outside else if s.pc[u].Waiting? then Waiting(true) else s.pc[u]
  {}

  /** A thread is let go exactly if its item is the head and the current handle is its own or nobody's, and
      it is current then; otherwise it waits. Arbitration frees the lock, and a thread that is current but
      not the head hands over to the head and tells every waiter. */
  lemma ArbitrateEffect(c: Comparator, threads: set<nat>, states: seq<State>, events: seq<Event>, i: nat,
                        t: nat, u: nat)
    requires IsRun(c, threads, states, events) && i < |events| && events[i] == DoArbitrate(t)
    requires u in states[i].pc && u != t
    ensures var (s, s', r) := (states[i], states[i + 1], Step(states[i], events[i]).1);
      && s'.items == s.items && s'.holder == 0 && u in s'.pc && t in s'.pc
      && if IsHead(c, s.items, t) && s.curr in {0, t}
         then r == Returns(0) && s'.curr == s'.currGuid == t && s'.pc[t] == Running && s'.pc[u] == s.pc[u]
         else
           && r == Blocks && s'.pc[t] == Waiting(false) && s'.currGuid == s.currGuid
           && if s.curr == t
              then IsHead(c, s.items, s'.curr) && s'.pc[u] == if s.pc[u].Waiting? then Waiting(true) else s.pc[u]
              else s'.curr == s.curr && s'.pc[u] == s.pc[u]
  {
    SameComparator(c, threads, states, events, i);
    HeadIs(states[i], t);
    hide Before, Keyed, IsHead;
  }

  lemma HeadIs(s: State, t: nat)
    requires Shape(s) && s.items != map[]
    ensures HeadItem(s).thread == HeadItem(s).guid == Head(s.c, s.items) && IsHead(s.c, s.items, Head(s.c, s.items))
    ensures IsHead(s.c, s.items, t) <==> Head(s.c, s.items) == t
  {
    if IsHead(s.c, s.items, t) {
      HeadUnique(s.c, s.items, t);
    }
    hide Before;
  }

  /** A wake-up tests the same and hands nothing over. */
  lemma WakeUpEffect(c: Comparator, threads: set<nat>, states: seq<State>, events: seq<Event>, i: nat, t: nat)
    requires IsRun(c, threads, states, events) && i < |events| && events[i] == DoWakeUp(t)
    ensures var (s, s', r) := (states[i], states[i + 1], Step(states[i], events[i]).1);
      && s'.items == s.items && s'.holder == s.holder
      && if IsHead(c, s.items, t) && s.curr in {0, t}
         then r == Returns(0) && s'.curr == s'.currGuid == t && s'.pc == s.pc[t := Running]
         else r == Blocks && s'.curr == s.curr && s'.currGuid == s.currGuid && s'.pc == s.pc[t := Waiting(false)]
  {
    SameComparator(c, threads, states, events, i);
    HeadIs(states[i], t);
    hide Before, Keyed, IsHead;
  }

  // ----- Progress, and when there is none

  /** A hand-off has been overtaken: the current handle names a waiting thread, and some item in the
      queue comes before that thread's. */
  ghost predicate Stuck(s: State) {
    s.curr in s.pc && s.pc[s.curr].Waiting? && s.curr in s.items
    && exists u :: u in s.items && Before(s.c, s.items[u], s.items[s.curr])
  }

  /** The head waits, a broadcast has reached it, and its wake-up will let it go. */
  ghost predicate HeadCanGo(s: State)
    requires Shape(s) && s.items != map[]
  {
    var h := Head(s.c, s.items);
    s.pc[h] == Waiting(true) && WakeUp(s, h).1 == Returns(0)
  }

  /** With queued threads, none of them running and none inside a lock, the most eligible one has been
      told to go and will go, exactly unless the dispatcher is stuck. */
  lemma ProgressUnlessStuck(c: Comparator, threads: set<nat>, states: seq<State>, events: seq<Event>, i: nat)
    requires IsRun(c, threads, states, events) && i < |states|
    requires var s := states[i];
      s.holder == 0 && s.items != map[] && forall t | t in s.pc :: !s.pc[t].Running?
    ensures Shape(states[i])
    ensures HeadCanGo(states[i]) <==> !Stuck(states[i])
  {
    var s := states[i];
    InvRun(c, threads, states, events, i);
    var h := Head(s.c, s.items);
    if s.curr == h {
      forall u | u in s.items ensures !Before(c, s.items[u], s.items[h]) {
        SameComparator(c, threads, states, events, i);
        StrictWeakOrder(c, s.items[h], s.items[u], s.items[h]);
      }
    }
    hide Before;
  }

  /** The thread of the current handle waits for ever behind something: it never becomes the head, and
      nobody else gets past a current handle that is not its own. */
  lemma StuckStep(s: State, e: Event)
    requires Inv(s) && Enabled(s, e) && Stuck(s)
    ensures Stuck(Step(s, e).0) && Step(s, e).0.curr == s.curr && !Grants(s, e)
  {
    var u :| u in s.items && Before(s.c, s.items[u], s.items[s.curr]);
    var s' := Step(s, e).0;
    var h := Head(s.c, s.items);
    StrictWeakOrder(s.c, s.items[u], s.items[s.curr], s.items[u]);
    hide Before;
    assert h != s.curr;
    assert !s.pc[u].Running?;
    if !e.DoInsert? || e.t != u {
      assert u in s'.items && s'.items[u] == s.items[u];
    }
  }

  lemma RunLength(c: Comparator, threads: set<nat>, states: seq<State>, events: seq<Event>)
    requires IsRun(c, threads, states, events)
    ensures |states| == |events| + 1
  {
    hide Enabled, Step;
  }

  lemma RunStep(c: Comparator, threads: set<nat>, states: seq<State>, events: seq<Event>, i: nat)
    requires IsRun(c, threads, states, events) && i < |events|
    ensures i + 1 < |states| && Enabled(states[i], events[i]) && states[i + 1] == Step(states[i], events[i]).0
  {
    hide Enabled, Step;
  }

  /** Stuck is for good: whatever happens from there, no thread is ever let go again. */
  lemma {:induction false} StuckForever(c: Comparator, threads: set<nat>, states: seq<State>, events: seq<Event>,
                                        from: nat, i: nat)
    requires IsRun(c, threads, states, events) && from <= i < |states| && Stuck(states[from])
    ensures Stuck(states[i]) && states[i].curr == states[from].curr
    ensures i < |events| ==> !Grants(states[i], events[i])
    decreases i
  {
    hide *;
    RunLength(c, threads, states, events);
    InvRun(c, threads, states, events, i);
    if from < i {
      StuckForever(c, threads, states, events, from, i - 1);
      InvRun(c, threads, states, events, i - 1);
      RunStep(c, threads, states, events, i - 1);
      StuckStep(states[i - 1], events[i - 1]);
    }
    if i < |events| {
      RunStep(c, threads, states, events, i);
      StuckStep(states[i], events[i]);
    }
  }

  /** The insertion of an item that comes before that of a thread still waiting for its hand-off. */
  ghost predicate Overtakes(s: State, e: Event) {
    Enabled(s, e) && e.DoInsert? && Step(s, e).1 == Continues
    && s.curr in s.items && s.pc[s.curr].Waiting? && Before(s.c, e.item, s.items[s.curr])
  }

  lemma StuckByStep(s: State, e: Event)
    requires Inv(s) && Enabled(s, e) && !Stuck(s)
    ensures Stuck(Step(s, e).0) <==> Overtakes(s, e)
  {
    var s' := Step(s, e).0;
    match e
    case DoInsert(t, item) => StuckByInsert(s, t, item);
    case DoArbitrate(t) => NotStuckByArbitrate(s, t);
    case DoWakeUp(t) => hide Before, Keyed;
    case DoCancel(t) => hide Before, Keyed;
    case DoRelease(t) => hide Before, Keyed;
    case DoUpdateFlag(t, block) => hide Before, Keyed;
  }

  lemma StuckByInsert(s: State, t: nat, item: Item)
    requires Inv(s) && Enabled(s, DoInsert(t, item)) && !Stuck(s)
    ensures Stuck(Insert(s, t, item).0) <==> Overtakes(s, DoInsert(t, item))
  {
    hide Before, Keyed;
    var s' := Insert(s, t, item).0;
    if Overtakes(s, DoInsert(t, item)) {
      assert t in s'.items && Before(s.c, s'.items[t], s'.items[s.curr]);
    }
    assert forall u | u in s'.items && u != t :: u in s.items && s.items[u] == s'.items[u];
  }

  lemma NotStuckByArbitrate(s: State, t: nat)
    requires Inv(s) && Enabled(s, DoArbitrate(t)) && !Stuck(s)
    ensures !Stuck(Arbitrate(s, t).0)
  {
    var h := Head(s.c, s.items);
    forall u | u in s.items ensures !Before(s.c, s.items[u], s.items[h]) {
      StrictWeakOrder(s.c, s.items[h], s.items[u], s.items[h]);
    }
    hide Before, Keyed;
  }

  /** The dispatcher is stuck exactly when some hand-off has been overtaken before its target woke up. */
  lemma {:induction false} StuckIffOvertaken(c: Comparator, threads: set<nat>, states: seq<State>, events: seq<Event>,
                                             i: nat)
    requires IsRun(c, threads, states, events) && i < |states|
    ensures Stuck(states[i]) <==> exists j :: 0 <= j < i && Overtakes(states[j], events[j])
    decreases i
  {
    hide *;
    RunLength(c, threads, states, events);
    if i == 0 {
      NotStuckAtFirst(c, threads, states, events);
    } else {
      StuckIffOvertaken(c, threads, states, events, i - 1);
      InvRun(c, threads, states, events, i - 1);
      RunStep(c, threads, states, events, i - 1);
      if Stuck(states[i - 1]) {
        StuckStep(states[i - 1], events[i - 1]);
      } else {
        StuckByStep(states[i - 1], events[i - 1]);
      }
    }
  }

  lemma NotStuckAtFirst(c: Comparator, threads: set<nat>, states: seq<State>, events: seq<Event>)
    requires IsRun(c, threads, states, events)
    ensures states != [] && !Stuck(states[0])
  {
    hide Enabled, Step;
  }

  lemma Extend(c: Comparator, threads: set<nat>, states: seq<State>, events: seq<Event>, s: State, e: Event)
    returns (states': seq<State>, events': seq<Event>, s': State)
    requires IsRun(c, threads, states, events) && states[|events|] == s && Enabled(s, e)
    ensures IsRun(c, threads, states', events') && states'[|events'|] == s' == Step(s, e).0
  {
    hide Step, Enabled, Init;
    s' := Step(s, e).0;
    states', events' := states + [s'], events + [e];
  }

  /** A call of `schedule_i` that nothing interrupts, after which h is the head. */
  lemma Call(states: seq<State>, events: seq<Event>, s: State, item: Item, h: nat)
    returns (states': seq<State>, events': seq<Event>, s': State)
    requires IsRun(FixedPriority, {1, 2, 3}, states, events) && states[|events|] == s
    requires Enabled(s, DoInsert(item.guid, item))
    requires h == item.guid ==> forall u | u in s.items && u != h :: Before(s.c, item, s.items[u])
    requires h != item.guid ==> s.items.Keys <= {item.guid, h} && h in s.items && Before(s.c, s.items[h], item)
    requires h != item.guid ==> s.curr != 0
    ensures IsRun(FixedPriority, {1, 2, 3}, states', events') && states'[|events'|] == s'
    ensures Shape(s') && s'.c == s.c && s'.holder == 0 && s'.items == (s.items - {item.guid})[item.guid := item]
    ensures s'.curr == if s.curr in {0, item.guid} then h else s.curr
    ensures s'.pc.Keys == s.pc.Keys
    ensures s'.pc[item.guid].Running? == (h == item.guid == s'.curr)
    ensures s'.pc[item.guid].Waiting? == !(h == item.guid == s'.curr)
    ensures forall u | u in s.pc && u != item.guid :: s'.pc[u] == s.pc[u] || (s.pc[u].Waiting? && s'.pc[u].Waiting?)
  {
    var t := item.guid;
    InsertedKeyed(s.c, s.items, item);
    assert Inserted(s.c, s.items, item).1 && IsHead(s.c, Inserted(s.c, s.items, item).0, h) by {
      hide Enabled, IsRun, Keyed;
    }
    HeadUnique(s.c, Inserted(s.c, s.items, item).0, h);
    hide Before, Keyed, IsRun;
    states', events', s' := Extend(FixedPriority, {1, 2, 3}, states, events, s, DoInsert(t, item));
    states', events', s' := Extend(FixedPriority, {1, 2, 3}, states', events', s', DoArbitrate(t));
  }

  lemma OvertakeStuck(s: State, item: Item)
    requires Enabled(s, DoInsert(item.guid, item)) && s.curr in s.items && item.guid != s.curr && s.pc[s.curr].Waiting?
    requires forall u | u in s.items && u != item.guid :: Before(s.c, item, s.items[u])
    ensures Stuck(Step(s, DoInsert(item.guid, item)).0)
  {
    hide Before, Keyed;
    var s' := Step(s, DoInsert(item.guid, item)).0;
    assert item.guid in s'.items && Before(s'.c, s'.items[item.guid], s'.items[s.curr]);
  }

  lemma OneWaits() returns (states: seq<State>, events: seq<Event>, s: State)
    ensures IsRun(FixedPriority, {1, 2, 3}, states, events) && s == states[|events|] && Shape(s) && s.c == FixedPriority
    ensures s.pc.Keys == {1, 2, 3} && s.curr == 1 && s.pc[1].Running? && s.pc[2].Waiting? && s.pc[3].Outside?
    ensures s.holder == 0
    ensures s.items.Keys == {1, 2} && s.items[2] == Request(2, 2, 1)
  {
    states, events, s := [Init(FixedPriority, {1, 2, 3})], [], Init(FixedPriority, {1, 2, 3});
    hide IsRun, Step, Keyed;
    states, events, s := Call(states, events, s, Request(1, 1, 0), 1);
    hide Shape;
    assert Before(FixedPriority, Request(2, 2, 1), Request(1, 1, 0));
    hide Before, Request;
    states, events, s := Call(states, events, s, Request(2, 2, 1), 2);
  }

  lemma HandOff() returns (states: seq<State>, events: seq<Event>, s: State)
    ensures IsRun(FixedPriority, {1, 2, 3}, states, events) && s == states[|events|] && Shape(s) && s.c == FixedPriority
    ensures s.pc.Keys == {1, 2, 3} && s.curr == 2 && s.pc[2].Waiting? && s.pc[3].Outside? && s.holder == 0
    ensures s.items.Keys == {1, 2} && s.items[1].qos.priority == 1 && s.items[2].qos.priority == 2
  {
    states, events, s := OneWaits();
    hide IsRun, Step, Shape;
    states, events, s := Call(states, events, s, Request(1, 1, 2), 2);
  }

  /** It does happen: thread 1 runs, thread 2 of higher priority waits for it, thread 1 schedules itself
      again, which hands over to thread 2, and before that one wakes up thread 3 of still higher
      priority arrives. */
  lemma OvertakingHappens() returns (states: seq<State>, events: seq<Event>, s: State)
    ensures IsRun(FixedPriority, {1, 2, 3}, states, events) && s == states[|events|] && Stuck(s)
  {
    states, events, s := HandOff();
    hide IsRun, Step, Shape;
    OvertakeStuck(s, Request(3, 3, 3));
    states, events, s := Extend(FixedPriority, {1, 2, 3}, states, events, s, DoInsert(3, Request(3, 3, 3)));
  }

  // ----- The dispatcher object

  /** The object: its methods are the atomic steps, made by thread `self` under the locks the source
      takes. Where the threads are is ghost; `Model` ties the object to the states above. */
  class Dispatcher {
    const readyQueue: SchedReadyQueue
    var currScheduledThrHandle: nat
    var currScheduledGuid: nat
    ghost var pc: map<nat, Pc>
    ghost var holder: nat

    ghost predicate Valid()
      reads this, readyQueue
    {
      readyQueue.Valid() && Keyed(readyQueue.comparator, readyQueue.hashMap)
    }

    ghost function Model(): State
      reads this, readyQueue
    {
      State(readyQueue.comparator, readyQueue.hashMap, currScheduledThrHandle, currScheduledGuid, pc, holder)
    }

    constructor (c: Comparator, ghost threads: set<nat>)
      ensures Valid() && fresh(readyQueue) && Model() == Init(c, threads)
    {
      readyQueue := new SchedReadyQueue(c);
      currScheduledThrHandle := 0;
      currScheduledGuid := 0;
      pc := map t | t in threads :: Outside;
      holder := 0;
    }

    /** `now` and `time` are what the clock shows to the comparator and to the queue. */
    method ScheduleInsert(self: nat, id: nat, qos: Qos, now: int, time: int) returns (r: Outcome)
      requires Valid()
      modifies this, readyQueue
      ensures Valid() && (Model(), r) == Insert(old(Model()), self, Item(id, self, qos, time))
      ensures (readyQueue.hashMap, r == Continues)
           == Inserted(readyQueue.comparator, old(readyQueue.hashMap), Item(id, self, qos, time))
    {
      InsertedKeyed(readyQueue.comparator, readyQueue.hashMap, Item(id, self, qos, time));
      var item := Item(id, self, qos, 0);
      var rc := readyQueue.Insert(now, time, item);
      if rc == -1 {
        return Returns(-1);
      }
      pc := pc[self := Entering];
      holder := self;
      r := Continues;
    }

    method ScheduleArbitrate(self: nat) returns (r: Outcome)
      requires Valid() && readyQueue.hashMap != map[]
      modifies this
      ensures Valid() && (Model(), r) == Arbitrate(old(Model()), self)
    {
      var _, itemVar := readyQueue.MostEligible(Null);
      holder := 0;
      var mostEligibleThrHandle := itemVar.item.thread;
      if currScheduledThrHandle == self && mostEligibleThrHandle != self {
        currScheduledThrHandle := mostEligibleThrHandle;
        pc := Broadcast(pc);
      }
      r := WaitOrGo(self, itemVar);
    }

    method ScheduleWakeUp(self: nat) returns (r: Outcome)
      requires Valid() && readyQueue.hashMap != map[]
      modifies this
      ensures Valid() && (Model(), r) == WakeUp(old(Model()), self)
    {
      var _, itemVar := readyQueue.MostEligible(Null);
      r := WaitOrGo(self, itemVar);
    }

    /** The condition of the wait loop, and what follows the loop. */
    method WaitOrGo(self: nat, itemVar: ItemVar) returns (r: Outcome)
      requires Valid() && itemVar.Ref?
      modifies this
      ensures Valid() && (Model(), r) == Check(old(Model()), self, itemVar.item)
      ensures r == Returns(0) <==> itemVar.item.thread == self && old(currScheduledThrHandle) in {0, self}
      ensures r == Returns(0) ==> currScheduledThrHandle == self && currScheduledGuid == itemVar.item.guid
    {
      var mostEligibleThrHandle := itemVar.item.thread;
      if mostEligibleThrHandle != self
         || (mostEligibleThrHandle == self && currScheduledThrHandle != self && currScheduledThrHandle != 0) {
        pc := pc[self := Waiting(false)];
        return Blocks;
      }
      currScheduledGuid := itemVar.item.guid;
      currScheduledThrHandle := mostEligibleThrHandle;
      pc := pc[self := Running];
      r := Returns(0);
    }

    method CancelRemove(self: nat, guid: nat) returns (r: Outcome)
      requires Valid()
      modifies this, readyQueue
      ensures Valid() && (Model(), r) == Cancel(old(Model()), self, guid)
      ensures readyQueue.hashMap == old(readyQueue.hashMap) - {guid} && r == Continues
      ensures currScheduledThrHandle == if old(currScheduledThrHandle) == self then 0 else old(currScheduledThrHandle)
      ensures currScheduledGuid == if old(currScheduledThrHandle) == self then 0 else old(currScheduledGuid)
    {
      RemovedKeyed(readyQueue.comparator, readyQueue.hashMap, guid);
      var _ := readyQueue.Remove(guid);
      if currScheduledThrHandle == self {
        currScheduledGuid := 0;
        currScheduledThrHandle := 0;
      }
      pc := pc[self := Leaving];
      holder := self;
      r := Continues;
    }

    method CancelBroadcast(self: nat) returns (r: Outcome)
      requires Valid()
      modifies this
      ensures Valid() && (Model(), r) == Release(old(Model()), self)
    {
      pc := Broadcast(pc)[self := Outside];
      holder := 0;
      r := Returns(0);
    }

    method UpdateSchedule(self: nat, guid: nat, block: bool) returns (r: Outcome)
      requires Valid()
      modifies this, readyQueue
      ensures Valid() && (Model(), r) == UpdateFlag(old(Model()), self, guid, block)
      ensures block && guid in old(readyQueue.hashMap) ==>
        && readyQueue.hashMap == old(readyQueue.hashMap) - {guid} && r == Continues && pc == old(pc)[self := Leaving]
        && currScheduledThrHandle == if old(currScheduledThrHandle) == self then 0 else old(currScheduledThrHandle)
      ensures !(block && guid in old(readyQueue.hashMap)) ==> r == Returns(-1) && Model() == old(Model())
    {
      var found, dispatchItem := readyQueue.Find(guid, Null);
      if found == 0 && block {
        r := CancelRemove(self, guid);
        return;
      }
      r := Returns(-1);
    }
  }

  /** Any step the model can make, made by the object; what the clock shows to the comparator is open. */
  method Perform(d: Dispatcher, e: Event) returns (r: Outcome)
    requires d.Valid() && Enabled(d.Model(), e)
    modifies d, d.readyQueue
    ensures d.Valid() && (d.Model(), r) == Step(old(d.Model()), e)
  {
    match e
    case DoInsert(t, item) =>
      var now: int := *;
      r := d.ScheduleInsert(t, item.guid, item.qos, now, item.insertionTime);
    case DoArbitrate(t) => r := d.ScheduleArbitrate(t);
    case DoWakeUp(t) => r := d.ScheduleWakeUp(t);
    case DoCancel(t) => r := d.CancelRemove(t, t);
    case DoRelease(t) => r := d.CancelBroadcast(t);
    case DoUpdateFlag(t, block) => r := d.UpdateSchedule(t, t, block);
  }

  /** The object goes through any run of the model, step by step, with the outcomes the run has: what
      holds of every run holds of the object. */
  method Drive(d: Dispatcher, events: seq<Event>, ghost threads: set<nat>, ghost states: seq<State>)
    returns (outcomes: seq<Outcome>)
    requires d.Valid() && d.Model() == Init(d.readyQueue.comparator, threads)
    requires IsRun(d.readyQueue.comparator, threads, states, events)
    modifies d, d.readyQueue
    ensures d.Valid() && d.Model() == states[|events|] && |outcomes| == |events|
    ensures forall i | 0 <= i < |events| :: outcomes[i] == Step(states[i], events[i]).1
    ensures forall t, u | t in d.pc && u in d.pc && d.pc[t].Running? && d.pc[u].Running? ::
      t == u == d.currScheduledThrHandle == d.currScheduledGuid
  {
    outcomes := [];
    for k := 0 to |events|
      invariant d.Valid() && d.Model() == states[k] && |outcomes| == k
      invariant forall i | 0 <= i < k :: outcomes[i] == Step(states[i], events[i]).1
    {
      var r := Perform(d, events[k]);
      outcomes := outcomes + [r];
    }
    forall t, u | t in d.pc && u in d.pc && d.pc[t].Running? && d.pc[u].Running?
      ensures t == u == d.currScheduledThrHandle == d.currScheduledGuid
    {
      OneRuns(d.readyQueue.comparator, threads, states, events, |events|, t, u);
    }
  }
}
