/**
  DSRT_Direct_Dispatcher_Impl (ACE/Kokyu/DSRT_Direct_Dispatcher_Impl_T.cpp): clients change the ready
  queue and then set a dirty flag; an executive thread waits for the flag and gives the most eligible
  thread the active priority.

  The steps take any guid. The results are for threads that schedule themselves under one guid each,
  their own, so that a thread and its guid are one number, and 0 is neither; cancelling is open to
  anybody. The steps are the sections under `synch_lock_` and under the lock of the flag, which the
  executive also keeps while it passes over the queue.
 */
module DirectDispatcher {
  import opened Eligibility
  import opened ReadyQueue

  /** The three priorities in use, all different. */
  datatype Levels = Levels(active: int, inactive: int, blocked: int)

  /** Flagging: has changed the queue and will set the flag. Locked: the same, from an update with a
      block flag, which keeps `synch_lock_` meanwhile. */
  datatype Pc = Outside | Flagging | Locked

  /** Top: about to start an iteration. Asleep: in the condition wait, signalled since or not. Passing:
      has taken the flag down, holds its lock and goes for `synch_lock_`. */
  datatype Exec = Top | Asleep(signalled: bool) | Passing | Exited

  datatype State = State(c: Comparator, lv: Levels, items: Items, curr: nat, currGuid: nat, prio: map<nat, int>,
                         modified: bool, shutdown: bool, pc: map<nat, Pc>, exec: Exec)

  datatype Outcome = Continues | Returns(value: int)

  ghost predicate Distinct(lv: Levels) {
    lv.active != lv.inactive && lv.active != lv.blocked && lv.inactive != lv.blocked
  }

  /** The threads start at whatever priority they have. */
  function Init(c: Comparator, lv: Levels, prio: map<nat, int>): State {
    State(c, lv, map[], 0, 0, prio, false, false, map t | t in prio :: Outside, Top)
  }

  ghost predicate Shape(s: State) {
    && 0 !in s.pc && s.prio.Keys == s.pc.Keys && Distinct(s.lv) && Keyed(s.c, s.items)
    && (forall g | g in s.items :: g in s.pc && s.items[g].thread == g)
    && (s.curr != 0 ==> s.curr in s.pc)
  }

  ghost predicate SynchFree(s: State) {
    forall t | t in s.pc :: !s.pc[t].Locked?
  }

  // ----- The atomic steps of the clients

  /** `schedule_i` up to the flag; a refused insertion returns without setting it. */
  ghost function Schedule(s: State, t: nat, item: Item): (State, Outcome) {
    var (items, ok) := Inserted(s.c, s.items, item);
    if !ok then (s.(items := items), Returns(-1))
    else (s.(items := items, prio := s.prio[t := s.lv.blocked], pc := s.pc[t := Flagging]), Continues)
  }

  function Removed(s: State, g: nat): State {
    var s := s.(items := s.items - {g});
    if s.currGuid == g then s.(currGuid := 0, curr := 0) else s
  }

  /** `cancel_schedule_i` up to the flag. */
  function Cancel(s: State, t: nat, g: nat): (State, Outcome) {
    (Removed(s, g).(pc := s.pc[t := Flagging]), Continues)
  }

  /** `update_schedule_i` with a block flag, up to the flag: `synch_lock_` is recursive, and the release
      inside the cancellation leaves it locked. */
  function UpdateFlag(s: State, t: nat, g: nat, block: bool): (State, Outcome) {
    if g in s.items && block then
      (Removed(s.(prio := s.prio[s.items[g].thread := s.lv.blocked]), g).(pc := s.pc[t := Locked]), Continues)
    else (s, Returns(-1))
  }

  function Signal(e: Exec): Exec {
    if e.Asleep? then Asleep(true) else e
  }

  /** Sets the flag, signals and returns. */
  function SetFlag(s: State, t: nat): (State, Outcome) {
    (s.(modified := true, exec := Signal(s.exec), pc := s.pc[t := Outside]), Returns(0))
  }

  function Shutdown(s: State, t: nat): (State, Outcome) {
    (s.(shutdown := true, pc := s.pc[t := Flagging]), Continues)
  }

  // ----- The atomic steps of the executive

  /** The loop that waits for the flag, from its test on. */
  function AwaitFlag(s: State): State {
    if s.modified then s.(modified := false, exec := Passing) else s.(exec := Asleep(false))
  }

  function StartIteration(s: State): State {
    if s.shutdown then s.(exec := Exited) else AwaitFlag(s)
  }

  ghost function ChangedPrio(items: Items, prio: map<nat, int>, oldPrio: int, newPrio: int): map<nat, int> {
    map t | t in prio :: if prio[t] == oldPrio && HasThread(items, t) then newPrio else prio[t]
  }

  /** Makes the item's thread the current one, unless it is. */
  function Elected(s: State, item: Item): State {
    if s.curr == item.thread then s
    else s.(prio := (if s.curr != 0 then s.prio[s.curr := s.lv.inactive] else s.prio)[item.thread := s.lv.active],
            curr := item.thread, currGuid := item.guid)
  }

  ghost function Pass(s: State): State
    requires Keyed(s.c, s.items)
  {
    if s.items == map[] then s.(exec := Top)
    else
      var s' := Elected(s, s.items[Head(s.c, s.items)]);
      s'.(prio := ChangedPrio(s.items, s'.prio, s.lv.blocked, s.lv.inactive), exec := Top)
  }

  datatype Event = DoSchedule(t: nat, item: Item) | DoCancel(t: nat, g: nat) | DoUpdateFlag(t: nat, g: nat, block: bool)
                 | DoSetFlag(t: nat) | DoShutdown(t: nat) | DoStart | DoWakeUp | DoPass

  /** When a step can be made: its thread is there and schedules itself under its own guid, and the lock
      the step needs is free. */
  ghost predicate Enabled(s: State, e: Event) {
    Shape(s) &&
    match e
    case DoSchedule(t, item) => t in s.pc && s.pc[t].Outside? && item.guid == item.thread == t && SynchFree(s)
    case DoCancel(t, g) => t in s.pc && s.pc[t].Outside? && SynchFree(s)
    case DoUpdateFlag(t, g, block) => t in s.pc && s.pc[t].Outside? && SynchFree(s)
    case DoSetFlag(t) => t in s.pc && !s.pc[t].Outside? && !s.exec.Passing?
    case DoShutdown(t) => t in s.pc && s.pc[t].Outside?
    case DoStart => s.exec.Top?
    case DoWakeUp => s.exec.Asleep?
    case DoPass => s.exec.Passing? && SynchFree(s)
  }

  ghost function Step(s: State, e: Event): (State, Outcome)
    requires Enabled(s, e)
  {
    match e
    case DoSchedule(t, item) => Schedule(s, t, item)
    case DoCancel(t, g) => Cancel(s, t, g)
    case DoUpdateFlag(t, g, block) => UpdateFlag(s, t, g, block)
    case DoSetFlag(t) => SetFlag(s, t)
    case DoShutdown(t) => Shutdown(s, t)
    case DoStart => (StartIteration(s), Continues)
    case DoWakeUp => (AwaitFlag(s), Continues)
    case DoPass => (Pass(s), Continues)
  }

  ghost predicate IsRun(start: State, states: seq<State>, events: seq<Event>) {
    && |states| == |events| + 1 && states[0] == start
    && forall i | 0 <= i < |events| :: Enabled(states[i], events[i]) && states[i + 1] == Step(states[i], events[i]).0
  }

  /** A start: all priorities different, no thread with the null handle. */
  ghost predicate IsStart(s: State) {
    0 !in s.prio && Distinct(s.lv) && s == Init(s.c, s.lv, s.prio)
  }

  // ----- The invariant

  /** What holds of priorities: a queued thread has one of the three, and the active one only if it is
      the current thread. */
  ghost predicate PrioInv(s: State)
    requires Shape(s)
  {
    forall t | t in s.items ::
      s.prio[t] in {s.lv.active, s.lv.inactive, s.lv.blocked} && (s.prio[t] == s.lv.active ==> s.curr == t)
  }

  /** A set flag does not wait for a sleeper that nobody has signalled, and is down during a pass. */
  ghost predicate Inv(s: State) {
    && Shape(s) && PrioInv(s) && s.currGuid == s.curr
    && (s.modified && s.exec.Asleep? ==> s.exec.signalled)
    && (s.exec.Passing? ==> !s.modified)
  }

  lemma InvInit(s: State)
    requires IsStart(s)
    ensures Inv(s)
  {}

  lemma InvSchedule(s: State, t: nat, item: Item)
    requires Inv(s) && Enabled(s, DoSchedule(t, item))
    ensures Inv(Schedule(s, t, item).0)
  {
    hide Before;
    InsertedKeyed(s.c, s.items, item);
    hide Keyed;
  }

  lemma InvRemoved(s: State, g: nat)
    requires Inv(s)
    ensures Inv(Removed(s, g))
  {
    hide Before;
    RemovedKeyed(s.c, s.items, g);
    hide Keyed;
  }

  lemma OwnThread(s: State)
    requires Shape(s)
    ensures forall t :: HasThread(s.items, t) <==> t in s.items
  {}

  /** What a pass makes of the priority of t, with head the new current thread. */
  function PriorityAfter(s: State, head: nat, t: nat): int
    requires t in s.prio
  {
    var p := if s.curr == head then s.prio[t]
             else if t == head then s.lv.active
             else if t == s.curr then s.lv.inactive else s.prio[t];
    if p == s.lv.blocked && t in s.items then s.lv.inactive else p
  }

  lemma PassIs(s: State)
    requires Shape(s) && s.items != map[]
    ensures var (head, s') := (Head(s.c, s.items), Pass(s));
      && s' == s.(curr := s'.curr, currGuid := s'.currGuid, prio := s'.prio, exec := Top)
      && head in s.items && head in s.prio && s'.curr == head
      && s'.currGuid == (if s.curr == head then s.currGuid else head)
      && s'.prio.Keys == s.prio.Keys && forall t | t in s.prio :: s'.prio[t] == PriorityAfter(s, head, t)
  {
    OwnThread(s);
    assert s.items[Head(s.c, s.items)].guid == Head(s.c, s.items);
    hide Before, Keyed, HasThread;
  }

  lemma InvPass(s: State)
    requires Inv(s) && Enabled(s, DoPass)
    ensures Inv(Pass(s))
  {
    if s.items != map[] {
      PassIs(s);
      hide Pass;
    }
    hide Before, Keyed;
  }

  lemma InvUpdateFlag(s: State, t: nat, g: nat, block: bool)
    requires Inv(s) && Enabled(s, DoUpdateFlag(t, g, block))
    ensures Inv(UpdateFlag(s, t, g, block).0)
  {
    hide Keyed;
    if g in s.items && block {
      var s1 := s.(prio := s.prio[s.items[g].thread := s.lv.blocked]);
      assert Inv(s1);
      InvRemoved(s1, g);
      InvMoved(Removed(s1, g), t, Locked);
      hide Removed, Inv;
    }
  }

  lemma InvMoved(s: State, t: nat, pc: Pc)
    requires Inv(s) && t in s.pc
    ensures Inv(s.(pc := s.pc[t := pc]))
  {
    hide Keyed;
  }

  lemma InvStep(s: State, e: Event)
    requires Inv(s) && Enabled(s, e)
    ensures Inv(Step(s, e).0)
  {
    match e
    case DoSchedule(t, item) => InvSchedule(s, t, item);
    case DoCancel(t, g) =>
      hide Inv, Removed;
      InvRemoved(s, g);
      InvMoved(Removed(s, g), t, Flagging);
    case DoUpdateFlag(t, g, block) => InvUpdateFlag(s, t, g, block);
    case DoSetFlag(t) => InvMoved(s, t, Outside); hide Keyed;
    case DoShutdown(t) => InvMoved(s, t, Flagging); hide Keyed;
    case DoStart => hide Keyed;
    case DoWakeUp => hide Keyed;
    case DoPass => InvPass(s);
  }

  lemma {:induction false} InvRun(start: State, states: seq<State>, events: seq<Event>, i: nat)
    requires IsStart(start) && IsRun(start, states, events) && i < |states|
    ensures Inv(states[i])
    decreases i
  {
    hide Inv, Step, Enabled;
    if i == 0 {
      InvInit(start);
    } else {
      InvRun(start, states, events, i - 1);
      InvStep(states[i - 1], events[i - 1]);
    }
  }

  lemma RunLength(start: State, states: seq<State>, events: seq<Event>)
    requires IsRun(start, states, events)
    ensures |states| == |events| + 1
  {
    hide Enabled, Step;
  }

  lemma RunStep(start: State, states: seq<State>, events: seq<Event>, i: nat)
    requires IsRun(start, states, events) && i < |events|
    ensures i + 1 < |states| && Enabled(states[i], events[i]) && states[i + 1] == Step(states[i], events[i]).0
  {
    hide Enabled, Step;
  }

  // ----- No reschedule is lost

  /** Somebody has changed the queue, or asked for a pass, and the executive has yet to look. */
  ghost predicate Pending(s: State) {
    s.modified || s.exec.Passing? || exists t :: t in s.pc && !s.pc[t].Outside?
  }

  /** When nothing is pending, the current thread is the one whose item comes before all others. */
  ghost predicate Settled(s: State) {
    Shape(s) && (!Pending(s) && s.items != map[] ==> s.curr == Head(s.c, s.items))
  }

  /** With nothing pending, the head schedules itself again and its new item ties with another one: the
      old item is gone, and nobody tells the executive. */
  ghost predicate LosesReschedule(s: State, e: Event) {
    Shape(s) && !Pending(s) && e.DoSchedule? && IsHead(s.c, s.items, e.t) && !Inserted(s.c, s.items, e.item).1
  }

  lemma SettledSchedule(s: State, t: nat, item: Item)
    requires Inv(s) && Enabled(s, DoSchedule(t, item)) && Settled(s)
    ensures Settled(Schedule(s, t, item).0) <==> !LosesReschedule(s, DoSchedule(t, item))
  {
    var (s', _) := Schedule(s, t, item);
    InsertedKeyed(s.c, s.items, item);
    if Inserted(s.c, s.items, item).1 {
      assert !s'.pc[t].Outside?;
    } else if !Pending(s) {
      if s.items != map[] && Head(s.c, s.items) != t {
        HeadAfterInsert(s.c, s.items, item);
        NotHead(s.c, s.items, t);
      }
      hide Before;
      assert !Pending(s') && t !in s'.items && s'.items != map[];
    }
  }

  lemma NotHead(c: Comparator, items: Items, t: nat)
    requires Keyed(c, items) && items != map[] && Head(c, items) != t
    ensures !IsHead(c, items, t)
  {
    if IsHead(c, items, t) {
      HeadUnique(c, items, t);
    }
  }

  lemma SettledStep(s: State, e: Event)
    requires Inv(s) && Enabled(s, e) && Settled(s)
    ensures Settled(Step(s, e).0) <==> !LosesReschedule(s, e)
  {
    if e.DoSchedule? {
      SettledSchedule(s, e.t, e.item);
    } else {
      InvStep(s, e);
      hide Keyed, Before, PrioInv;
      var s' := Step(s, e).0;
      match e
      case DoCancel(t, g) => assert !s'.pc[t].Outside?;
      case DoUpdateFlag(t, g, block) => assert g in s.items && block ==> !s'.pc[t].Outside?;
      case DoSetFlag(t) =>
      case DoShutdown(t) => assert !s'.pc[t].Outside?;
      case DoStart =>
      case DoWakeUp =>
      case DoPass =>
    }
  }

  /** No reschedule is lost: as long as no head has been refused re-insertion that way, whenever nothing
      is pending and the queue is not empty, the current thread is the most eligible one. */
  lemma {:induction false} NoRescheduleLost(start: State, states: seq<State>, events: seq<Event>, i: nat)
    requires IsStart(start) && IsRun(start, states, events) && i < |states|
    requires forall j | 0 <= j < i :: !LosesReschedule(states[j], events[j])
    ensures Settled(states[i])
    decreases i
  {
    hide Inv, Step, Enabled, LosesReschedule;
    if i > 0 {
      NoRescheduleLost(start, states, events, i - 1);
      InvRun(start, states, events, i - 1);
      hide Settled;
      SettledStep(states[i - 1], events[i - 1]);
    }
  }

  /** A pass, over an empty queue or not, catches up with everybody who has set the flag: afterwards
      something is pending only if a client is between its change of the queue and the flag. */
  lemma PassCatchesUp(start: State, states: seq<State>, events: seq<Event>, i: nat)
    requires IsStart(start) && IsRun(start, states, events) && i < |events| && events[i] == DoPass
    ensures Settled(states[i + 1]) && states[i + 1].exec == Top
    ensures Pending(states[i + 1]) <==> exists t :: t in states[i].pc && !states[i].pc[t].Outside?
  {
    InvRun(start, states, events, i);
    InvRun(start, states, events, i + 1);
    hide Keyed, Before, PrioInv;
    assert states[i + 1].pc == states[i].pc;
  }

  /** And no set flag goes unnoticed: the executive is not asleep, or has been signalled. */
  lemma FlagIsSeen(start: State, states: seq<State>, events: seq<Event>, i: nat)
    requires IsStart(start) && IsRun(start, states, events) && i < |states| && states[i].modified
    ensures states[i].exec != Asleep(false)
  {
    InvRun(start, states, events, i);
  }

  // ----- The current handle

  ghost predicate CurrentQueued(s: State) {
    s.curr == 0 || s.curr in s.items
  }

  /** The current thread is in the queue, and exactly a refused insertion of its own takes it out and
      leaves it current. */
  lemma CurrentQueuedStep(s: State, e: Event)
    requires Inv(s) && Enabled(s, e) && CurrentQueued(s)
    ensures CurrentQueued(Step(s, e).0) <==>
      !(e.DoSchedule? && e.t == s.curr && !Inserted(s.c, s.items, e.item).1)
  {
    hide Before, Keyed, PrioInv, TieIn;
  }

  /** So as long as the current thread is not refused, the handle never names a thread that has left. */
  lemma {:induction false} CurrentStaysQueued(start: State, states: seq<State>, events: seq<Event>, i: nat)
    requires IsStart(start) && IsRun(start, states, events) && i < |states|
    requires forall j | 0 <= j < i :: events[j].DoSchedule? && events[j].t == states[j].curr ==>
      Step(states[j], events[j]).1 == Continues
    ensures CurrentQueued(states[i])
    decreases i
  {
    hide Inv, Enabled, CurrentQueued, Inserted;
    if i > 0 {
      CurrentStaysQueued(start, states, events, i - 1);
      InvRun(start, states, events, i - 1);
      CurrentQueuedStep(states[i - 1], events[i - 1]);
    } else {
      CurrentQueuedStart(start);
    }
  }

  lemma CurrentQueuedStart(s: State)
    requires IsStart(s)
    ensures CurrentQueued(s)
  {}

  // ----- Priorities

  /** A queued thread at the active priority is the current one, so there is at most one. */
  lemma ActiveIsCurrent(start: State, states: seq<State>, events: seq<Event>, i: nat, t: nat)
    requires IsStart(start) && IsRun(start, states, events) && i < |states|
    requires var s := states[i]; t in s.items && t in s.prio && s.prio[t] == s.lv.active
    ensures states[i].curr == states[i].currGuid == t
  {
    InvRun(start, states, events, i);
  }

  /** What a pass over a non-empty queue leaves: the head is current and everybody else in the queue is
      inactive. The head is active exactly if it was not current before or was active already; one that
      was current and has scheduled itself again since ends up inactive. */
  lemma PassSettles(start: State, states: seq<State>, events: seq<Event>, i: nat)
    requires IsStart(start) && IsRun(start, states, events) && i < |events|
    requires events[i] == DoPass && states[i].items != map[]
    ensures var (s, s') := (states[i], states[i + 1]);
      && Inv(s) && s'.items == s.items && IsHead(s.c, s.items, s'.curr)
      && (forall t | t in s.items && t != s'.curr :: s'.prio[t] == s.lv.inactive)
      && s'.prio[s'.curr] == (if s.curr != s'.curr || s.prio[s.curr] == s.lv.active then s.lv.active else s.lv.inactive)
  {
    InvRun(start, states, events, i);
    PassIs(states[i]);
    hide Before, Keyed, Pass;
  }

  /** Only becoming current makes a thread active: once the current thread is not, it stays that way for
      as long as it remains current. */
  lemma OnlyAChangeActivates(s: State, e: Event)
    requires Inv(s) && Enabled(s, e)
    requires s.curr != 0 && s.prio[s.curr] != s.lv.active
    ensures var s' := Step(s, e).0; s'.curr == s.curr ==> s'.prio[s.curr] != s'.lv.active
  {
    OwnThread(s);
    hide Before, Keyed;
  }

  // ----- What each call does to the queue, the current thread and the priorities

  /** The guid has left the queue and nothing else has; if it was the current one, nobody is current. */
  ghost predicate Gone(s: State, s': State, g: nat) {
    && g !in s'.items && OnlyAt(s.items, s'.items, g)
    && s'.curr == (if s.currGuid == g then 0 else s.curr) && s'.currGuid == (if s.currGuid == g then 0 else s.currGuid)
  }

  /** Nothing that the executive keeps has changed. */
  ghost predicate SameExec(s: State, s': State) {
    s'.modified == s.modified && s'.shutdown == s.shutdown && s'.exec == s.exec
  }

  /** A thread is blocked and queued unless its item's key ties with another guid's; then its old item is
      gone and its priority is left alone. */
  lemma ScheduleEffect(start: State, states: seq<State>, events: seq<Event>, i: nat, t: nat, item: Item)
    requires IsRun(start, states, events) && i < |events| && events[i] == DoSchedule(t, item)
    ensures var (s, s', r) := (states[i], states[i + 1], Step(states[i], events[i]).1);
      && OnlyAt(s.items, s'.items, t) && s'.curr == s.curr && s'.currGuid == s.currGuid && SameExec(s, s')
      && if forall u | u in s.items && u != t :: !Tied(s.c, s.items[u], item)
         then
           && r == Continues && t in s'.items && s'.items[t] == item
           && s'.prio == s.prio[t := s.lv.blocked] && s'.pc == s.pc[t := Flagging]
         else r == Returns(-1) && t !in s'.items && s'.prio == s.prio && s'.pc == s.pc
  {
    var s := states[i];
    var (items, ok) := Inserted(s.c, s.items, item);
    assert states[i + 1].items == items && Step(s, events[i]).1 == if ok then Continues else Returns(-1);
    hide IsRun, Keyed, Tied, Inserted, Shape;
    forall u | u != t ensures (u in items <==> u in s.items) && (u in s.items ==> items[u] == s.items[u]) {
      InsertedMeans(s.c, s.items, item, u);
    }
    InsertedMeans(s.c, s.items, item, t);
  }

  lemma CancelEffect(start: State, states: seq<State>, events: seq<Event>, i: nat, t: nat, g: nat)
    requires IsRun(start, states, events) && i < |events| && events[i] == DoCancel(t, g)
    ensures var (s, s', r) := (states[i], states[i + 1], Step(states[i], events[i]).1);
      && r == Continues && Gone(s, s', g) && SameExec(s, s')
      && s'.prio == s.prio && s'.pc == s.pc[t := Flagging]
  {
    hide Keyed;
  }

  /** An update with a block flag blocks the thread of a queued guid and cancels the guid; anything else
      changes nothing and fails. */
  lemma UpdateEffect(start: State, states: seq<State>, events: seq<Event>, i: nat, t: nat, g: nat, block: bool)
    requires IsRun(start, states, events) && i < |events| && events[i] == DoUpdateFlag(t, g, block)
    ensures var (s, s', r) := (states[i], states[i + 1], Step(states[i], events[i]).1);
      if block && g in s.items
      then
        && r == Continues && Gone(s, s', g) && SameExec(s, s')
        && s'.prio == s.prio[g := s.lv.blocked] && s'.pc == s.pc[t := Locked]
      else r == Returns(-1) && s' == s
  {
    hide Keyed;
  }

  /** A cancelled guid stays out of the queue, and no pass makes it current, until it is scheduled again. */
  lemma {:induction false} CancelledStaysAway(start: State, states: seq<State>, events: seq<Event>,
                                              from: nat, i: nat, t: nat, g: nat)
    requires IsStart(start) && IsRun(start, states, events) && from < i < |states| && g != 0
    requires events[from] == DoCancel(t, g) || (events[from] == DoUpdateFlag(t, g, true) && g in states[from].items)
    requires forall j | from < j < i && events[j].DoSchedule? :: events[j].t != g
    ensures g !in states[i].items && states[i].curr != g && states[i].currGuid != g
    decreases i
  {
    hide *;
    RunLength(start, states, events);
    if from + 1 == i {
      CancelledIsGone(start, states, events, from, t, g);
    } else {
      CancelledStaysAway(start, states, events, from, i - 1, t, g);
      InvRun(start, states, events, i - 1);
      RunStep(start, states, events, i - 1);
      StaysAwayStep(states[i - 1], events[i - 1], g);
    }
  }

  lemma CancelledIsGone(start: State, states: seq<State>, events: seq<Event>, i: nat, t: nat, g: nat)
    requires IsStart(start) && IsRun(start, states, events) && i < |events| && g != 0
    requires events[i] == DoCancel(t, g) || (events[i] == DoUpdateFlag(t, g, true) && g in states[i].items)
    ensures g !in states[i + 1].items && states[i + 1].curr != g && states[i + 1].currGuid != g
  {
    InvRun(start, states, events, i);
    if events[i] == DoCancel(t, g) {
      CancelEffect(start, states, events, i, t, g);
    } else {
      UpdateEffect(start, states, events, i, t, g, true);
    }
    hide IsRun, Step, Enabled, Keyed, PrioInv;
  }

  lemma StaysAwayStep(s: State, e: Event, g: nat)
    requires Inv(s) && Enabled(s, e) && g != 0 && g !in s.items && s.curr != g && (e.DoSchedule? ==> e.t != g)
    ensures var s' := Step(s, e).0; g !in s'.items && s'.curr != g && s'.currGuid != g
  {
    match e
    case DoSchedule(t, item) => InsertedMeans(s.c, s.items, item, g); hide Inserted, Keyed;
    case DoPass =>
      if s.items != map[] {
        PassIs(s);
      }
      hide Keyed, Before;
    case _ => hide Keyed;
  }

  /** Setting the flag wakes the executive if it sleeps, and the call returns 0. */
  lemma FlagEffect(start: State, states: seq<State>, events: seq<Event>, i: nat, t: nat)
    requires IsRun(start, states, events) && i < |events| && events[i] == DoSetFlag(t)
    ensures var (s, s', r) := (states[i], states[i + 1], Step(states[i], events[i]).1);
      && r == Returns(0) && s'.modified && s'.shutdown == s.shutdown && s'.pc == s.pc[t := Outside]
      && s'.exec == (if s.exec.Asleep? then Asleep(true) else s.exec)
      && s'.items == s.items && s'.curr == s.curr && s'.currGuid == s.currGuid && s'.prio == s.prio
  {
    hide Keyed;
  }

  /** The executive begins a pass exactly if the flag is set, which it takes down, and sleeps otherwise;
      at the start of an iteration it exits instead if a shutdown has been requested. */
  lemma AwaitEffect(start: State, states: seq<State>, events: seq<Event>, i: nat)
    requires IsRun(start, states, events) && i < |events| && (events[i].DoStart? || events[i].DoWakeUp?)
    ensures var (s, s') := (states[i], states[i + 1]);
      && s'.items == s.items && s'.curr == s.curr && s'.currGuid == s.currGuid && s'.prio == s.prio && s'.pc == s.pc
      && s'.shutdown == s.shutdown
      && (events[i].DoStart? && s.shutdown ==> s'.exec == Exited)
      && (!(events[i].DoStart? && s.shutdown) ==>
            !s'.modified && s'.exec == if s.modified then Passing else Asleep(false))
  {
    hide Keyed;
  }

  /** What a pass does not do: it leaves the queue alone, over an empty one nothing happens, and threads that
      are not queued keep their priority, except that a current one which the head replaces is deactivated. */
  lemma PassLeaves(start: State, states: seq<State>, events: seq<Event>, i: nat, t: nat)
    requires IsStart(start) && IsRun(start, states, events) && i < |events| && events[i] == DoPass
    requires t in states[i].prio && t !in states[i].items
    ensures var (s, s') := (states[i], states[i + 1]);
      && s'.items == s.items && s'.pc == s.pc && s'.modified == s.modified && s'.shutdown == s.shutdown
      && s'.exec == Top
      && (s.items == map[] ==> s'.curr == s.curr && s'.prio == s.prio)
      && t in s'.prio && s'.prio[t] == if s.items != map[] && t == s.curr then s.lv.inactive else s.prio[t]
  {
    InvRun(start, states, events, i);
    if states[i].items != map[] {
      PassIs(states[i]);
    }
    hide Keyed, Before;
  }

  lemma ShutdownEffect(start: State, states: seq<State>, events: seq<Event>, i: nat, t: nat)
    requires IsRun(start, states, events) && i < |events| && events[i] == DoShutdown(t)
    ensures var (s, s', r) := (states[i], states[i + 1], Step(states[i], events[i]).1);
      && r == Continues && s'.shutdown && s'.pc == s.pc[t := Flagging] && s'.exec == s.exec && s'.modified == s.modified
      && s'.items == s.items && s'.curr == s.curr && s'.currGuid == s.currGuid && s'.prio == s.prio
  {
    hide Keyed;
  }

  lemma ShutdownStep(s: State, e: Event)
    requires Enabled(s, e) && s.shutdown
    ensures Step(s, e).0.shutdown
  {
    hide Keyed, Inserted;
  }

  /** A shutdown request sets the flag that stops the executive, and it stays set. */
  lemma {:induction false} ShutdownStays(start: State, states: seq<State>, events: seq<Event>,
                                         from: nat, i: nat, t: nat)
    requires IsRun(start, states, events) && from < i < |states| && events[from] == DoShutdown(t)
    ensures states[i].shutdown
    decreases i
  {
    hide *;
    RunLength(start, states, events);
    if from + 1 == i {
      ShutdownEffect(start, states, events, from, t);
    } else {
      ShutdownStays(start, states, events, from, i - 1, t);
      RunStep(start, states, events, i - 1);
      ShutdownStep(states[i - 1], events[i - 1]);
    }
  }

  // ----- The lock order of `update_schedule_i`

  /** The executive has the lock of the flag and wants `synch_lock_`; somebody has `synch_lock_` and wants
      the lock of the flag. */
  ghost predicate Deadlocked(s: State) {
    s.exec.Passing? && !SynchFree(s)
  }

  /** It is the one way to be stuck: if and only if, nothing can happen except a shutdown request, which
      takes no lock. */
  lemma DeadlockedIffNoStep(s: State)
    requires Inv(s) && s.pc != map[]
    ensures Deadlocked(s) <==> forall e: Event | Enabled(s, e) :: e.DoShutdown?
  {
    hide Keyed;
    if !Deadlocked(s) {
      var t :| t in s.pc;
      match s.exec
      case Top => assert Enabled(s, DoStart);
      case Asleep(_) => assert Enabled(s, DoWakeUp);
      case Passing => assert Enabled(s, DoPass);
      case Exited =>
        if u :| u in s.pc && !s.pc[u].Outside? {
          assert Enabled(s, DoSetFlag(u));
        } else {
          assert Enabled(s, DoCancel(t, t));
        }
    }
  }

  /** Exactly two things lead there: a blocking update that finds its guid while the executive is between
      its locks, and an executive that takes the flag down while such an update is. */
  lemma DeadlockedByStep(s: State, e: Event)
    requires Inv(s) && Enabled(s, e) && !Deadlocked(s)
    ensures Deadlocked(Step(s, e).0) <==>
      || (e.DoUpdateFlag? && e.g in s.items && e.block && s.exec.Passing?)
      || (s.modified && !SynchFree(s) && (e.DoWakeUp? || (e.DoStart? && !s.shutdown)))
  {
    hide Keyed, Before;
    var s' := Step(s, e).0;
    if e.DoUpdateFlag? && e.g in s.items && e.block {
      assert s'.pc[e.t].Locked?;
    }
    if e.DoStart? || e.DoWakeUp? {
      assert s'.pc == s.pc;
    }
  }

  lemma DeadlockedStep(s: State, e: Event)
    requires Enabled(s, e) && Deadlocked(s)
    ensures e.DoShutdown? && Deadlocked(Step(s, e).0) && Step(s, e).0.items == s.items
  {
    hide Keyed;
    var t :| t in s.pc && s.pc[t].Locked?;
    assert e.DoShutdown? ==> Step(s, e).0.pc[t].Locked?;
  }

  lemma {:induction false} DeadlockedForever(start: State, states: seq<State>, events: seq<Event>, from: nat, i: nat)
    requires IsStart(start) && IsRun(start, states, events) && from <= i < |states| && Deadlocked(states[from])
    ensures Deadlocked(states[i]) && states[i].items == states[from].items
    ensures i < |events| ==> events[i].DoShutdown?
    decreases i
  {
    hide *;
    RunLength(start, states, events);
    if from < i {
      DeadlockedForever(start, states, events, from, i - 1);
      RunStep(start, states, events, i - 1);
      DeadlockedStep(states[i - 1], events[i - 1]);
    }
    if i < |events| {
      RunStep(start, states, events, i);
      DeadlockedStep(states[i], events[i]);
    }
  }

  // ----- Shutting down

  function Passes(events: seq<Event>): nat {
    if events == [] then 0
    else Passes(events[..|events| - 1]) + if events[|events| - 1].DoPass? then 1 else 0
  }

  function PassesLeft(e: Exec): nat {
    if e.Passing? || e.Asleep? then 1 else 0
  }

  lemma PassesLeftStep(s: State, e: Event)
    requires Enabled(s, e) && s.shutdown
    ensures var s' := Step(s, e).0;
      s'.shutdown && PassesLeft(s'.exec) + (if e.DoPass? then 1 else 0) <= PassesLeft(s.exec)
  {
    hide Keyed, Inserted;
  }

  /** After a shutdown request the executive passes over the queue at most once more, and never if it
      had not started on the wait for the flag. */
  lemma {:induction false} AtMostOnePassAfterShutdown(start: State, states: seq<State>, events: seq<Event>,
                                                      from: nat, i: nat)
    requires IsStart(start) && IsRun(start, states, events) && from <= i < |states| && states[from].shutdown
    ensures states[i].shutdown
    ensures Passes(events[from..i]) + PassesLeft(states[i].exec) <= PassesLeft(states[from].exec)
    decreases i
  {
    hide Step, Enabled, PassesLeft;
    if from < i {
      AtMostOnePassAfterShutdown(start, states, events, from, i - 1);
      PassesLeftStep(states[i - 1], events[i - 1]);
      assert events[from..i][..i - 1 - from] == events[from..i - 1];
    }
  }

  // ----- Runs that show it

  lemma Extend(start: State, states: seq<State>, events: seq<Event>, s: State, e: Event)
    returns (states': seq<State>, events': seq<Event>, s': State)
    requires IsRun(start, states, events) && states[|events|] == s && Enabled(s, e)
    ensures IsRun(start, states', events') && states'[|events'|] == s' == Step(s, e).0
  {
    hide Step, Enabled;
    s' := Step(s, e).0;
    states', events' := states + [s'], events + [e];
  }

  /** A call of `schedule` that finds the executive at the start of an iteration and wakes it up. */
  lemma CallAndStart(start: State, states: seq<State>, events: seq<Event>, s: State, item: Item)
    returns (states': seq<State>, events': seq<Event>, s': State)
    requires IsRun(start, states, events) && states[|events|] == s
    requires Inv(s) && s.exec.Top? && !s.shutdown && !Pending(s) && Enabled(s, DoSchedule(item.guid, item))
    requires Inserted(s.c, s.items, item).1
    ensures IsRun(start, states', events') && states'[|events'|] == s' && Inv(s')
    ensures s' ==
      s.(items := Inserted(s.c, s.items, item).0, prio := s.prio[item.guid := s.lv.blocked], exec := Passing)
  {
    var t := item.guid;
    hide IsRun, Keyed, Before, PrioInv, Inserted;
    InvStep(s, DoSchedule(t, item));
    states', events', s' := Extend(start, states, events, s, DoSchedule(t, item));
    InvStep(s', DoSetFlag(t));
    states', events', s' := Extend(start, states', events', s', DoSetFlag(t));
    InvStep(s', DoStart);
    states', events', s' := Extend(start, states', events', s', DoStart);
    assert s'.pc == s.pc;
  }

  lemma CallAndPass(start: State, states: seq<State>, events: seq<Event>, s: State, item: Item, h: nat)
    returns (states': seq<State>, events': seq<Event>, s': State)
    requires IsRun(start, states, events) && states[|events|] == s
    requires Inv(s) && s.exec.Top? && !s.shutdown && !Pending(s) && Enabled(s, DoSchedule(item.guid, item))
    requires var (items, ok) := Inserted(s.c, s.items, item); ok && IsHead(s.c, items, h)
    ensures IsRun(start, states', events') && states'[|events'|] == s'
    ensures Inv(s') && s'.exec.Top? && !s'.shutdown && !Pending(s') && s'.pc == s.pc && s'.c == s.c && s'.lv == s.lv
    ensures s'.items == Inserted(s.c, s.items, item).0 && s'.curr == h
    ensures s.curr == h == item.guid ==> s'.prio[h] == s.lv.inactive
  {
    InsertedKeyed(s.c, s.items, item);
    HeadUnique(s.c, Inserted(s.c, s.items, item).0, h);
    states', events', s' := CallAndStart(start, states, events, s, item);
    hide IsRun, Keyed, Before, IsHead, PrioInv, Inserted;
    InvPass(s');
    OwnThread(s');
    states', events', s' := Extend(start, states', events', s', DoPass);
  }

  const LEVELS := Levels(2, 1, 0)

  /** Demotion happens: the only thread there is schedules itself twice, and stays inactive although it
      is the current one and the head. */
  lemma DemotionHappens() returns (states: seq<State>, events: seq<Event>, s: State)
    ensures IsRun(Init(FixedPriority, LEVELS, map[1 := 7]), states, events) && s == states[|events|]
    ensures Inv(s) && !Pending(s) && s.items.Keys == {1} && s.curr == 1 && s.prio[1] == s.lv.inactive
  {
    var start := Init(FixedPriority, LEVELS, map[1 := 7]);
    states, events, s := [start], [], start;
    hide IsRun;
    states, events, s := CallAndPass(start, states, events, s, Request(1, 1, 0), 1);
    states, events, s := CallAndPass(start, states, events, s, Request(1, 1, 1), 1);
  }

  lemma OneWaits() returns (states: seq<State>, events: seq<Event>, s: State)
    ensures IsRun(Init(FixedPriority, LEVELS, map[1 := 7, 2 := 7]), states, events) && s == states[|events|]
    ensures Inv(s) && !Pending(s) && s.c == FixedPriority && s.pc == map[1 := Outside, 2 := Outside]
    ensures s.items.Keys == {1, 2} && s.items[2] == Request(2, 1, 1) && s.curr == 1
  {
    var start := Init(FixedPriority, LEVELS, map[1 := 7, 2 := 7]);
    states, events, s := [start], [], start;
    hide IsRun;
    states, events, s := CallAndPass(start, states, events, s, Request(1, 5, 0), 1);
    states, events, s := CallAndPass(start, states, events, s, Request(2, 1, 1), 1);
  }

  /** A reschedule does get lost: thread 1 is current, thread 2 of lower priority waits, and thread 1
      schedules itself at that priority and, by the clock, at the same time: thread 2, alone in the
      queue, is never told. */
  lemma LostRescheduleHappens() returns (states: seq<State>, events: seq<Event>, s: State)
    ensures IsRun(Init(FixedPriority, LEVELS, map[1 := 7, 2 := 7]), states, events) && s == states[|events|]
    ensures !Settled(s) && !Pending(s) && s.items.Keys == {2} && s.curr == 1
  {
    var start := Init(FixedPriority, LEVELS, map[1 := 7, 2 := 7]);
    states, events, s := OneWaits();
    hide IsRun, Init, Keyed;
    var refused := Request(1, 1, 1);
    assert Tied(s.c, (s.items - {1})[2], refused);
    states, events, s := Extend(start, states, events, s, DoSchedule(1, refused));
  }

  /** And so does the deadlock: the executive takes the flag down, and before it gets `synch_lock_` the
      thread it was woken for blocks itself. */
  lemma DeadlockHappens() returns (states: seq<State>, events: seq<Event>, s: State)
    ensures IsRun(Init(FixedPriority, LEVELS, map[1 := 7]), states, events) && s == states[|events|] && Deadlocked(s)
  {
    var start := Init(FixedPriority, LEVELS, map[1 := 7]);
    states, events, s := [start], [], start;
    hide IsRun;
    states, events, s := CallAndStart(start, states, events, s, Request(1, 1, 0));
    states, events, s := Extend(start, states, events, s, DoUpdateFlag(1, 1, true));
    assert s.pc[1].Locked?;
  }

  // ----- The dispatcher object

  /** The object: its methods are the atomic steps, made under the locks the source takes. `prio` is the
      priority the system holds for each thread; where threads and executive are is ghost, and `Model`
      ties the object to the states above. */
  class Dispatcher {
    const readyQueue: SchedReadyQueue
    const activePrio: int
    const inactivePrio: int
    const blockedPrio: int
    var currScheduledThrHandle: nat
    var currScheduledGuid: nat
    var schedQueueModified: bool
    var shutdownFlagged: bool
    var prio: map<nat, int>
    ghost var pc: map<nat, Pc>
    ghost var exec: Exec

    ghost predicate Valid()
      reads this, readyQueue
    {
      readyQueue.Valid() && Keyed(readyQueue.comparator, readyQueue.hashMap)
    }

    ghost function Model(): State
      reads this, readyQueue
    {
      State(readyQueue.comparator, Levels(activePrio, inactivePrio, blockedPrio), readyQueue.hashMap,
            currScheduledThrHandle, currScheduledGuid, prio, schedQueueModified, shutdownFlagged, pc, exec)
    }

    constructor (c: Comparator, lv: Levels, prio: map<nat, int>)
      ensures Valid() && fresh(readyQueue) && Model() == Init(c, lv, prio)
    {
      readyQueue := new SchedReadyQueue(c);
      activePrio, inactivePrio, blockedPrio := lv.active, lv.inactive, lv.blocked;
      currScheduledThrHandle, currScheduledGuid := 0, 0;
      schedQueueModified, shutdownFlagged := false, false;
      this.prio := prio;
      pc := map t | t in prio :: Outside;
      exec := Top;
    }

    /** `now` and `time` are what the clock shows to the comparator and to the queue. */
    method ScheduleInsert(self: nat, id: nat, qos: Qos, now: int, time: int) returns (r: Outcome)
      requires Valid()
      modifies this, readyQueue
      ensures Valid() && (Model(), r) == Schedule(old(Model()), self, Item(id, self, qos, time))
      ensures (readyQueue.hashMap, r == Continues)
           == Inserted(readyQueue.comparator, old(readyQueue.hashMap), Item(id, self, qos, time))
      ensures prio == if r == Continues then old(prio)[self := blockedPrio] else old(prio)
    {
      InsertedKeyed(readyQueue.comparator, readyQueue.hashMap, Item(id, self, qos, time));
      var item := Item(id, self, qos, 0);
      var rc := readyQueue.Insert(now, time, item);
      if rc == -1 {
        return Returns(-1);
      }
      prio := prio[self := blockedPrio];
      pc := pc[self := Flagging];
      r := Continues;
    }

    method CancelRemove(ghost self: nat, guid: nat) returns (r: Outcome)
      requires Valid()
      modifies this, readyQueue
      ensures Valid() && (Model(), r) == Cancel(old(Model()), self, guid)
      ensures readyQueue.hashMap == old(readyQueue.hashMap) - {guid} && prio == old(prio) && r == Continues
      ensures currScheduledThrHandle == if old(currScheduledGuid) == guid then 0 else old(currScheduledThrHandle)
      ensures currScheduledGuid == if old(currScheduledGuid) == guid then 0 else old(currScheduledGuid)
    {
      RemoveGuid(guid);
      pc := pc[self := Flagging];
      r := Continues;
    }

    /** The system knows the priority of every queued thread. */
    ghost predicate ThreadsLive()
      reads this, readyQueue
    {
      forall g | g in readyQueue.hashMap :: readyQueue.hashMap[g].thread in prio
    }

    method RemoveGuid(guid: nat)
      requires Valid()
      modifies this, readyQueue
      ensures Valid() && Model() == Removed(old(Model()), guid)
      ensures readyQueue.hashMap == old(readyQueue.hashMap) - {guid} && prio == old(prio)
      ensures currScheduledThrHandle == if old(currScheduledGuid) == guid then 0 else old(currScheduledThrHandle)
      ensures currScheduledGuid == if old(currScheduledGuid) == guid then 0 else old(currScheduledGuid)
    {
      RemovedKeyed(readyQueue.comparator, readyQueue.hashMap, guid);
      var _ := readyQueue.Remove(guid);
      if currScheduledGuid == guid {
        currScheduledGuid := 0;
        currScheduledThrHandle := 0;
      }
    }

    method UpdateSchedule(ghost self: nat, guid: nat, block: bool) returns (r: Outcome)
      requires Valid()
      modifies this, readyQueue
      ensures Valid() && (Model(), r) == UpdateFlag(old(Model()), self, guid, block)
      ensures block && guid in old(readyQueue.hashMap) ==>
        && readyQueue.hashMap == old(readyQueue.hashMap) - {guid} && r == Continues && pc == old(pc)[self := Locked]
        && prio == old(prio)[old(readyQueue.hashMap)[guid].thread := blockedPrio]
        && currScheduledThrHandle == if old(currScheduledGuid) == guid then 0 else old(currScheduledThrHandle)
      ensures !(block && guid in old(readyQueue.hashMap)) ==> r == Returns(-1) && Model() == old(Model())
    {
      var found, dispatchItem := readyQueue.Find(guid, Null);
      if found == 0 && block {
        prio := prio[dispatchItem.item.thread := blockedPrio];
        RemoveGuid(guid);
        pc := pc[self := Locked];
        return Continues;
      }
      r := Returns(-1);
    }

    method SetModified(ghost self: nat) returns (r: Outcome)
      requires Valid()
      modifies this
      ensures Valid() && (Model(), r) == SetFlag(old(Model()), self)
    {
      schedQueueModified := true;
      exec := Signal(exec);
      pc := pc[self := Outside];
      r := Returns(0);
    }

    method FlagShutdown(ghost self: nat) returns (r: Outcome)
      requires Valid()
      modifies this
      ensures Valid() && (Model(), r) == Shutdown(old(Model()), self)
    {
      shutdownFlagged := true;
      pc := pc[self := Flagging];
      r := Continues;
    }

    method SvcStart()
      requires Valid()
      modifies this
      ensures Valid() && Model() == StartIteration(old(Model()))
    {
      if shutdownFlagged {
        exec := Exited;
      } else {
        SvcAwait();
      }
    }

    /** The loop around the condition wait, from its test to the next wait or past the loop. */
    method SvcAwait()
      requires Valid()
      modifies this
      ensures Valid() && Model() == AwaitFlag(old(Model()))
    {
      if !schedQueueModified {
        exec := Asleep(false);
      } else {
        schedQueueModified := false;
        exec := Passing;
      }
    }

    method SvcPass()
      requires Valid() && ThreadsLive()
      modifies this
      ensures Valid() && Model() == Pass(old(Model()))
    {
      hide Before, Keyed;
      exec := Top;
      var size := readyQueue.CurrentSize();
      if size <= 0 {
        return;
      }
      var _, itemVar := readyQueue.MostEligible(Null);
      Elect(itemVar.item);
      Demote();
    }

    method Elect(item: Item)
      modifies this
      ensures Model() == Elected(old(Model()), item)
    {
      var mostEligibleThrHandle := item.thread;
      if currScheduledThrHandle != mostEligibleThrHandle {
        if currScheduledThrHandle != 0 {
          prio := prio[currScheduledThrHandle := inactivePrio];
        }
        prio := prio[mostEligibleThrHandle := activePrio];
        currScheduledThrHandle := mostEligibleThrHandle;
        currScheduledGuid := item.guid;
      }
    }

    /** Moves the queued threads at the blocked priority to the inactive one. */
    method Demote()
      requires Valid() && ThreadsLive()
      modifies this
      ensures Model() == old(Model()).(prio := ChangedPrio(readyQueue.hashMap, old(prio), blockedPrio, inactivePrio))
    {
      prio := readyQueue.ChangePrio(prio, blockedPrio, inactivePrio);
      assert prio == ChangedPrio(readyQueue.hashMap, old(prio), blockedPrio, inactivePrio);
    }
  }

  /** Any step the model can make, made by the object; what the clock shows to the comparator is open. */
  method Perform(d: Dispatcher, e: Event) returns (r: Outcome)
    requires d.Valid() && Enabled(d.Model(), e)
    modifies d, d.readyQueue
    ensures d.Valid() && (d.Model(), r) == Step(old(d.Model()), e)
  {
    r := Continues;
    match e
    case DoSchedule(t, item) =>
      var now: int := *;
      r := d.ScheduleInsert(t, item.guid, item.qos, now, item.insertionTime);
    case DoCancel(t, g) => r := d.CancelRemove(t, g);
    case DoUpdateFlag(t, g, block) => r := d.UpdateSchedule(t, g, block);
    case DoSetFlag(t) => r := d.SetModified(t);
    case DoShutdown(t) => r := d.FlagShutdown(t);
    case DoStart => d.SvcStart();
    case DoWakeUp => d.SvcAwait();
    case DoPass => d.SvcPass();
  }

  /** The object goes through any run of the model, step by step, with the outcomes the run has: what
      holds of every run holds of the object. */
  method Drive(d: Dispatcher, events: seq<Event>, ghost states: seq<State>) returns (outcomes: seq<Outcome>)
    requires d.Valid() && IsStart(d.Model()) && IsRun(d.Model(), states, events)
    modifies d, d.readyQueue
    ensures d.Valid() && d.Model() == states[|events|] && |outcomes| == |events|
    ensures forall i | 0 <= i < |events| :: outcomes[i] == Step(states[i], events[i]).1
    ensures forall t | t in d.readyQueue.hashMap && t in d.prio && d.prio[t] == d.activePrio ::
      t == d.currScheduledThrHandle == d.currScheduledGuid
  {
    ghost var start := d.Model();
    outcomes := [];
    for k := 0 to |events|
      invariant d.Valid() && d.Model() == states[k] && |outcomes| == k
      invariant forall i | 0 <= i < k :: outcomes[i] == Step(states[i], events[i]).1
    {
      var r := Perform(d, events[k]);
      outcomes := outcomes + [r];
    }
    forall t | t in d.readyQueue.hashMap && t in d.prio && d.prio[t] == d.activePrio
      ensures t == d.currScheduledThrHandle == d.currScheduledGuid
    {
      ActiveIsCurrent(start, states, events, |events|, t);
    }
  }
}
