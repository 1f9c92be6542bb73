/** Deferred calls and the hook task (common/hooks.c). */
module Deferred {

  /**
   * Where hook_task is. At the top of its loop it reads the clock, runs the deferred routines that are due by that time
   * and the periodic hooks; then it reads the clock again, as t, and works out from it how long to sleep. The sleep is
   * measured from at, when the call of task_wait_event reads the clock itself.
   */
  datatype Task =
    | Top
    | Running(started: nat, i: nat)
    | Ready
    | HaveTime(t: nat, next: int)
    | Scanning(t: nat, next: int, i: nat)
    | Deciding(t: nat, next: int)
    | Calling(t: nat, next: int)
    | Sleeping(t: nat, next: int, at: nat)

  /** Where a caller of hook_call_deferred is: it has written the deadline, or also the new-call flag. */
  datatype Caller = WroteDeadline(slot: nat) | WroteFlag(slot: nat)

  /** The routine of a slot was called for a deadline, at a time, in the pass that started with that reading. */
  datatype Call = Call(slot: nat, deadline: nat, started: nat, at: nat)

  /**
   * interval is HOOK_TICK_INTERVAL, and lastTick starts at minus that; deferUntil is 0 for a slot that is not armed;
   * wakePending is an event posted to the hook task. calls and ticks record the calls of deferred routines and of the
   * tick hooks.
   */
  datatype State = State(now: nat, deferUntil: seq<nat>, deferNewCall: bool, wakePending: bool, task: Task,
                         lastTick: int, interval: nat, callers: map<nat, Caller>, calls: seq<Call>, ticks: seq<nat>)

  /** until is what the caller has worked out from the clock; Post is any other event for the hook task. */
  datatype Event =
    | Tick(elapsed: nat)
    | Arm(caller: nat, slot: nat, until: nat)
    | Flag(caller: nat)
    | WakeTask(caller: nat)
    | CancelSlot(slot: nat)
    | Post
    | StartLoop
    | RunSlot
    | ReadClock
    | ClearFlag
    | ScanSlot
    | Decide
    | StartSleep
    | WakeUp

  predicate Enabled(s: State, e: Event) {
    match e
    case Tick(us) => true
    case Arm(c, slot, until) => c !in s.callers && slot < |s.deferUntil|
    case Flag(c) => c in s.callers && s.callers[c].WroteDeadline?
    case WakeTask(c) => c in s.callers && s.callers[c].WroteFlag?
    case CancelSlot(slot) => slot < |s.deferUntil|
    case Post => true
    case StartLoop => s.task.Top?
    case RunSlot => s.task.Running?
    case ReadClock => s.task.Ready?
    case ClearFlag => s.task.HaveTime?
    case ScanSlot => s.task.Scanning?
    case Decide => s.task.Deciding?
    case StartSleep => s.task.Calling?
    case WakeUp => s.task.Sleeping? && (s.wakePending || s.now >= s.task.at + s.task.next)
  }

  /** One turn of the loop that makes next no later than slot i's deadline. */
  function Earlier(next: int, until: nat, t: nat): int {
    if until == 0 then next else if until < t then 0 else if until - t < next then until - t else next
  }

  /** Time left until the next tick. */
  function UntilTick(s: State): int {
    if s.lastTick + s.interval > s.now then s.lastTick + s.interval - s.now else 0
  }

  function Step(s: State, e: Event): State
    requires Enabled(s, e)
  {
    match e
    case Tick(us) => s.(now := s.now + us)
    case Arm(c, slot, until) =>
      s.(deferUntil := s.deferUntil[slot := until], callers := s.callers[c := WroteDeadline(slot)])
    case Flag(c) => s.(deferNewCall := true, callers := s.callers[c := WroteFlag(s.callers[c].slot)])
    case WakeTask(c) => s.(wakePending := true, callers := s.callers - {c})
    case CancelSlot(slot) => s.(deferUntil := s.deferUntil[slot := 0])
    case Post => s.(wakePending := true)
    case StartLoop => s.(task := Running(s.now, 0))
    case RunSlot =>
      var Running(started, i) := s.task;
      if i >= |s.deferUntil| then
        if started - s.lastTick >= s.interval then s.(task := Ready, ticks := s.ticks + [started], lastTick := started)
        else s.(task := Ready)
      else if 0 < s.deferUntil[i] < started then
        s.(task := Running(started, i + 1), deferUntil := s.deferUntil[i := 0],
           calls := s.calls + [Call(i, s.deferUntil[i], started, s.now)])
      else s.(task := Running(started, i + 1))
    case ReadClock => s.(task := HaveTime(s.now, UntilTick(s)))
    case ClearFlag => s.(deferNewCall := false, task := Scanning(s.task.t, s.task.next, 0))
    case ScanSlot =>
      var Scanning(t, next, i) := s.task;
      if i < |s.deferUntil| && next > 0 then s.(task := Scanning(t, Earlier(next, s.deferUntil[i], t), i + 1))
      else s.(task := Deciding(t, next))
    case Decide =>
      if s.task.next > 0 && !s.deferNewCall then s.(task := Calling(s.task.t, s.task.next)) else s.(task := Top)
    case StartSleep => s.(task := Sleeping(s.task.t, s.task.next, s.now))
    case WakeUp => s.(task := Top, wakePending := false)
  }

  /** Some caller has armed this slot and not yet posted its wake-up. */
  ghost predicate InFlight(s: State, slot: nat) {
    exists c :: c in s.callers && s.callers[c].slot == slot
  }

  ghost predicate Unflagged(s: State, slot: nat) {
    exists c :: c in s.callers && s.callers[c] == WroteDeadline(slot)
  }

  /** A sleep of that length from the reading of the clock would end in time for this slot. */
  predicate InTime(s: State, slot: nat, t: nat, next: int)
    requires slot < |s.deferUntil|
  {
    s.deferUntil[slot] == 0 || next <= 0 || t + next <= s.deferUntil[slot]
  }

  /**
   * Before the decision, a slot that has been passed over is in time, or the new-call flag is up, or its caller is
   * about to raise it; asleep, it is in time, or a wake-up is posted, or its caller is about to post one.
   */
  ghost predicate Inv(s: State) {
    match s.task
    case HaveTime(t, next) => t <= s.now && (next <= 0 || t + next <= s.lastTick + s.interval)
    case Scanning(t, next, i) =>
      && t <= s.now && (next <= 0 || t + next <= s.lastTick + s.interval)
      && forall k: nat :: k < i && k < |s.deferUntil| ==> InTime(s, k, t, next) || s.deferNewCall || Unflagged(s, k)
    case Deciding(t, next) =>
      && t <= s.now && (next <= 0 || t + next <= s.lastTick + s.interval)
      && forall k: nat :: k < |s.deferUntil| ==> InTime(s, k, t, next) || s.deferNewCall || Unflagged(s, k)
    case Calling(t, next) => t <= s.now && Covered(s, t, next)
    case Sleeping(t, next, at) => t <= at <= s.now && Covered(s, t, next)
    case _ => true
  }

  ghost predicate Covered(s: State, t: nat, next: int) {
    && 0 < next && t + next <= s.lastTick + s.interval
    && forall k: nat :: k < |s.deferUntil| ==> InTime(s, k, t, next) || s.wakePending || InFlight(s, k)
  }

  lemma SameCallers(s: State, s': State, slot: nat)
    requires s.callers == s'.callers
    ensures InFlight(s, slot) == InFlight(s', slot) && Unflagged(s, slot) == Unflagged(s', slot)
  {
  }

  lemma OwnCaller(s: State, c: nat)
    requires c in s.callers
    ensures InFlight(s, s.callers[c].slot)
    ensures s.callers[c].WroteDeadline? ==> Unflagged(s, s.callers[c].slot)
  {
  }

  /** Arming a slot puts it in flight; what was in flight stays so. */
  lemma ArmKeepsInv(s: State, e: Event)
    requires Inv(s) && Enabled(s, e) && e.Arm?
    ensures Inv(Step(s, e))
  {
    var s' := Step(s, e);
    OwnCaller(s', e.caller);
    forall k: nat | k != e.slot
      ensures (InFlight(s, k) ==> InFlight(s', k)) && (Unflagged(s, k) ==> Unflagged(s', k))
    {
      if InFlight(s, k) {
        var c :| c in s.callers && s.callers[c].slot == k;
        assert s'.callers[c] == s.callers[c];
      }
      if Unflagged(s, k) {
        var c :| c in s.callers && s.callers[c] == WroteDeadline(k);
        assert s'.callers[c] == s.callers[c];
      }
    }
  }

  lemma CallerStepKeepsInv(s: State, e: Event)
    requires Inv(s) && Enabled(s, e) && (e.Flag? || e.WakeTask?)
    ensures Inv(Step(s, e))
  {
    var s' := Step(s, e);
    forall k: nat ensures InFlight(s, k) ==> InFlight(s', k) || s'.wakePending {
      if InFlight(s, k) {
        var c :| c in s.callers && s.callers[c].slot == k;
        if e.Flag? { assert c in s'.callers && s'.callers[c].slot == k; }
      }
    }
    forall k: nat ensures Unflagged(s, k) ==> Unflagged(s', k) || s'.deferNewCall {
      if Unflagged(s, k) {
        var c :| c in s.callers && s.callers[c] == WroteDeadline(k);
        if e.WakeTask? { assert s'.callers[c] == WroteDeadline(k); }
      }
    }
  }

  lemma StepKeepsInv(s: State, e: Event)
    requires Inv(s) && Enabled(s, e)
    ensures Inv(Step(s, e))
  {
    var s' := Step(s, e);
    if e.Arm? {
      ArmKeepsInv(s, e);
    } else if e.Flag? || e.WakeTask? {
      CallerStepKeepsInv(s, e);
    } else {
      forall k: nat
        ensures InFlight(s, k) == InFlight(s', k) && Unflagged(s, k) == Unflagged(s', k)
        ensures Unflagged(s, k) ==> InFlight(s, k)
      {
        SameCallers(s, s', k);
      }
    }
  }

  ghost predicate Run(s: State, es: seq<Event>, t: State)
    decreases es
  {
    if es == [] then s == t else Enabled(s, es[0]) && Run(Step(s, es[0]), es[1..], t)
  }

  lemma {:induction false} RunKeepsInv(s: State, es: seq<Event>, t: State)
    requires Inv(s) && Run(s, es, t)
    ensures Inv(t)
    decreases es
  {
    if es != [] {
      StepKeepsInv(s, es[0]);
      RunKeepsInv(Step(s, es[0]), es[1..], t);
    }
  }

  /**
   * No lost deferral, for arming at any step: whenever the hook task is asleep, each armed slot has a deadline no earlier
   * than the end of the sleep less the time that passed before the sleep began, or a wake-up is posted, or the arming
   * call has not yet posted one. The same goes for the next tick.
   */
  lemma NoLostDeferral(s: State, es: seq<Event>, u: State, slot: nat)
    requires s.task == Top && Run(s, es, u)
    requires u.task.Sleeping? && slot < |u.deferUntil| && u.deferUntil[slot] != 0
    ensures var Sleeping(t, next, at) := u.task;
            && t <= at <= u.now && at + next <= u.lastTick + u.interval + (at - t)
            && (at + next <= u.deferUntil[slot] + (at - t) || u.wakePending || InFlight(u, slot))
  {
    RunKeepsInv(s, es, u);
  }

  /**
   * So once a deadline has come and its caller has returned, the hook task is able to run, not later after the deadline
   * than the time that passed between its reading of the clock and the beginning of its sleep.
   */
  lemma DueMeansAwake(s: State, es: seq<Event>, u: State, slot: nat)
    requires s.task == Top && Run(s, es, u)
    requires slot < |u.deferUntil| && 0 < u.deferUntil[slot] && !InFlight(u, slot) && u.task.Sleeping?
    requires u.deferUntil[slot] + (u.task.at - u.task.t) <= u.now
    ensures Enabled(u, WakeUp)
  {
    RunKeepsInv(s, es, u);
  }

  /**
   * When a deadline comes during the sleep, the task is able to run exactly when a wake-up is posted or the time that
   * passed before the sleep began is no more than the deadline allows; for the deadline that the sleep was worked out
   * for, exactly when none passed.
   */
  lemma AwakeAtDeadlineExactly(s: State, es: seq<Event>, u: State, slot: nat)
    requires s.task == Top && Run(s, es, u) && u.task.Sleeping?
    requires slot < |u.deferUntil| && u.now == u.deferUntil[slot]
    ensures Enabled(u, WakeUp) <==> u.wakePending || u.task.at - u.task.t <= u.now - (u.task.t + u.task.next)
    ensures u.now == u.task.t + u.task.next ==> (Enabled(u, WakeUp) <==> u.wakePending || u.task.at == u.task.t)
  {
    RunKeepsInv(s, es, u);
  }

  // ----- calling deferred routines -----

  /** How often the routine of slot k has been called. */
  function Called(calls: seq<Call>, k: nat): nat {
    if calls == [] then 0
    else Called(calls[..|calls| - 1], k) + Bit(calls[|calls| - 1].slot == k)
  }

  function Bit(b: bool): nat { if b then 1 else 0 }

  lemma {:induction false} CalledOneMore(calls: seq<Call>, c: Call, k: nat)
    ensures Called(calls + [c], k) == Called(calls, k) + Bit(c.slot == k)
  {
    assert (calls + [c])[..|calls|] == calls;
  }

  /** The pass has come by slot k, or there is none: without a new pass its routine is not called. */
  predicate PassedBy(s: State, k: nat) { !s.task.Running? || s.task.i > k }

  predicate Due(s: State, k: nat)
    requires k < |s.deferUntil| && s.task.Running?
  {
    0 < s.deferUntil[k] < s.task.started
  }

  predicate Arms(e: Event, k: nat) { e.Arm? && e.slot == k }

  /** The step in which a pass reaches slot k and calls it. */
  predicate CallsSlot(s: State, e: Event, k: nat)
    requires k < |s.deferUntil|
  {
    e == RunSlot && s.task.Running? && s.task.i == k && Due(s, k)
  }

  /** What one step means for slot k: it is called, and disarmed, exactly when a pass reaches it due. */
  lemma SlotStep(s: State, e: Event, k: nat)
    requires Enabled(s, e) && k < |s.deferUntil|
    ensures var u := Step(s, e);
            && |u.deferUntil| == |s.deferUntil| && s.calls <= u.calls
            && Called(u.calls, k) == Called(s.calls, k) + Bit(CallsSlot(s, e, k))
            && (CallsSlot(s, e, k) ==> u.calls == s.calls + [Call(k, s.deferUntil[k], s.task.started, s.now)])
    ensures Step(s, e).deferUntil[k]
         == if CallsSlot(s, e, k) || e == CancelSlot(k) then 0 else if Arms(e, k) then e.until else s.deferUntil[k]
  {
    if e == RunSlot {
      var i := s.task.i;
      if i < |s.deferUntil| && Due(s, i) {
        CalledOneMore(s.calls, Call(i, s.deferUntil[i], s.task.started, s.now), k);
      }
    } else {
      assert Step(s, e).calls == s.calls;
    }
  }

  lemma {:induction false} NoCallWithoutPass(s: State, es: seq<Event>, u: State, k: nat)
    requires k < |s.deferUntil| && PassedBy(s, k) && Run(s, es, u) && StartLoop !in es
    ensures Called(u.calls, k) == Called(s.calls, k) && s.calls <= u.calls && |u.deferUntil| == |s.deferUntil|
    ensures s.deferUntil[k] == 0 && (forall e :: e in es ==> !Arms(e, k)) ==> u.deferUntil[k] == 0
    decreases es
  {
    if es != [] {
      SlotStep(s, es[0], k);
      assert es[0] in es && forall e :: e in es[1..] ==> e in es;
      NoCallWithoutPass(Step(s, es[0]), es[1..], u, k);
    }
  }

  lemma NotYetReached(s: State, e: Event, k: nat)
    requires s.task.Running? && s.task.i <= k < |s.deferUntil| && Enabled(s, e)
    requires e != StartLoop && !(e == RunSlot && s.task.i == k)
    ensures var v := Step(s, e);
            && v.task.Running? && v.task.started == s.task.started && v.task.i <= k && |v.deferUntil| == |s.deferUntil|
            && Called(v.calls, k) == Called(s.calls, k)
            && (!Arms(e, k) && e != CancelSlot(k) ==> v.deferUntil[k] == s.deferUntil[k])
  {
    SlotStep(s, e, k);
  }

  lemma RunsOn(s: State, e: Event, es: seq<Event>, u: State)
    requires Enabled(s, e) && Run(Step(s, e), es, u)
    ensures Run(s, [e] + es, u)
  {
    assert ([e] + es)[1..] == es;
  }

  /** Of a pass from s to u by the steps es, the steps a lead to m, where slot k is reached, and the steps b go on from
      there; so far k has not been called, and it is armed as before unless one of a changed that. */
  ghost predicate ReachedAt(s: State, es: seq<Event>, u: State, k: nat, a: seq<Event>, m: State, b: seq<Event>)
    requires s.task.Running? && k < |s.deferUntil|
  {
    && es == a + [RunSlot] + b && m.task == Running(s.task.started, k) && |m.deferUntil| == |s.deferUntil|
    && Run(s, a, m) && Run(Step(m, RunSlot), b, u)
    && Called(m.calls, k) == Called(s.calls, k)
    && ((forall e :: e in a ==> !Arms(e, k) && e != CancelSlot(k)) ==> m.deferUntil[k] == s.deferUntil[k])
  }

  lemma ReachedLater(s: State, e: Event, es: seq<Event>, u: State, k: nat, a: seq<Event>, m: State, b: seq<Event>)
    requires s.task.Running? && s.task.i <= k < |s.deferUntil| && Enabled(s, e)
    requires e != StartLoop && !(e == RunSlot && s.task.i == k)
    requires Step(s, e).task.Running? && k < |Step(s, e).deferUntil| && ReachedAt(Step(s, e), es, u, k, a, m, b)
    ensures ReachedAt(s, [e] + es, u, k, [e] + a, m, b)
  {
    NotYetReached(s, e, k);
    RunsOn(s, e, a, m);
    assert [e] + es == [e] + a + [RunSlot] + b;
    assert e in [e] + a && forall f :: f in a ==> f in [e] + a;
  }

  /** A pass reaches each slot. */
  lemma {:induction false} PassReaches(s: State, es: seq<Event>, u: State, k: nat)
    returns (a: seq<Event>, m: State, b: seq<Event>)
    requires s.task.Running? && s.task.i <= k < |s.deferUntil|
    requires Run(s, es, u) && u.task == Ready && StartLoop !in es
    ensures ReachedAt(s, es, u, k, a, m, b)
    decreases es
  {
    var e, rest := es[0], es[1..];
    assert es == [e] + rest;
    if e == RunSlot && s.task.i == k {
      a, m, b := [], s, rest;
      assert es == a + [RunSlot] + b;
    } else {
      assert e in es && forall f :: f in rest ==> f in es;
      NotYetReached(s, e, k);
      var a';
      a', m, b := PassReaches(Step(s, e), rest, u, k);
      ReachedLater(s, e, rest, u, k, a', m, b);
      a := [e] + a';
    }
  }

  /**
   * So a pass calls the routine of each slot once when the slot is due as the pass reaches it, and otherwise not; and a
   * slot that is called is disarmed unless it is armed again.
   */
  lemma PassCallsDueSlots(s: State, es: seq<Event>, u: State, k: nat) returns (a: seq<Event>, m: State, b: seq<Event>)
    requires s.task.Running? && s.task.i <= k < |s.deferUntil|
    requires Run(s, es, u) && u.task == Ready && StartLoop !in es
    ensures es == a + [RunSlot] + b && m.task == Running(s.task.started, k)
    ensures |m.deferUntil| == |s.deferUntil| == |u.deferUntil|
    ensures Run(s, a, m) && Run(Step(m, RunSlot), b, u)
    ensures Called(u.calls, k) == Called(s.calls, k) + Bit(Due(m, k))
    ensures Due(m, k) ==> Call(k, m.deferUntil[k], s.task.started, m.now) in u.calls
    ensures Due(m, k) && (forall e :: e in b ==> !Arms(e, k)) ==> u.deferUntil[k] == 0
    ensures (forall e :: e in a ==> !Arms(e, k) && e != CancelSlot(k)) ==> m.deferUntil[k] == s.deferUntil[k]
  {
    a, m, b := PassReaches(s, es, u, k);
    var v := Step(m, RunSlot);
    SlotStep(m, RunSlot, k);
    assert forall e :: e in b ==> e in es;
    NoCallWithoutPass(v, b, u, k);
    if Due(m, k) { assert u.calls[|m.calls|] == v.calls[|m.calls|]; }
  }

  /** In particular, a slot that is due when a pass starts, and is neither armed again nor cancelled meanwhile, is called
      once by it. */
  lemma DueSlotIsCalled(s: State, es: seq<Event>, u: State, k: nat) returns (at: nat)
    requires s.task == Top && k < |s.deferUntil| && 0 < s.deferUntil[k] < s.now
    requires Run(Step(s, StartLoop), es, u) && u.task == Ready && StartLoop !in es
    requires forall e :: e in es ==> !Arms(e, k) && e != CancelSlot(k)
    ensures Called(u.calls, k) == Called(s.calls, k) + 1 && |u.deferUntil| == |s.deferUntil| && u.deferUntil[k] == 0
    ensures Call(k, s.deferUntil[k], s.now, at) in u.calls
  {
    var a, m, b := PassCallsDueSlots(Step(s, StartLoop), es, u, k);
    assert forall e :: e in a || e in b ==> e in es;
    at := m.now;
  }

  /** Every call is for a deadline that had passed when its pass started. */
  ghost predicate CalledLate(s: State) {
    && (s.task.Running? ==> s.task.started <= s.now)
    && forall c :: c in s.calls ==> c.slot < |s.deferUntil| && 0 < c.deadline < c.started <= c.at <= s.now
  }

  /** No routine is called before its deadline. */
  lemma {:induction false} NeverCalledEarly(s: State, es: seq<Event>, u: State)
    requires CalledLate(s) && Run(s, es, u)
    ensures CalledLate(u)
    decreases es
  {
    if es != [] {
      assert CalledLate(Step(s, es[0]));
      NeverCalledEarly(Step(s, es[0]), es[1..], u);
    }
  }

  /** How often in a run slot k is armed, and how often it loses a deadline by a cancel or by being armed again. */
  ghost function Armings(s: State, es: seq<Event>, k: nat): nat
    decreases es
  {
    if es == [] || !Enabled(s, es[0]) then 0
    else Bit(Arms(es[0], k) && es[0].until != 0) + Armings(Step(s, es[0]), es[1..], k)
  }

  ghost function Dropped(s: State, es: seq<Event>, k: nat): nat
    decreases es
  {
    if es == [] || !Enabled(s, es[0]) then 0
    else
      Bit((Arms(es[0], k) || es[0] == CancelSlot(k)) && k < |s.deferUntil| && s.deferUntil[k] != 0)
      + Dropped(Step(s, es[0]), es[1..], k)
  }

  /**
   * Over every run: each arming of a slot ends in exactly one call, or in a cancel, or in being replaced, or it is still
   * armed.
   */
  lemma {:induction false} EveryArmingIsAccountedFor(s: State, es: seq<Event>, u: State, k: nat)
    requires k < |s.deferUntil| && Run(s, es, u)
    ensures |u.deferUntil| == |s.deferUntil| && Called(u.calls, k) >= Called(s.calls, k)
    ensures Called(u.calls, k) + Bit(u.deferUntil[k] != 0) + Dropped(s, es, k)
         == Called(s.calls, k) + Bit(s.deferUntil[k] != 0) + Armings(s, es, k)
    decreases es
  {
    if es != [] {
      SlotStep(s, es[0], k);
      EveryArmingIsAccountedFor(Step(s, es[0]), es[1..], u, k);
    }
  }

  lemma {:induction false} NoArming(s: State, es: seq<Event>, k: nat)
    requires forall e :: e in es ==> !Arms(e, k)
    ensures Armings(s, es, k) == 0
    decreases es
  {
    if es != [] && Enabled(s, es[0]) {
      assert es[0] in es && forall e :: e in es[1..] ==> e in es;
      NoArming(Step(s, es[0]), es[1..], k);
    }
  }

  /** After a cancel the routine is not called until its slot is armed again. */
  lemma NoCallAfterCancel(s: State, k: nat, es: seq<Event>, u: State)
    requires Enabled(s, CancelSlot(k)) && Run(Step(s, CancelSlot(k)), es, u) && forall e :: e in es ==> !Arms(e, k)
    ensures Called(u.calls, k) == Called(s.calls, k) && k < |u.deferUntil| && u.deferUntil[k] == 0
  {
    EveryArmingIsAccountedFor(Step(s, CancelSlot(k)), es, u, k);
    NoArming(Step(s, CancelSlot(k)), es, k);
  }

  /** All calls of slot k in the sequence are for that deadline. */
  predicate CallsFor(calls: seq<Call>, k: nat, deadline: nat) {
    forall j :: 0 <= j < |calls| && calls[j].slot == k ==> calls[j].deadline == deadline > 0
  }

  lemma StepCallsFor(s: State, e: Event, k: nat)
    requires Enabled(s, e) && k < |s.deferUntil| && !Arms(e, k)
    ensures var u := Step(s, e);
            && s.calls <= u.calls && |u.deferUntil| == |s.deferUntil|
            && (u.deferUntil[k] == 0 || u.deferUntil[k] == s.deferUntil[k])
            && CallsFor(u.calls[|s.calls|..], k, s.deferUntil[k])
  {
  }

  /** The calls of a slot that is not armed again are for the deadline it has. */
  lemma {:induction false} CallsAreForDeadline(s: State, es: seq<Event>, u: State, k: nat)
    requires k < |s.deferUntil| && Run(s, es, u) && forall e :: e in es ==> !Arms(e, k)
    ensures s.calls <= u.calls && |u.deferUntil| == |s.deferUntil|
    ensures u.deferUntil[k] == 0 || u.deferUntil[k] == s.deferUntil[k]
    ensures CallsFor(u.calls[|s.calls|..], k, s.deferUntil[k])
    decreases es
  {
    if es != [] {
      var v := Step(s, es[0]);
      assert es[0] in es && forall e :: e in es[1..] ==> e in es;
      StepCallsFor(s, es[0], k);
      CallsAreForDeadline(v, es[1..], u, k);
      assert u.calls[|s.calls|..] == v.calls[|s.calls|..] + u.calls[|v.calls|..];
    }
  }

  /** A pass calls the tick hooks exactly when the interval has gone by since the last tick. */
  lemma {:induction false} PassTicks(s: State, es: seq<Event>, u: State)
    requires s.task.Running? && Run(s, es, u) && u.task == Ready && StartLoop !in es
    ensures u.interval == s.interval
    ensures u.ticks == s.ticks + if s.task.started - s.lastTick >= s.interval then [s.task.started] else []
    ensures u.lastTick == if s.task.started - s.lastTick >= s.interval then s.task.started else s.lastTick
    decreases es
  {
    var v := Step(s, es[0]);
    assert es[0] in es && es[0] != StartLoop && forall e :: e in es[1..] ==> e in es;
    if v.task.Running? { PassTicks(v, es[1..], u); } else { NoTickWithoutPass(v, es[1..], u); }
  }

  lemma {:induction false} NoTickWithoutPass(s: State, es: seq<Event>, u: State)
    requires !s.task.Running? && Run(s, es, u) && StartLoop !in es
    ensures u.ticks == s.ticks && u.lastTick == s.lastTick && u.interval == s.interval
    decreases es
  {
    if es != [] {
      assert es[0] in es && forall e :: e in es[1..] ==> e in es;
      NoTickWithoutPass(Step(s, es[0]), es[1..], u);
    }
  }

  /** Ticks are never closer than the interval. */
  ghost predicate Spaced(s: State) {
    && (forall j, k :: 0 <= j < k < |s.ticks| ==> s.ticks[k] - s.ticks[j] >= s.interval)
    && forall t :: t in s.ticks ==> t <= s.lastTick
  }

  lemma OneTickMore(s: State, e: Event)
    requires Spaced(s) && Enabled(s, e)
    ensures Spaced(Step(s, e))
  {
    var u := Step(s, e);
    assert u.interval == s.interval;
    if u.ticks != s.ticks {
      SpacedOneMore(s.ticks, s.lastTick, s.task.started, s.interval);
    } else {
      assert u.lastTick >= s.lastTick;
    }
  }

  lemma SpacedOneMore(ticks: seq<nat>, last: int, next: nat, interval: nat)
    requires forall j, k :: 0 <= j < k < |ticks| ==> ticks[k] - ticks[j] >= interval
    requires (forall t :: t in ticks ==> t <= last) && next - last >= interval
    ensures var more := ticks + [next];
            && (forall j, k :: 0 <= j < k < |more| ==> more[k] - more[j] >= interval)
            && forall t :: t in more ==> t <= next
  {
    forall j | 0 <= j < |ticks| ensures next - ticks[j] >= interval { assert ticks[j] in ticks; }
  }

  lemma {:induction false} TicksAreSpaced(s: State, es: seq<Event>, u: State)
    requires Spaced(s) && Run(s, es, u)
    ensures Spaced(u)
    decreases es
  {
    if es != [] {
      OneTickMore(s, es[0]);
      TicksAreSpaced(Step(s, es[0]), es[1..], u);
    }
  }

  lemma {:induction false} RunJoins(s: State, es: seq<Event>, u: State, fs: seq<Event>, v: State)
    requires Run(s, es, u) && Run(u, fs, v)
    ensures Run(s, es + fs, v)
    decreases es
  {
    if es == [] {
      assert es + fs == fs;
    } else {
      assert (es + fs)[1..] == es[1..] + fs;
      RunJoins(Step(s, es[0]), es[1..], u, fs, v);
    }
  }

  lemma RunOne(s: State, e: Event)
    requires Enabled(s, e)
    ensures Run(s, [e], Step(s, e))
  {
    assert [e][1..] == [];
  }

  ghost predicate Reaches(s: State, u: State) { exists es :: Run(s, es, u) }

  lemma ReachesItself(s: State)
    ensures Reaches(s, s)
  {
    assert Run(s, [], s);
  }

  lemma ReachesNext(s: State, u: State, e: Event) returns (v: State)
    requires Reaches(s, u) && Enabled(u, e)
    ensures v == Step(u, e) && Reaches(s, v)
  {
    v := Step(u, e);
    var es :| Run(s, es, u);
    RunOne(u, e);
    RunJoins(s, es, u, [e], v);
  }

  /** With a single slot that is not due and no tick due, the task gets through the deferred routines and the ticks. */
  lemma NothingToRun(s: State, u: State) returns (v: State)
    requires Reaches(s, u) && u.task == Top && |u.deferUntil| == 1 && 0 <= u.now - u.lastTick < u.interval
    requires u.deferUntil[0] == 0 || u.deferUntil[0] > u.now
    ensures Reaches(s, v) && v == u.(task := Ready)
  {
    v := ReachesNext(s, u, StartLoop);
    v := ReachesNext(s, v, RunSlot);
    v := ReachesNext(s, v, RunSlot);
  }

  /** Then it goes to sleep, with time lost before the sleep begins. */
  lemma GoesToSleep(s: State, u: State, lost: nat) returns (v: State)
    requires Reaches(s, u) && u.task == Ready && |u.deferUntil| == 1 && 0 <= u.now - u.lastTick < u.interval
    requires u.deferUntil[0] == 0 || u.deferUntil[0] > u.now
    ensures Reaches(s, v)
    ensures v == u.(now := u.now + lost, deferNewCall := false,
                    task := Sleeping(u.now, Earlier(UntilTick(u), u.deferUntil[0], u.now), u.now + lost))
  {
    v := ReachesNext(s, u, ReadClock);
    v := ReachesNext(s, v, ClearFlag);
    v := ReachesNext(s, v, ScanSlot);
    v := ReachesNext(s, v, ScanSlot);
    v := ReachesNext(s, v, Decide);
    v := ReachesNext(s, v, Tick(lost));
    v := ReachesNext(s, v, StartSleep);
  }

  /** Slot 0 is armed for 1400 while the task sleeps, which the caller's wake-up ends. */
  lemma ArmedAndAwake(s: State) returns (u: State)
    requires s == State(1000, [0], false, false, Top, 1000, 500, map[], [], [])
    ensures Reaches(s, u) && u == State(1300, [1400], true, false, Top, 1000, 500, map[], [], [])
  {
    ReachesItself(s);
    u := NothingToRun(s, s);
    u := GoesToSleep(s, u, 0);
    u := ReachesNext(s, u, Arm(0, 0, 1400));
    u := ReachesNext(s, u, Flag(0));
    u := ReachesNext(s, u, WakeTask(0));
    u := ReachesNext(s, u, WakeUp);
    u := ReachesNext(s, u, Tick(300));
  }

  /**
   * A deadline can be overslept: for any time lost before the sleep begins there is a run in which the task is still
   * asleep when, but for one microsecond, that time has passed since the deadline of a slot whose caller has returned.
   */
  lemma DeadlineOverslept(lost: nat) returns (u: State)
    requires lost > 0
    ensures Reaches(State(1000, [0], false, false, Top, 1000, 500, map[], [], []), u)
    ensures u.task.Sleeping? && !InFlight(u, 0) && u.deferUntil == [1400] && u.now == 1400 + (lost - 1)
    ensures !Enabled(u, WakeUp)
  {
    var s := State(1000, [0], false, false, Top, 1000, 500, map[], [], []);
    u := ArmedAndAwake(s);
    u := NothingToRun(s, u);
    u := GoesToSleep(s, u, lost);
    u := ReachesNext(s, u, Tick(99));
  }
}
