/**
 * Task timers served by one hardware event (common/timer.c). The interrupt routine and the arming of
 * a timer are interleaved with a running 32-bit clock at every point where that can matter.
 */
module Timers {
  import opened Wrappers

  const WORD := 0x1_0000_0000
  const MAX_WORD := 0xffff_ffff
  const NEVER := 0xffff_ffff_ffff_ffff

  function Hi(t: nat): nat { t / WORD }
  function Lo(t: nat): nat { t % WORD }

  // ----- one pass over the running timers -----

  /** A deadline in this epoch that has not passed and that the event register can be set for. */
  predicate Upcoming(d: nat, now: nat) { d > now && Hi(d) == Hi(now) && Lo(d) < MAX_WORD }

  /** The earliest upcoming deadline among running timers k and above, or NEVER. */
  function NextFrom(running: set<nat>, deadline: seq<nat>, now: nat, k: nat): nat
    requires k <= |deadline|
    decreases |deadline| - k
  {
    if k == |deadline| then NEVER
    else
      var next := NextFrom(running, deadline, now, k + 1);
      if k in running && deadline[k] > now && Hi(deadline[k]) == Hi(now) && Lo(deadline[k]) < Lo(next)
      then deadline[k] else next
  }

  function Unexpired(running: set<nat>, deadline: seq<nat>, now: nat): set<nat> {
    set t | t in running && !(t < |deadline| && deadline[t] <= now)
  }

  lemma {:induction false} NextIsEarliest(running: set<nat>, deadline: seq<nat>, now: nat, k: nat)
    requires k <= |deadline|
    ensures var next := NextFrom(running, deadline, now, k);
            && (next == NEVER
                || (Upcoming(next, now) && exists t :: k <= t < |deadline| && t in running && deadline[t] == next))
            && forall t :: k <= t < |deadline| && t in running && Upcoming(deadline[t], now) ==>
                 next <= deadline[t] && next != NEVER
    decreases |deadline| - k
  {
    if k < |deadline| {
      NextIsEarliest(running, deadline, now, k + 1);
    }
  }

  /** A pass leaves the event clear exactly when no running timer is upcoming; a low word of all ones never is. */
  lemma ClearExactlyWhenNothingUpcoming(running: set<nat>, deadline: seq<nat>, now: nat)
    requires Hi(now) < MAX_WORD
    ensures Hi(NextFrom(running, deadline, now, 0)) == MAX_WORD
            <==> forall t :: 0 <= t < |deadline| && t in running ==> !Upcoming(deadline[t], now)
  {
    NextIsEarliest(running, deadline, now, 0);
    assert Hi(NEVER) == MAX_WORD;
  }

  lemma {:induction false} NextSkipsIdle(running: set<nat>, deadline: seq<nat>, now: nat, j: nat, k: nat)
    requires j <= k <= |deadline| && forall t :: j <= t < k ==> t !in running
    ensures NextFrom(running, deadline, now, j) == NextFrom(running, deadline, now, k)
    decreases k - j
  {
    if j < k { NextSkipsIdle(running, deadline, now, j + 1, k); }
  }

  /** A task was woken for its deadline at a time. */
  datatype Wake = Wake(task: nat, deadline: nat, at: nat)

  /** The wakes of a pass, for the first n tasks, highest first. */
  function WakeUps(running: set<nat>, deadline: seq<nat>, now: nat, at: nat, n: nat): seq<Wake>
    requires n <= |deadline|
  {
    if n == 0 then []
    else if n - 1 in running && deadline[n - 1] <= now
    then [Wake(n - 1, deadline[n - 1], at)] + WakeUps(running, deadline, now, at, n - 1)
    else WakeUps(running, deadline, now, at, n - 1)
  }

  lemma {:induction false} WakeUpsSkipIdle(running: set<nat>, deadline: seq<nat>, now: nat, at: nat, j: nat, k: nat)
    requires j <= k <= |deadline| && forall t :: j <= t < k ==> t !in running
    ensures WakeUps(running, deadline, now, at, j) == WakeUps(running, deadline, now, at, k)
    decreases k - j
  {
    if j < k { WakeUpsSkipIdle(running, deadline, now, at, j, k - 1); }
  }

  /** From k on down, the next task with a running timer is t; before are the wakes of those above. */
  lemma {:induction false} NextWake(running: set<nat>, deadline: seq<nat>, now: nat, at: nat, t: nat, k: nat,
                                    before: seq<Wake>)
    requires t < k <= |deadline| && t in running && forall u :: t < u < k ==> u !in running
    ensures var after := if deadline[t] <= now then before + [Wake(t, deadline[t], at)] else before;
            before + WakeUps(running, deadline, now, at, k) == after + WakeUps(running, deadline, now, at, t)
  {
    WakeUpsSkipIdle(running, deadline, now, at, t + 1, k);
  }

  /** 31 - clz. */
  method HighestBit(mask: set<nat>, count: nat) returns (t: nat)
    requires mask != {} && forall u :: u in mask ==> u < count
    ensures t in mask && forall u :: u in mask ==> u <= t
  {
    t := count - 1;
    while t !in mask
      invariant t < count && forall u :: u in mask ==> u <= t
      decreases t
    {
      var u :| u in mask;
      assert u <= t && u != t;
      t := t - 1;
    }
  }

  /** The scan inside process_timers: expire what is due, highest task first, and find the next deadline; at is the time
      when the tasks are woken. */
  method ScanTimers(timerRunning: set<nat>, deadline: seq<nat>, now: nat, at: nat)
    returns (running: set<nat>, next: nat, wakes: seq<Wake>)
    requires forall t :: t in timerRunning ==> t < |deadline|
    ensures running == Unexpired(timerRunning, deadline, now)
    ensures next == NextFrom(timerRunning, deadline, now, 0)
    ensures wakes == WakeUps(timerRunning, deadline, now, at, |deadline|)
  {
    next, wakes := NEVER, [];
    running := timerRunning;
    var check := running;
    ghost var k: nat := |deadline|;
    ghost var all := WakeUps(timerRunning, deadline, now, at, k);
    while check != {}
      invariant k <= |deadline|
      invariant check == set t | t in timerRunning && t < k
      invariant running == set t | t in timerRunning && (t < k || !(deadline[t] <= now))
      invariant next == NextFrom(timerRunning, deadline, now, k)
      invariant wakes + WakeUps(timerRunning, deadline, now, at, k) == all
      decreases check
    {
      var t := HighestBit(check, |deadline|);
      assert forall u :: t < u < k && u in timerRunning ==> u in check;
      NextSkipsIdle(timerRunning, deadline, now, t + 1, k);
      NextWake(timerRunning, deadline, now, at, t, k, wakes);
      if deadline[t] <= now {
        running := running - {t};
        wakes := wakes + [Wake(t, deadline[t], at)];
      } else if Hi(deadline[t]) == Hi(now) && Lo(deadline[t]) < Lo(next) {
        next := deadline[t];
      }
      check := check - {t};
      k := t;
    }
    assert forall u :: 0 <= u < k && u in timerRunning ==> u in check;
    NextSkipsIdle(timerRunning, deadline, now, 0, k);
    WakeUpsSkipIdle(timerRunning, deadline, now, at, 0, k);
  }

  // ----- the system -----

  /** Where the interrupt routine is. */
  datatype Isr = Out | ReadTime | Scan(now: nat) | Program(next: nat) | Check(next: nat)

  /**
   * lo is the hardware counter and epoch counts its wraps; event is the match register. setting holds the tasks
   * that have written their deadline but not their bit, arming those that have not reached the trigger test.
   */
  datatype State = State(
    epoch: nat, lo: nat, event: Option<nat>, irqPending: bool, overflowPending: bool,
    clksrcHigh: nat, running: set<nat>, deadline: seq<nat>, nextDeadline: nat,
    isr: Isr, setting: set<nat>, arming: set<nat>, wakes: seq<Wake>)
  {
    /** The real time. */
    function Now(): nat { epoch * WORD + lo }

    /** get_time(), which does not see a wrap before the interrupt has counted it. */
    function GetTime(): nat { clksrcHigh * WORD + lo }
  }

  datatype Event =
    Tick | ArmSet(t: nat, stamp: nat) | ArmRun(t: nat) | ArmTrigger(t: nat) | Cancel(t: nat) | IsrEnter | IsrStep

  /** The clock advances, unless it would wrap twice uncounted or leave the last epoch but one. */
  predicate MayTick(s: State) { s.lo == MAX_WORD ==> !s.overflowPending && s.epoch + 1 < MAX_WORD }

  predicate Enabled(s: State, e: Event) {
    match e
    case Tick => MayTick(s)
    case ArmSet(t, stamp) => s.isr == Out && t < |s.deadline| && t !in s.running && t !in s.setting && t !in s.arming
    case ArmRun(t) => s.isr == Out && t in s.setting
    case ArmTrigger(t) => s.isr == Out && t in s.arming
    case Cancel(t) => s.isr == Out
    case IsrEnter => s.isr == Out && s.irqPending
    case IsrStep => s.isr != Out
  }

  function DoTick(s: State): State {
    if s.lo == MAX_WORD then
      s.(lo := 0, epoch := s.epoch + 1, irqPending := true, overflowPending := true)
    else
      s.(lo := s.lo + 1, irqPending := s.irqPending || s.event == Some(s.lo + 1))
  }

  /** The last part of timer_arm: is an interrupt needed to set an earlier event? */
  predicate NeedsIrq(s: State, d: nat) {
    Hi(d) < s.clksrcHigh || (Hi(d) == s.clksrcHigh && Lo(d) <= s.nextDeadline)
  }

  function DoIsrStep(s: State): State
    requires s.isr != Out
  {
    match s.isr
    case ReadTime => s.(isr := Scan(s.GetTime()))
    case Scan(now) =>
      var next := NextFrom(s.running, s.deadline, now, 0);
      var more := WakeUps(s.running, s.deadline, now, s.Now(), |s.deadline|);
      var s' := s.(running := Unexpired(s.running, s.deadline, now), wakes := s.wakes + more);
      if Hi(next) == MAX_WORD then s'.(event := None, nextDeadline := MAX_WORD, isr := Out)
      else s'.(isr := Program(next))
    case Program(next) => s.(event := Some(Lo(next)), nextDeadline := Lo(next), isr := Check(next))
    case Check(next) => s.(isr := if next <= s.GetTime() then ReadTime else Out)
  }

  function Step(s: State, e: Event): State
    requires Enabled(s, e)
  {
    match e
    case Tick => DoTick(s)
    case ArmSet(t, stamp) => s.(deadline := s.deadline[t := stamp], setting := s.setting + {t})
    case ArmRun(t) => s.(running := s.running + {t}, setting := s.setting - {t}, arming := s.arming + {t})
    case ArmTrigger(t) =>
      s.(arming := s.arming - {t},
         irqPending := s.irqPending || (t < |s.deadline| && NeedsIrq(s, s.deadline[t])))
    case Cancel(t) => s.(running := s.running - {t})
    case IsrEnter =>
      s.(isr := ReadTime, irqPending := false, overflowPending := false,
         clksrcHigh := s.clksrcHigh + if s.overflowPending then 1 else 0)
    case IsrStep => DoIsrStep(s)
  }

  /** Boot: no timer, no event, clock anywhere in an epoch. */
  ghost predicate Initial(s: State) {
    && s.lo < WORD && s.epoch == s.clksrcHigh < MAX_WORD && s.event == None && s.nextDeadline == MAX_WORD
    && !s.overflowPending && s.running == {} && s.setting == {} && s.arming == {} && s.isr == Out && s.wakes == []
  }

  // ----- the invariant -----

  /** The running timers the event must serve, unless their arming has not got to its trigger test. */
  predicate Served(s: State, t: nat)
    requires t < |s.deadline|
  {
    t in s.running && t !in s.arming
  }

  /** Every deadline in this epoch has the event at or before it, and none is in an earlier epoch. */
  ghost predicate Covered(s: State, at: Option<nat>) {
    forall t :: 0 <= t < |s.deadline| && Served(s, t) ==>
      && s.clksrcHigh <= Hi(s.deadline[t])
      && (Hi(s.deadline[t]) == s.clksrcHigh && Lo(s.deadline[t]) < MAX_WORD ==> at.Some? && at.value <= Lo(s.deadline[t]))
  }

  ghost predicate Inv(s: State) {
    && s.lo < WORD && s.epoch == s.clksrcHigh + (if s.overflowPending then 1 else 0) && s.epoch < MAX_WORD
    && (s.overflowPending ==> s.irqPending)
    && (forall t :: t in s.running ==> t < |s.deadline|)
    && (forall t :: t in s.setting || t in s.arming ==> t < |s.deadline|)
    && (forall t :: t in s.setting ==> t !in s.running)
    && (match s.event case None => s.nextDeadline == MAX_WORD case Some(v) => s.nextDeadline == v < MAX_WORD)
    && (match s.isr
        case Out => s.irqPending || (Covered(s, s.event) && (s.event.Some? ==> s.lo < s.event.value))
        case ReadTime => true
        case Scan(now) => Hi(now) == s.clksrcHigh && now <= s.Now()
        case Program(next) => Hi(next) == s.clksrcHigh && Lo(next) < MAX_WORD && Covered(s, Some(Lo(next)))
        case Check(next) => Hi(next) == s.clksrcHigh && s.event == Some(Lo(next)) && Covered(s, s.event))
    && (forall w :: w in s.wakes ==> w.deadline <= w.at)
  }

  /** A pass wakes only for running timers that are due, each for its deadline. */
  lemma {:induction false} WakeUpsAreDue(running: set<nat>, deadline: seq<nat>, now: nat, at: nat, n: nat)
    requires n <= |deadline|
    ensures forall w :: w in WakeUps(running, deadline, now, at, n) ==>
              w.task < n && w.task in running && w == Wake(w.task, deadline[w.task], at) && w.deadline <= now
  {
    if n > 0 { WakeUpsAreDue(running, deadline, now, at, n - 1); }
  }

  lemma ScanStepKeepsInv(s: State)
    requires Inv(s) && s.isr.Scan?
    ensures Inv(DoIsrStep(s))
  {
    var now := s.isr.now;
    var next := NextFrom(s.running, s.deadline, now, 0);
    var s' := DoIsrStep(s);
    WakeUpsAreDue(s.running, s.deadline, now, s.Now(), |s.deadline|);
    NextIsEarliest(s.running, s.deadline, now, 0);
    assert Hi(NEVER) == MAX_WORD;
    assert Hi(next) == MAX_WORD <==> next == NEVER;
    assert Covered(s', if next == NEVER then None else Some(Lo(next)));
  }

  lemma StepKeepsInv(s: State, e: Event)
    requires Inv(s) && Enabled(s, e)
    ensures Inv(Step(s, e))
  {
    if e.IsrStep? && s.isr.Scan? {
      ScanStepKeepsInv(s);
    }
  }

  ghost predicate Run(s: State, es: seq<Event>, t: State)
    decreases es
  {
    if es == [] then s == t else Enabled(s, es[0]) && Run(Step(s, es[0]), es[1..], t)
  }

  /** In every interleaving of arming, cancelling, ticking and interrupts the invariant holds. */
  lemma {:induction false} RunKeepsInv(s: State, es: seq<Event>, t: State)
    requires Inv(s) && Run(s, es, t)
    ensures Inv(t)
    decreases es
  {
    if es != [] {
      StepKeepsInv(s, es[0]);
      RunKeepsInv(Step(s, es[0]), es[1..], t);
    }
  }

  // ----- waking -----

  /** How often task t has been woken. */
  function Woken(wakes: seq<Wake>, t: nat): nat {
    if wakes == [] then 0
    else Woken(wakes[..|wakes| - 1], t) + if wakes[|wakes| - 1].task == t then 1 else 0
  }

  lemma {:induction false} WokenJoins(a: seq<Wake>, b: seq<Wake>, t: nat)
    ensures Woken(a + b, t) == Woken(a, t) + Woken(b, t)
  {
    if b == [] {
      assert a + b == a;
    } else {
      var n := |b| - 1;
      assert (a + b)[..|a| + n] == a + b[..n];
      WokenJoins(a, b[..n], t);
    }
  }

  /** A pass wakes each timer that is due once, and no other. */
  lemma {:induction false} PassWakes(running: set<nat>, deadline: seq<nat>, now: nat, at: nat, n: nat, t: nat)
    requires n <= |deadline|
    ensures Woken(WakeUps(running, deadline, now, at, n), t) == if t < n && t in running && deadline[t] <= now then 1 else 0
    decreases n
  {
    if n > 0 {
      PassWakes(running, deadline, now, at, n - 1, t);
      if n - 1 in running && deadline[n - 1] <= now {
        var first := Wake(n - 1, deadline[n - 1], at);
        WokenJoins([first], WakeUps(running, deadline, now, at, n - 1), t);
        WokenOne(first, t);
      }
    }
  }

  lemma WokenOne(w: Wake, t: nat)
    ensures Woken([w], t) == if w.task == t then 1 else 0
  {
    assert [w][..0] == [];
  }

  /**
   * A timer stops running by being cancelled, or else it expires: then its task is woken once, for its deadline, in the
   * step that takes it out. No step wakes a task otherwise.
   */
  lemma StopsByCancelOrWake(s: State, e: Event, t: nat) returns (more: seq<Wake>)
    requires Inv(s) && Enabled(s, e)
    ensures Step(s, e).wakes == s.wakes + more
    ensures Woken(more, t) == if t in s.running && t !in Step(s, e).running && e != Cancel(t) then 1 else 0
    ensures forall w :: w in more ==>
              && w.task in s.running && w.task !in Step(s, e).running && w.task < |s.deadline|
              && w == Wake(w.task, s.deadline[w.task], s.Now()) && w.deadline <= w.at
  {
    if e == IsrStep && s.isr.Scan? {
      more := WakeUps(s.running, s.deadline, s.isr.now, s.Now(), |s.deadline|);
      PassWakes(s.running, s.deadline, s.isr.now, s.Now(), |s.deadline|, t);
      WakeUpsAreDue(s.running, s.deadline, s.isr.now, s.Now(), |s.deadline|);
    } else {
      more := [];
      assert s.wakes + more == s.wakes;
    }
  }

  function Bit(b: bool): nat { if b then 1 else 0 }

  /** How often in a run the timer of task t is started, and how often it is cancelled while it runs. */
  ghost function Started(s: State, es: seq<Event>, t: nat): nat
    decreases es
  {
    if es == [] || !Enabled(s, es[0]) then 0
    else Bit(es[0] == ArmRun(t)) + Started(Step(s, es[0]), es[1..], t)
  }

  ghost function Cancelled(s: State, es: seq<Event>, t: nat): nat
    decreases es
  {
    if es == [] || !Enabled(s, es[0]) then 0
    else Bit(es[0] == Cancel(t) && t in s.running) + Cancelled(Step(s, es[0]), es[1..], t)
  }

  lemma StepKeepsCount(s: State, e: Event, t: nat)
    requires Inv(s) && Enabled(s, e)
    ensures var u := Step(s, e);
            Woken(u.wakes, t) + Bit(t in u.running) + Bit(e == Cancel(t) && t in s.running)
            == Woken(s.wakes, t) + Bit(t in s.running) + Bit(e == ArmRun(t))
    ensures Woken(Step(s, e).wakes, t) >= Woken(s.wakes, t)
  {
    var more := StopsByCancelOrWake(s, e, t);
    WokenJoins(s.wakes, more, t);
  }

  /**
   * Over every run: each start of a timer ends in exactly one wake of its task, or in a cancel, or the timer still runs.
   */
  lemma {:induction false} EveryStartIsAccountedFor(s: State, es: seq<Event>, u: State, t: nat)
    requires Inv(s) && Run(s, es, u)
    ensures Woken(u.wakes, t) + Bit(t in u.running) + Cancelled(s, es, t)
         == Woken(s.wakes, t) + Bit(t in s.running) + Started(s, es, t)
    ensures Woken(u.wakes, t) >= Woken(s.wakes, t)
    decreases es
  {
    if es != [] {
      StepKeepsInv(s, es[0]);
      StepKeepsCount(s, es[0], t);
      EveryStartIsAccountedFor(Step(s, es[0]), es[1..], u, t);
    }
  }

  lemma {:induction false} NoneOfThem(s: State, es: seq<Event>, t: nat)
    ensures ArmRun(t) !in es ==> Started(s, es, t) == 0
    ensures Cancel(t) !in es ==> Cancelled(s, es, t) == 0
    decreases es
  {
    if es != [] && Enabled(s, es[0]) {
      NoneOfThem(Step(s, es[0]), es[1..], t);
      assert forall e :: e in es[1..] ==> e in es;
      assert es[0] in es;
    }
  }

  /** A running timer that is not cancelled still runs, or its task has been woken exactly once since. */
  lemma RunningOrWokenOnce(s: State, es: seq<Event>, u: State, t: nat)
    requires Inv(s) && Run(s, es, u) && t in s.running && Cancel(t) !in es && ArmRun(t) !in es
    ensures Woken(u.wakes, t) == Woken(s.wakes, t) + if t in u.running then 0 else 1
  {
    EveryStartIsAccountedFor(s, es, u, t);
    NoneOfThem(s, es, t);
  }

  /** After a cancel the task is not woken until its timer is started again. */
  lemma NoWakeAfterCancel(s: State, es: seq<Event>, u: State, t: nat)
    requires Inv(s) && Enabled(s, Cancel(t)) && Run(Step(s, Cancel(t)), es, u) && ArmRun(t) !in es
    ensures t !in u.running && Woken(u.wakes, t) == Woken(s.wakes, t)
  {
    StepKeepsInv(s, Cancel(t));
    EveryStartIsAccountedFor(Step(s, Cancel(t)), es, u, t);
    NoneOfThem(Step(s, Cancel(t)), es, t);
  }

  /** As long as timer t is not set anew, it keeps its deadline and all its wakes are for that. */
  lemma {:induction false} WakesAreForDeadline(s: State, es: seq<Event>, u: State, t: nat)
    requires Inv(s) && Run(s, es, u) && t < |s.deadline| && forall e :: e in es ==> !(e.ArmSet? && e.t == t)
    ensures |u.deadline| == |s.deadline| && u.deadline[t] == s.deadline[t] && s.wakes <= u.wakes
    ensures forall k :: |s.wakes| <= k < |u.wakes| && u.wakes[k].task == t ==> u.wakes[k].deadline == s.deadline[t]
    decreases es
  {
    if es != [] {
      var v := Step(s, es[0]);
      var more := StopsByCancelOrWake(s, es[0], t);
      StepKeepsInv(s, es[0]);
      assert es[0] in es && forall e :: e in es[1..] ==> e in es;
      WakesAreForDeadline(v, es[1..], u, t);
      forall k | |s.wakes| <= k < |u.wakes| && u.wakes[k].task == t ensures u.wakes[k].deadline == s.deadline[t] {
        if k < |v.wakes| {
          assert u.wakes[k] == v.wakes[k] == more[k - |s.wakes|];
          assert more[k - |s.wakes|] in more;
        }
      }
    }
  }

  /** A timer that is set to a stamp wakes its task, until it is set anew, for that stamp and not before it. */
  lemma SetTimerWakesForStamp(s: State, t: nat, stamp: nat, es: seq<Event>, u: State)
    requires Inv(s) && Enabled(s, ArmSet(t, stamp)) && Run(Step(s, ArmSet(t, stamp)), es, u)
    requires forall e :: e in es ==> !(e.ArmSet? && e.t == t)
    ensures s.wakes <= u.wakes && t < |u.deadline| && u.deadline[t] == stamp
    ensures forall k :: |s.wakes| <= k < |u.wakes| && u.wakes[k].task == t ==>
              u.wakes[k].deadline == stamp <= u.wakes[k].at
  {
    var v := Step(s, ArmSet(t, stamp));
    StepKeepsInv(s, ArmSet(t, stamp));
    WakesAreForDeadline(v, es, u, t);
    RunKeepsInv(v, es, u);
  }

  /** No timer expires early. */
  lemma NeverEarly(s: State, es: seq<Event>, t: State)
    requires Initial(s) && Run(s, es, t)
    ensures forall w :: w in t.wakes ==> w.deadline <= w.at
  {
    RunKeepsInv(s, es, t);
  }

  /**
   * Whenever no timer interrupt is pending or running, a running timer past its trigger test whose deadline is in the
   * current epoch (low word below the maximum) has the programmed event at or before it, and the event is yet to come:
   * such a timer is never overdue.
   */
  lemma EventCoversDeadlines(s: State, es: seq<Event>, t: State, k: nat)
    requires Initial(s) && Run(s, es, t) && t.isr == Out && !t.irqPending
    requires k < |t.deadline| && Served(t, k) && Lo(t.deadline[k]) < MAX_WORD
    ensures t.Now() < t.deadline[k]
    ensures Hi(t.deadline[k]) == t.epoch ==>
              t.event.Some? && t.lo < t.event.value <= Lo(t.deadline[k])
  {
    RunKeepsInv(s, es, t);
    var d := t.deadline[k];
    assert d == Hi(d) * WORD + Lo(d);
    assert t.clksrcHigh <= Hi(d);
  }
}
