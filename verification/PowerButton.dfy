/** The power button signal to the chipset (common/power_button_x86.c). */
module PowerButton {

  const MSEC := 1000
  const SECOND := 1000000
  const PWRBTN_DELAY_T0 := 32 * MSEC
  const PWRBTN_DELAY_T1 := 4 * SECOND - PWRBTN_DELAY_T0
  const PWRBTN_INITIAL_US := 200 * MSEC

  datatype State = Idle | Pressed | T0 | T1 | Held | LidOpen | Released | EatRelease | InitOn | BootKbReset | WasOff

  /** What the code reads of the rest of the system. */
  datatype World = World(now: nat, chipsetOff: bool, lowBattery: bool, chargerInit: bool, resetPin: bool)

  /** The state machine: its state, its timeout (0 for none), the signal (active low) and the debounced button. The last
      field is when a press was last processed with the chipset on. */
  datatype Button = Button(state: State, tnext: nat, low: bool, down: bool, pressedAt: nat)

  /** The signal is not asserted when the chipset is off and the battery is too low. */
  function SetPwrbtn(b: Button, high: bool, w: World): Button {
    b.(low := !high && !(w.chipsetOff && w.lowBattery))
  }

  function Machine(b: Button, w: World): Button {
    if w.now < b.tnext then b else
      var c := b.(tnext := 0);
      match b.state
      case Pressed =>
        if w.chipsetOff then SetPwrbtn(c.(tnext := w.now + PWRBTN_INITIAL_US, state := WasOff), false, w)
        else SetPwrbtn(c.(tnext := w.now + PWRBTN_DELAY_T0, state := T0, pressedAt := w.now), false, w)
      case T0 => SetPwrbtn(c.(tnext := w.now + PWRBTN_DELAY_T1, state := T1), true, w)
      case T1 => if w.chipsetOff then c.(state := Held) else SetPwrbtn(c.(state := Held), false, w)
      case Released => SetPwrbtn(c.(state := Idle), true, w)
      case LidOpen => SetPwrbtn(c.(state := Idle), true, w)
      case InitOn =>
        if w.chargerInit then c
        else SetPwrbtn(c.(tnext := w.now + PWRBTN_INITIAL_US,
                          state := if !b.down then Released else if w.resetPin then BootKbReset else WasOff), false, w)
      case BootKbReset => SetPwrbtn(c.(state := if b.down then EatRelease else Idle), true, w)
      case WasOff => if b.down then c.(state := Held) else c.(state := Released, tnext := w.now)
      case _ => c
  }

  predicate IgnoresChanges(s: State) { s.BootKbReset? || s.InitOn? || s.LidOpen? || s.WasOff? }

  /** The debounced button changes. */
  function Changed(b: Button, w: World): Button {
    var c := b.(down := !b.down);
    if IgnoresChanges(b.state) then c
    else if c.down then c.(state := Pressed, tnext := w.now)
    else if b.state.EatRelease? then c.(state := Idle)
    else c.(state := Released, tnext := w.now)
  }

  function Pulse(b: Button, w: World): Button {
    SetPwrbtn(b, false, w).(state := LidOpen, tnext := w.now + PWRBTN_INITIAL_US)
  }

  function ForceRelease(b: Button, w: World): Button {
    SetPwrbtn(b, true, w).(state := if b.down then EatRelease else Idle)
  }

  function ForcePress(b: Button, w: World): Button { if b.down then b else SetPwrbtn(b, false, w) }

  /** Why the image starts. */
  datatype Start = Jumped | StayOff | PowerOn

  function Initial(start: Start, down: bool, w: World): Button {
    var b := Button(Idle, 0, false, down, 0);
    match start
    case Jumped => if down then SetPwrbtn(b, false, w) else b
    case StayOff => ForceRelease(b, w)
    case PowerOn => b.(state := InitOn)
  }

  datatype Event = Tick | Change | LidPulse | Release

  function Apply(b: Button, e: Event, w: World): Button {
    match e
    case Tick => Machine(b, w)
    case Change => Changed(b, w)
    case LidPulse => Pulse(b, w)
    case Release => ForceRelease(b, w)
  }

  // ---------------------------------------------------------------- the code

  class Driver {
    var pwrbtnState: State
    var tnextState: nat
    var pwrbtnL: bool
    var pressed: bool
    ghost var pressedAt: nat

    ghost function View(): Button
      reads this
    {
      Button(pwrbtnState, tnextState, !pwrbtnL, pressed, pressedAt)
    }

    constructor (down: bool)
      ensures View() == Button(Idle, 0, false, down, 0)
    {
      pwrbtnState, tnextState, pwrbtnL, pressed, pressedAt := Idle, 0, true, down, 0;
    }

    method SetPwrbtnToPch(high: bool, w: World)
      modifies this`pwrbtnL
      ensures View() == SetPwrbtn(old(View()), high, w)
      ensures high || (w.chipsetOff && w.lowBattery) ==> pwrbtnL
    {
      var level := high;
      if w.chipsetOff && !level && w.lowBattery { level := true; }
      pwrbtnL := level;
    }

    method PchPress(w: World)
      modifies this`pwrbtnL
      ensures View() == ForcePress(old(View()), w)
    {
      if !pressed { SetPwrbtnToPch(false, w); }
    }

    method PchRelease(w: World)
      modifies this
      ensures View() == ForceRelease(old(View()), w)
      ensures old(Inv(View())) && w.now > 0 ==> Inv(View()) && Justified(View())
    {
      SetPwrbtnToPch(true, w);
      if pressed { pwrbtnState := EatRelease; } else { pwrbtnState := Idle; }
    }

    method PchPulse(w: World)
      modifies this
      ensures View() == Pulse(old(View()), w)
      ensures old(Inv(View())) && w.now > 0 ==> Inv(View()) && Justified(View())
    {
      SetPwrbtnToPch(false, w);
      pwrbtnState := LidOpen;
      tnextState := w.now + PWRBTN_INITIAL_US;
    }

    method SetInitialState(start: Start, w: World)
      requires View() == Button(Idle, 0, false, pressed, 0)
      modifies this
      ensures View() == Initial(start, pressed, w) && Inv(View()) && Justified(View())
    {
      if start == Jumped {
        if pressed { SetPwrbtnToPch(false, w); }
      } else if start == StayOff {
        PchRelease(w);
      } else {
        pwrbtnState := InitOn;
      }
    }

    method StateMachine(w: World)
      modifies this
      ensures View() == Machine(old(View()), w)
      ensures old(Inv(View())) && w.now > 0 ==> Inv(View()) && Justified(View())
    {
      if Inv(View()) && w.now > 0 { StepKeepsInv(View(), Tick, w); }
      if w.now < tnextState { return; }
      tnextState := 0;
      match pwrbtnState {
        case Pressed =>
          if w.chipsetOff {
            tnextState := w.now + PWRBTN_INITIAL_US;
            pwrbtnState := WasOff;
          } else {
            tnextState := w.now + PWRBTN_DELAY_T0;
            pwrbtnState := T0;
            pressedAt := w.now;
          }
          SetPwrbtnToPch(false, w);
        case T0 =>
          tnextState := w.now + PWRBTN_DELAY_T1;
          pwrbtnState := T1;
          SetPwrbtnToPch(true, w);
        case T1 =>
          if !w.chipsetOff { SetPwrbtnToPch(false, w); }
          pwrbtnState := Held;
        case Released =>
          SetPwrbtnToPch(true, w);
          pwrbtnState := Idle;
        case LidOpen =>
          SetPwrbtnToPch(true, w);
          pwrbtnState := Idle;
        case InitOn =>
          if !w.chargerInit {
            SetPwrbtnToPch(false, w);
            tnextState := w.now + PWRBTN_INITIAL_US;
            if pressed {
              if w.resetPin { pwrbtnState := BootKbReset; } else { pwrbtnState := WasOff; }
            } else {
              pwrbtnState := Released;
            }
          }
        case BootKbReset =>
          SetPwrbtnToPch(true, w);
          if pressed { pwrbtnState := EatRelease; } else { pwrbtnState := Idle; }
        case WasOff =>
          if pressed {
            pwrbtnState := Held;
          } else {
            pwrbtnState := Released;
            tnextState := w.now;
          }
        case Idle =>
        case Held =>
        case EatRelease =>
      }
    }

    /** The debounced button has changed, and the hook runs. */
    method ButtonChanged(w: World)
      modifies this
      ensures View() == Changed(old(View()), w)
      ensures old(Inv(View())) && w.now > 0 ==> Inv(View()) && Justified(View())
    {
      pressed := !pressed;
      if pwrbtnState == BootKbReset || pwrbtnState == InitOn || pwrbtnState == LidOpen || pwrbtnState == WasOff {
        return;
      }
      if pressed {
        pwrbtnState, tnextState := Pressed, w.now;
      } else {
        if pwrbtnState == EatRelease {
          pwrbtnState := Idle;
          return;
        }
        pwrbtnState, tnextState := Released, w.now;
      }
    }
  }

  // ---------------------------------------------------------------- every run

  /** A signal that is asserted is the button's, or a pulse with a timeout. */
  predicate Justified(b: Button) { b.low ==> b.down || b.tnext > 0 }

  predicate Timed(s: State) {
    s.Pressed? || s.T0? || s.T1? || s.LidOpen? || s.Released? || s.BootKbReset? || s.WasOff?
  }

  ghost predicate Inv(b: Button) {
    && (Timed(b.state) ==> b.tnext > 0)
    && (b.state.Pressed? || b.state.T0? || b.state.T1? || b.state.Held? || b.state.EatRelease? ==> b.down)
    && (b.low ==> !b.state.T1? && !b.state.EatRelease? && !b.state.InitOn? && (b.state.Idle? ==> b.down))
    && (b.state.T0? ==> b.tnext == b.pressedAt + PWRBTN_DELAY_T0)
    && (b.state.T1? ==> b.tnext >= b.pressedAt + 4 * SECOND)
  }

  lemma InitialInv(start: Start, down: bool, w: World)
    ensures Inv(Initial(start, down, w))
  {
  }

  lemma StepKeepsInv(b: Button, e: Event, w: World)
    requires Inv(b) && w.now > 0
    ensures Inv(Apply(b, e, w))
  {
  }

  /** The system at each event, with time not running backwards. */
  ghost predicate Chronicle(events: seq<(Event, World)>, from: nat) {
    (forall k :: 0 <= k < |events| ==> from <= events[k].1.now)
    && forall k, l :: 0 <= k < l < |events| ==> events[k].1.now <= events[l].1.now
  }

  function Run(b: Button, events: seq<(Event, World)>): Button {
    if events == [] then b
    else
      var last := events[|events| - 1];
      Apply(Run(b, events[..|events| - 1]), last.0, last.1)
  }

  /** Safety: in every run without forced presses the signal is asserted only while the button is down or a timeout is
      armed. */
  lemma {:induction false} AlwaysJustified(start: Start, down: bool, w: World, events: seq<(Event, World)>)
    requires Chronicle(events, 1)
    ensures var b := Run(Initial(start, down, w), events); Inv(b) && Justified(b)
  {
    if events == [] {
      InitialInv(start, down, w);
    } else {
      var n := |events| - 1;
      AlwaysJustified(start, down, w, events[..n]);
      StepKeepsInv(Run(Initial(start, down, w), events[..n]), events[n].0, events[n].1);
    }
  }

  /** The timeout ends the pulse: with the button up, two runs of the machine once it is due release the signal. */
  lemma PulseEnds(b: Button, w: World, v: World)
    requires Inv(b) && b.low && !b.down && b.tnext <= w.now <= v.now
    ensures !Machine(Machine(b, w), v).low
  {
  }

  /** A forced press is the one way to assert the signal with neither: it does so exactly when the button is up, nothing
      is armed and the battery does not forbid it. */
  lemma ForcePressIsJustifiedExactly(b: Button, w: World)
    requires Inv(b)
    ensures Justified(ForcePress(b, w)) <==> b.down || b.tnext > 0 || (w.chipsetOff && w.lowBattery)
  {
  }

  /** While a press is held and nothing else happens: first the pulse, then silence until four seconds after the press
      was processed, and only then the signal again. */
  lemma {:induction false} HeldPress(b: Button, events: seq<(Event, World)>, p: nat)
    requires b.state == T0 && b.down && b.pressedAt == p && b.tnext == p + PWRBTN_DELAY_T0 && Chronicle(events, p)
    requires forall k :: 0 <= k < |events| ==> events[k].0 == Tick
    ensures var r := Run(b, events);
            && r.pressedAt == p
            && ((r.state == T0 && r.low == b.low && r.tnext == p + PWRBTN_DELAY_T0)
                || (r.state == T1 && !r.low && r.tnext >= p + 4 * SECOND)
                || (r.state == Held && events != [] && events[|events| - 1].1.now >= p + 4 * SECOND))
  {
    if events != [] {
      HeldPress(b, events[..|events| - 1], p);
    }
  }

  /** A press of the button is signalled in the next run of the machine, for 32 ms with the chipset on and for 200 ms with
      it off, unless the battery forbids it. */
  lemma PressIsSignalled(b: Button, w: World, v: World)
    requires !b.down && !IgnoresChanges(b.state) && w.now <= v.now
    ensures var r := Machine(Changed(b, w), v);
            && r.low == !(v.chipsetOff && v.lowBattery)
            && r.tnext == v.now + (if v.chipsetOff then 200000 else 32000)
            && r.state == (if v.chipsetOff then WasOff else T0)
  {
  }

  /** Its release ends the signal in the next run of the machine, unless the release is to be eaten. */
  lemma ReleaseIsSignalled(b: Button, w: World, v: World)
    requires b.down && !IgnoresChanges(b.state) && !b.state.EatRelease? && w.now <= v.now
    ensures !Machine(Changed(b, w), v).low
  {
  }

  /** A press that is held until the machine leaves the delay state is signalled again, with the chipset on. */
  lemma HeldPressIsSignalledAgain(b: Button, v: World)
    requires Inv(b) && b.state.T1? && b.tnext <= v.now
    ensures Machine(b, v).low == !v.chipsetOff && Machine(b, v).state == Held
  {
  }

  /** A lid pulse and a start with the power on last 200 ms; the pulse ends then whatever the button does. */
  lemma PulsesLast(b: Button, w: World, v: World)
    requires w.now > 0
    ensures var p := Pulse(b, w);
            && p.low == !(w.chipsetOff && w.lowBattery) && p.tnext == w.now + 200000
            && Machine(p, v).low == (p.low && v.now < w.now + 200000)
    ensures b.state.InitOn? && b.tnext <= w.now && !w.chargerInit ==>
              Machine(b, w).low == !(w.chipsetOff && w.lowBattery) && Machine(b, w).tnext == w.now + 200000
  {
  }

  /** The machine processes a press. */
  predicate ProcessesPress(b: Button, e: Event, w: World) { e == Tick && b.state.Pressed? && b.tnext <= w.now }

  /** The event asserts a released signal. */
  predicate Asserts(b: Button, e: Event, w: World) { !b.low && Apply(b, e, w).low }

  lemma AssertsOnlyFor(b: Button, e: Event, w: World)
    requires Inv(b) && Asserts(b, e, w)
    ensures e == LidPulse || ProcessesPress(b, e, w)
            || (e == Tick && (b.state.InitOn? || (b.state.T1? && w.now >= b.pressedAt + 4 * SECOND)))
    ensures !(w.chipsetOff && w.lowBattery)
  {
  }

  /** In every run, what asserts a released signal is a pulse for the lid, a press, the start of the image with the power
      on, or a press held for four seconds since it was processed; and never with the chipset off and the battery low. */
  lemma AssertedOnlyFor(start: Start, down: bool, w: World, events: seq<(Event, World)>, e: Event, v: World)
    requires Chronicle(events, 1) && Asserts(Run(Initial(start, down, w), events), e, v)
    ensures var b := Run(Initial(start, down, w), events);
            || e == LidPulse || ProcessesPress(b, e, v)
            || (e == Tick && (b.state.InitOn? || (b.state.T1? && v.now >= b.pressedAt + 4 * SECOND)))
    ensures !(v.chipsetOff && v.lowBattery)
  {
    AlwaysJustified(start, down, w, events);
    AssertsOnlyFor(Run(Initial(start, down, w), events), e, v);
  }

  lemma QuietStep(b: Button, e: Event, w: World)
    requires Inv(b) && !b.state.InitOn? && w.now > 0 && e != LidPulse && !ProcessesPress(b, e, w)
    ensures var r := Apply(b, e, w); Inv(r) && !r.state.InitOn? && r.pressedAt == b.pressedAt
    ensures Asserts(b, e, w) ==> w.now >= b.pressedAt + 4 * SECOND
  {
    StepKeepsInv(b, e, w);
    if Asserts(b, e, w) { AssertsOnlyFor(b, e, w); }
  }

  /** Along the events there is no pulse for the lid, and no press is processed. */
  ghost predicate NoNewPress(b: Button, events: seq<(Event, World)>) {
    events == []
    || (var n := |events| - 1;
        && NoNewPress(b, events[..n])
        && events[n].0 != LidPulse && !ProcessesPress(Run(b, events[..n]), events[n].0, events[n].1))
  }

  lemma {:induction false} StillThatPress(b: Button, events: seq<(Event, World)>)
    requires Inv(b) && !b.state.InitOn? && Chronicle(events, 1) && NoNewPress(b, events)
    ensures var r := Run(b, events); Inv(r) && !r.state.InitOn? && r.pressedAt == b.pressedAt
  {
    if events != [] {
      var n := |events| - 1;
      StillThatPress(b, events[..n]);
      QuietStep(Run(b, events[..n]), events[n].0, events[n].1);
    }
  }

  /** After a press was processed with the chipset on, whatever happens: until there is a pulse for the lid or another
      press is processed, a released signal is not asserted again before four seconds have gone by. */
  lemma QuietForFourSeconds(b: Button, press: World, events: seq<(Event, World)>, e: Event, w: World)
    requires Inv(b) && ProcessesPress(b, Tick, press) && !press.chipsetOff && press.now > 0
    requires Chronicle(events, press.now) && NoNewPress(Machine(b, press), events)
    requires w.now > 0 && e != LidPulse && !ProcessesPress(Run(Machine(b, press), events), e, w)
    requires Asserts(Run(Machine(b, press), events), e, w)
    ensures w.now >= press.now + 4 * SECOND
  {
    StepKeepsInv(b, Tick, press);
    StillThatPress(Machine(b, press), events);
    QuietStep(Run(Machine(b, press), events), e, w);
  }

  /** In every run the machine asserts the signal from its delay state only four seconds after the press was processed. */
  lemma NoEarlyReassertion(start: Start, down: bool, w: World, events: seq<(Event, World)>, v: World)
    requires Chronicle(events, 1)
    requires var b := Run(Initial(start, down, w), events); b.state == T1 && Machine(b, v).low
    ensures v.now >= Run(Initial(start, down, w), events).pressedAt + 4 * SECOND
  {
    AlwaysJustified(start, down, w, events);
  }
}
