/**
 * Arbitration of a shared I2C bus between the EC and the AP with one claim wire each
 * (common/i2c_arbitration.c), as interleaved timed steps. Times are in microseconds.
 * The AP runs the mirror image of the EC's procedure. Wires are active low.
 */
module I2cArbitration {
  import opened Wrappers

  const BUS_SLEW_DELAY_US := 10
  const BUS_WAIT_RETRY_US := 3000
  const BUS_WAIT_FREE_US := 100 * 1000

  /** A wire and when it last changed; a change is certain to be seen after the slew delay. */
  datatype Wire = Wire(high: bool, since: nat) {
    function Drive(level: bool, now: nat): Wire { if level == high then this else Wire(level, now) }

    predicate MayRead(now: nat, level: bool) { level == high || now < since + BUS_SLEW_DELAY_US }
  }

  /** Where one side is in claiming or releasing. */
  datatype Pc =
    | Idle
    | Slewing(start: nat, asserted: nat)
    | Polling(start: nat, startRetry: nat)
    | BackingOff(start: nat, since: nat)
    | GivingUp(since: nat)
    | Owning
    | Releasing(since: nat)

  /** The steps of claim and release, up to the next point where the other side may act. */
  datatype Action = Claim | SlewDone | Poll(high: bool) | RoundOver | NextRound | Timeout | Release | Done

  /** time_since32. */
  function Since32(now: nat, start: nat): nat { (now - start) % 0x1_0000_0000 }

  /** One step of one side, or None if it is not at that point. */
  function SideStep(pc: Pc, wire: Wire, now: nat, a: Action): Option<(Pc, Wire)> {
    match (a, pc)
    case (Claim, Idle) => Some((Slewing(now, now), wire.Drive(false, now)))
    case (SlewDone, Slewing(start, asserted)) =>
      if now >= asserted + BUS_SLEW_DELAY_US then Some((Polling(start, now), wire)) else None
    case (Poll(high), Polling(start, startRetry)) =>
      if Since32(now, startRetry) < BUS_WAIT_RETRY_US then Some((if high then Owning else pc, wire)) else None
    case (RoundOver, Polling(start, startRetry)) =>
      if Since32(now, startRetry) >= BUS_WAIT_RETRY_US then Some((BackingOff(start, now), wire.Drive(true, now))) else None
    case (NextRound, BackingOff(start, since)) =>
      if now >= since + BUS_WAIT_RETRY_US && Since32(now, start) < BUS_WAIT_FREE_US
      then Some((Slewing(start, now), wire.Drive(false, now))) else None
    case (Timeout, BackingOff(start, since)) =>
      if now >= since + BUS_WAIT_RETRY_US && Since32(now, start) >= BUS_WAIT_FREE_US
      then Some((GivingUp(now), wire.Drive(true, now))) else None
    case (Release, Owning) => Some((Releasing(now), wire.Drive(true, now)))
    case (Done, GivingUp(since)) => if now >= since + BUS_SLEW_DELAY_US then Some((Idle, wire)) else None
    case (Done, Releasing(since)) => if now >= since + BUS_SLEW_DELAY_US then Some((Idle, wire)) else None
    case _ => None
  }

  /** claimed is i2c_claimed_by_ec. While the AP is off its wire and the EC's are not driven. */
  datatype State = State(now: nat, apOn: bool, ec: Pc, ecWire: Wire, claimed: bool, ap: Pc, apWire: Wire)

  datatype Event = Tick(us: nat) | Ec(a: Action) | Ap(a: Action) | ShutdownHook | PreInitHook

  function Start(): State { State(0, false, Idle, Wire(true, 0), false, Idle, Wire(true, 0)) }

  /** The state after an event, or None if the event cannot happen now. */
  function Step(s: State, e: Event): Option<State> {
    match e
    case Tick(us) => Some(s.(now := s.now + us))
    case Ec(a) =>
      if a == Claim && !s.apOn && s.ec == Idle then Some(s.(ec := Owning, claimed := true))
      else if a.Poll? && s.apOn && !s.apWire.MayRead(s.now, a.high) then None
      else (
        match SideStep(s.ec, s.ecWire, s.now, a)
        case None => None
        case Some((pc, wire)) =>
          Some(s.(ec := pc, ecWire := wire, claimed := if pc == Owning then true else if a == Done then false else s.claimed))
      )
    case Ap(a) =>
      if !s.apOn || (a.Poll? && !s.ecWire.MayRead(s.now, a.high)) then None
      else (
        match SideStep(s.ap, s.apWire, s.now, a)
        case None => None
        case Some((pc, wire)) => Some(s.(ap := pc, apWire := wire))
      )
    case ShutdownHook => if s.apOn then Some(s.(apOn := false, ap := Idle, apWire := Wire(true, s.now))) else None
    case PreInitHook =>
      if s.apOn then None
      else Some(s.(apOn := true, ecWire := Wire(!s.claimed, s.now), ap := Idle, apWire := Wire(true, s.now)))
  }

  predicate BothOwn(s: State) { s.apOn && s.ec == Owning && s.ap == Owning }

  /** The EC has asserted its wire and not yet recorded that it owns the bus. */
  predicate MidClaim(s: State) { s.ec.Slewing? || s.ec.Polling? }

  /** A run whose PRE_INIT hooks never fall into the middle of an EC claim. */
  ghost predicate Run(s: State, es: seq<Event>, t: State)
    decreases es
  {
    if es == [] then s == t
    else
      && (es[0] == PreInitHook ==> !MidClaim(s))
      && Step(s, es[0]).Some?
      && Run(Step(s, es[0]).value, es[1..], t)
  }

  predicate Claiming(pc: Pc) { pc.Slewing? || pc.Polling? || pc.Owning? }

  /** A claiming side holds its wire low, and by the time it polls long enough to be seen. */
  predicate HoldsWire(pc: Pc, wire: Wire, now: nat) {
    && wire.since <= now
    && (Claiming(pc) ==> !wire.high)
    && (pc.Slewing? ==> wire.since <= pc.asserted <= now)
    && (pc.Polling? ==> wire.since + BUS_SLEW_DELAY_US <= now)
  }

  /** An owner asserted no later than a rival whose wire is low, and that rival does not own too. */
  predicate OwnerWasFirst(owner: Pc, ownerWire: Wire, rival: Pc, rivalWire: Wire) {
    owner == Owning && !rivalWire.high ==> rival != Owning && ownerWire.since <= rivalWire.since
  }

  predicate Inv(s: State) {
    && s.claimed == (s.ec.Owning? || s.ec.Releasing?)
    && (s.ec.Slewing? ==> s.ec.asserted <= s.now)
    && (!s.apOn ==> s.ap == Idle)
    && (s.apOn ==>
          && HoldsWire(s.ec, s.ecWire, s.now)
          && HoldsWire(s.ap, s.apWire, s.now)
          && OwnerWasFirst(s.ec, s.ecWire, s.ap, s.apWire)
          && OwnerWasFirst(s.ap, s.apWire, s.ec, s.ecWire))
  }

  /** A step of one side that keeps to the protocol, seen against a rival that stays as it is. */
  lemma SideKeepsOrder(pc: Pc, wire: Wire, rival: Pc, rivalWire: Wire, now: nat, a: Action)
    requires HoldsWire(pc, wire, now) && HoldsWire(rival, rivalWire, now)
    requires OwnerWasFirst(pc, wire, rival, rivalWire) && OwnerWasFirst(rival, rivalWire, pc, wire)
    requires a.Poll? ==> rivalWire.MayRead(now, a.high)
    requires SideStep(pc, wire, now, a).Some?
    ensures var (pc', wire') := SideStep(pc, wire, now, a).value;
            && HoldsWire(pc', wire', now)
            && OwnerWasFirst(pc', wire', rival, rivalWire) && OwnerWasFirst(rival, rivalWire, pc', wire')
  {
    match a
    case Claim =>
    case SlewDone =>
    case Poll(high) =>
    case RoundOver =>
    case NextRound =>
    case Timeout =>
    case Release =>
    case Done =>
  }

  lemma StepKeepsInv(s: State, e: Event)
    requires Inv(s) && Step(s, e).Some?
    requires e == PreInitHook ==> !MidClaim(s)
    ensures Inv(Step(s, e).value)
  {
    match e
    case Tick(us) =>
    case Ec(a) =>
      if s.apOn { SideKeepsOrder(s.ec, s.ecWire, s.ap, s.apWire, s.now, a); }
    case Ap(a) => SideKeepsOrder(s.ap, s.apWire, s.ec, s.ecWire, s.now, a);
    case ShutdownHook =>
    case PreInitHook =>
  }

  /** Safety over every run: EC and AP never own the bus at the same time. */
  lemma {:induction false} MutualExclusion(s: State, es: seq<Event>, t: State)
    requires Inv(s) && Run(s, es, t)
    ensures Inv(t) && !BothOwn(t)
    decreases es
  {
    if es != [] {
      StepKeepsInv(s, es[0]);
      MutualExclusion(Step(s, es[0]).value, es[1..], t);
    }
  }

  lemma NeverBothFromStart(es: seq<Event>, t: State)
    requires Run(Start(), es, t)
    ensures !BothOwn(t)
  {
    MutualExclusion(Start(), es, t);
  }

  /**
   * What the guard excludes really goes wrong: a PRE_INIT hook in the middle of a claim drives the
   * EC's wire high again, the EC takes the bus with its wire released, and the AP takes it too.
   */
  lemma PreInitInMidClaim(s: State) returns (es: seq<Event>, t: State)
    requires Inv(s) && !s.apOn && MidClaim(s)
    ensures Run(Step(s, PreInitHook).value, es, t) && BothOwn(t)
  {
    var s0 := Step(s, PreInitHook).value;
    var s1, e1;
    if s.ec.Slewing? {
      var s0' := Step(s0, Tick(BUS_SLEW_DELAY_US)).value;
      s1 := Step(s0', Ec(SlewDone)).value;
      e1 := [Tick(BUS_SLEW_DELAY_US), Ec(SlewDone)];
      assert Run(s0', [Ec(SlewDone)], s1);
    } else {
      // The next poll is due at once, or else when the 32-bit difference has wrapped.
      var since := Since32(s.now, s.ec.startRetry);
      var wait := if since < BUS_WAIT_RETRY_US then 0 else 0x1_0000_0000 - since;
      s1 := Step(s0, Tick(wait)).value;
      e1 := [Tick(wait)];
      assert Since32(s1.now, s.ec.startRetry) == if wait == 0 then since else 0;
    }
    assert Run(s0, e1, s1);
    var e2;
    e2, t := BothTake(s1);
    RunConcat(s0, e1, s1, e2, t);
    es := e1 + e2;
  }

  /** With the EC's wire released and the AP idle, a poll of the EC and a claim of the AP both succeed. */
  lemma BothTake(s: State) returns (es: seq<Event>, t: State)
    requires s.apOn && s.ec.Polling? && s.ecWire.high && s.ap == Idle && s.apWire.high
    requires Since32(s.now, s.ec.startRetry) < BUS_WAIT_RETRY_US
    ensures Run(s, es, t) && BothOwn(t)
  {
    var s2 := Step(s, Ec(Poll(true))).value;
    var s3 := Step(s2, Ap(Claim)).value;
    var s4 := Step(s3, Tick(BUS_SLEW_DELAY_US)).value;
    var s5 := Step(s4, Ap(SlewDone)).value;
    t := Step(s5, Ap(Poll(true))).value;
    es := [Ec(Poll(true)), Ap(Claim), Tick(BUS_SLEW_DELAY_US), Ap(SlewDone), Ap(Poll(true))];
    assert Run(s5, [Ap(Poll(true))], t);
    assert Run(s4, [Ap(SlewDone), Ap(Poll(true))], t);
    assert Run(s3, [Tick(BUS_SLEW_DELAY_US), Ap(SlewDone), Ap(Poll(true))], t);
    assert Run(s2, [Ap(Claim), Tick(BUS_SLEW_DELAY_US), Ap(SlewDone), Ap(Poll(true))], t);
  }

  lemma {:induction false} RunConcat(s: State, es: seq<Event>, u: State, fs: seq<Event>, t: State)
    requires Run(s, es, u) && Run(u, fs, t)
    ensures Run(s, es + fs, t)
    decreases es
  {
    if es == [] {
      assert es + fs == fs;
    } else {
      assert (es + fs)[1..] == es[1..] + fs;
      RunConcat(Step(s, es[0]).value, es[1..], u, fs, t);
    }
  }

  /** No guarded run from s leads to both sides owning the bus. */
  ghost predicate SafeFrom(s: State) {
    forall es, t :: Run(s, es, t) ==> !BothOwn(t)
  }

  /** A PRE_INIT hook is harmless exactly when it does not fall into the middle of an EC claim. */
  lemma PreInitSafeExactlyOutsideClaims(s: State)
    requires Inv(s) && !s.apOn
    ensures SafeFrom(Step(s, PreInitHook).value) <==> !MidClaim(s)
  {
    var s0 := Step(s, PreInitHook).value;
    if MidClaim(s) {
      var es, t := PreInitInMidClaim(s);
      assert Run(s0, es, t) && BothOwn(t);
    } else {
      StepKeepsInv(s, PreInitHook);
      forall es, t | Run(s0, es, t) ensures !BothOwn(t) {
        MutualExclusion(s0, es, t);
      }
    }
  }

  /** Such a state is reached: the AP shuts down while the EC is claiming. */
  lemma MidClaimAtPreInitHappens() returns (es: seq<Event>, s: State)
    ensures Run(Start(), es, s) && Inv(s) && !s.apOn && MidClaim(s)
  {
    var a := Step(Start(), PreInitHook).value;
    var b := Step(a, Ec(Claim)).value;
    s := Step(b, ShutdownHook).value;
    es := [PreInitHook, Ec(Claim), ShutdownHook];
    assert Run(b, [ShutdownHook], s);
    assert Run(a, [Ec(Claim), ShutdownHook], s);
    MutualExclusion(Start(), es, s);
  }

  // ----- giving up -----

  /** A run without any guard. */
  ghost predicate AnyRun(s: State, es: seq<Event>, t: State)
    decreases es
  {
    if es == [] then s == t else Step(s, es[0]).Some? && AnyRun(Step(s, es[0]).value, es[1..], t)
  }

  /** The EC is busy with the claim it began at a time, or has got the bus, or has given up late enough. */
  predicate ClaimingSince(s: State, began: nat) {
    && began <= s.now
    && match s.ec
       case Slewing(start, asserted) => start == began
       case Polling(start, startRetry) => start == began
       case BackingOff(start, since) => start == began
       case GivingUp(since) => began + BUS_WAIT_FREE_US <= since <= s.now
       case Owning => true
       case Releasing(since) => true
       case Idle => false
  }

  lemma Since32IsNotMore(now: nat, start: nat)
    requires start <= now
    ensures Since32(now, start) <= now - start
  {
  }

  lemma StepKeepsClaiming(s: State, e: Event, began: nat)
    requires ClaimingSince(s, began) && Step(s, e).Some? && e != Ec(Done)
    ensures ClaimingSince(Step(s, e).value, began)
  {
    match e
    case Tick(us) =>
    case Ec(a) => Since32IsNotMore(s.now, began);
    case Ap(a) =>
    case ShutdownHook =>
    case PreInitHook =>
  }

  lemma {:induction false} RunKeepsClaiming(s: State, es: seq<Event>, t: State, began: nat)
    requires ClaimingSince(s, began) && AnyRun(s, es, t) && Ec(Done) !in es
    ensures ClaimingSince(t, began)
    decreases es
  {
    if es != [] {
      assert es[0] in es && forall e :: e in es[1..] ==> e in es;
      StepKeepsClaiming(s, es[0], began);
      RunKeepsClaiming(Step(s, es[0]).value, es[1..], t, began);
    }
  }

  /** A claim that the EC gives up has lasted 100 ms at least, in every run. */
  lemma GivesUpOnlyAfter100ms(s: State, es: seq<Event>, t: State)
    requires s.ec == Idle && Step(s, Ec(Claim)).Some? && AnyRun(Step(s, Ec(Claim)).value, es, t) && Ec(Done) !in es
    requires t.ec.GivingUp?
    ensures s.now + 100000 <= t.ec.since <= t.now
  {
    RunKeepsClaiming(Step(s, Ec(Claim)).value, es, t, s.now);
  }

  /** At the end of a round the EC tries again before 100 ms have gone by on the 32-bit clock, and gives up afterwards. */
  lemma TriesAgainUntil100ms(s: State)
    requires s.ec.BackingOff? && s.now >= s.ec.since + 3000
    ensures Step(s, Ec(NextRound)).Some? <==> Since32(s.now, s.ec.start) < 100000
    ensures Step(s, Ec(Timeout)).Some? <==> Since32(s.now, s.ec.start) >= 100000
    ensures Step(s, Ec(NextRound)).Some? ==> !Step(s, Ec(NextRound)).value.ecWire.high
    ensures Step(s, Ec(Timeout)).Some? ==> Step(s, Ec(Timeout)).value.ecWire.high
  {
  }

  // ----- an idle EC that holds its wire -----

  /** The AP is on and the EC has asserted its wire without claiming the bus or owning it. */
  predicate Stranded(s: State) { s.apOn && s.ec == Idle && !s.ecWire.high }

  /** The last PRE_INIT hook fell into a release; the EC has not claimed since, and the AP has not shut down. */
  function HookInRelease(s: State, was: bool, es: seq<Event>): bool
    decreases es
  {
    if es == [] || Step(s, es[0]).None? then was
    else HookInRelease(Step(s, es[0]).value, HookInReleaseNow(s, was, es[0]), es[1..])
  }

  function HookInReleaseNow(s: State, was: bool, e: Event): bool {
    match e
    case PreInitHook => s.ec.Releasing?
    case ShutdownHook => false
    case Ec(a) => was && a != Claim
    case _ => was
  }

  /** The EC's wire is asserted without a claim only because of such a hook. */
  predicate WireInv(s: State, was: bool) {
    && s.claimed == (s.ec.Owning? || s.ec.Releasing?)
    && (if was then s.apOn && !s.ecWire.high && (s.ec.Releasing? || s.ec.Idle?)
        else s.apOn ==> s.ecWire.high || Claiming(s.ec))
  }

  lemma StepKeepsWireInv(s: State, was: bool, e: Event)
    requires WireInv(s, was) && Step(s, e).Some?
    ensures WireInv(Step(s, e).value, HookInReleaseNow(s, was, e))
  {
  }

  lemma {:induction false} RunKeepsWireInv(s: State, was: bool, es: seq<Event>, t: State)
    requires WireInv(s, was) && AnyRun(s, es, t)
    ensures WireInv(t, HookInRelease(s, was, es))
    decreases es
  {
    if es != [] {
      StepKeepsWireInv(s, was, es[0]);
      RunKeepsWireInv(Step(s, es[0]).value, HookInReleaseNow(s, was, es[0]), es[1..], t);
    }
  }

  /** In every run, an idle EC holds its wire asserted exactly when the last PRE_INIT hook fell into a release. */
  lemma IdleHoldsWireExactly(es: seq<Event>, t: State)
    requires AnyRun(Start(), es, t)
    ensures Stranded(t) <==> t.ec == Idle && HookInRelease(Start(), false, es)
  {
    RunKeepsWireInv(Start(), false, es, t);
  }

  /** The EC's wire stays asserted since a time, and the AP has not seen it otherwise after the slew delay. */
  predicate HeldOut(s: State, since: nat) {
    && s.apOn && s.ecWire == Wire(false, since) && (s.ec.Releasing? || s.ec.Idle?) && since <= s.now
    && s.ap != Owning
    && (s.ap.Slewing? ==> since <= s.ap.asserted)
    && (s.ap.Polling? ==> since + BUS_SLEW_DELAY_US <= s.now)
  }

  lemma StepKeepsHeldOut(s: State, since: nat, e: Event)
    requires HeldOut(s, since) && Step(s, e).Some? && e != Ec(Claim) && e != ShutdownHook
    ensures HeldOut(Step(s, e).value, since)
  {
  }

  lemma {:induction false} RunKeepsHeldOut(s: State, since: nat, es: seq<Event>, t: State)
    requires HeldOut(s, since) && AnyRun(s, es, t) && Ec(Claim) !in es && ShutdownHook !in es
    ensures HeldOut(t, since)
    decreases es
  {
    if es != [] {
      StepKeepsHeldOut(s, since, es[0]);
      RunKeepsHeldOut(Step(s, es[0]).value, since, es[1..], t);
    }
  }

  /** After a PRE_INIT hook in a release, the AP never gets the bus until the EC claims it again or the AP shuts down. */
  lemma HookInReleaseShutsOut(s: State, es: seq<Event>, t: State)
    requires !s.apOn && s.claimed && s.ec.Releasing? && AnyRun(Step(s, PreInitHook).value, es, t)
    requires Ec(Claim) !in es && ShutdownHook !in es
    ensures t.ap != Owning && !t.ecWire.high
  {
    RunKeepsHeldOut(Step(s, PreInitHook).value, s.now, es, t);
  }

  /** It happens: the EC claims and releases the bus while the AP is off, which powers up meanwhile. */
  lemma StrandedHappens() returns (es: seq<Event>, t: State)
    ensures AnyRun(Start(), es, t) && Stranded(t)
  {
    var a := Step(Start(), Ec(Claim)).value;
    var b := Step(a, Ec(Release)).value;
    var c := Step(b, PreInitHook).value;
    var d := Step(c, Tick(BUS_SLEW_DELAY_US)).value;
    t := Step(d, Ec(Done)).value;
    es := [Ec(Claim), Ec(Release), PreInitHook, Tick(BUS_SLEW_DELAY_US), Ec(Done)];
    assert AnyRun(d, [Ec(Done)], t);
    assert AnyRun(c, [Tick(BUS_SLEW_DELAY_US), Ec(Done)], t);
    assert AnyRun(b, [PreInitHook, Tick(BUS_SLEW_DELAY_US), Ec(Done)], t);
    assert AnyRun(a, [Ec(Release), PreInitHook, Tick(BUS_SLEW_DELAY_US), Ec(Done)], t);
  }
}
