/** Selection of the port to charge from (common/charge_manager.c). */
module ChargeManager {
  const CHARGE_PORT_NONE := -1
  const CHARGE_SUPPLIER_NONE := -1
  const CHARGE_CEIL_NONE := -1
  const OVERRIDE_OFF := -1
  const OVERRIDE_DONT_CHARGE := -2
  const CHARGE_SUPPLIER_COUNT := 8

  datatype Capability = CapUnknown | CapDualrole | CapDedicated

  datatype Charge = Charge(current: int, voltage: int) {
    function Power(): int { current * voltage }
  }

  const CHARGE_SUPPLIER_PD := 0
  const CHARGE_SUPPLIER_TYPEC := 1
  const CHARGE_SUPPLIER_BC12_DCP := 2
  const CHARGE_SUPPLIER_BC12_CDP := 3
  const CHARGE_SUPPLIER_BC12_SDP := 4
  const CHARGE_SUPPLIER_PROPRIETARY := 5
  const CHARGE_SUPPLIER_OTHER := 6
  const CHARGE_SUPPLIER_VBUS := 7

  /** Lower is better. */
  function SupplierPriority(supplier: int): int {
    if supplier == CHARGE_SUPPLIER_PD then 0
    else if supplier in {CHARGE_SUPPLIER_TYPEC, CHARGE_SUPPLIER_PROPRIETARY, CHARGE_SUPPLIER_BC12_DCP} then 1
    else if supplier == CHARGE_SUPPLIER_BC12_CDP then 2
    else if supplier in {CHARGE_SUPPLIER_BC12_SDP, CHARGE_SUPPLIER_OTHER} then 3
    else 4
  }

  /** What counts when two offers are compared, most important first; the last two are where the loops meet the offer. */
  datatype Rank = Rank(isOverride: bool, priority: int, power: int, isActive: bool, row: int, column: int)

  /** Better in lexicographic order; among equals the first the loops meet, but on the active port the last. */
  predicate Better(a: Rank, b: Rank) {
    if a.isOverride != b.isOverride then a.isOverride
    else if a.priority != b.priority then a.priority < b.priority
    else if a.power != b.power then a.power > b.power
    else if a.isActive != b.isActive then a.isActive
    else if a.isActive then Seen(b.row, b.column, a.row, a.column)
    else Seen(a.row, a.column, b.row, b.column)
  }

  /** Offer (k, l) comes before (i, j) in the order of the loops. */
  predicate Seen(k: int, l: int, i: int, j: int) { k < i || (k == i && l < j) }

  lemma BetterIsTotalOrder(a: Rank, b: Rank, c: Rank)
    ensures !Better(a, a)
    ensures Better(a, b) ==> !Better(b, a)
    ensures Better(a, b) || Better(b, a) || a == b
    ensures !Better(a, b) && !Better(b, c) ==> !Better(a, c)
  {
  }

  /** An offer is charge[supplier][port]; the override and the active port are as in the file's variables. */
  datatype Situation = Situation(charge: seq<seq<Charge>>, capability: seq<Capability>, override: int, active: int) {
    /** The table is complete. */
    ghost predicate Sized(ports: nat) {
      && |charge| == CHARGE_SUPPLIER_COUNT && |capability| == ports
      && forall i :: 0 <= i < |charge| ==> |charge[i]| == ports
    }

    predicate Offered(i: int, j: int) { 0 <= i < |charge| && 0 <= j < |charge[i]| && j < |capability| }

    /** Supplier i offers charge on port j that the port may be charged with. */
    predicate Candidate(i: int, j: int) {
      && Offered(i, j) && override != OVERRIDE_DONT_CHARGE
      && charge[i][j].current != 0 && charge[i][j].voltage != 0
      && (capability[j] == CapDedicated || j == override)
    }

    function RankOf(i: int, j: int): Rank
      requires Offered(i, j)
    {
      Rank(j == override, SupplierPriority(i), charge[i][j].Power(), j == active, i, j)
    }

    /** No candidate is better; no port only when there is no candidate. */
    ghost predicate IsBest(port: int, supplier: int) {
      if supplier == CHARGE_SUPPLIER_NONE then
        port == CHARGE_PORT_NONE && forall i, j :: !Candidate(i, j)
      else
        && Candidate(supplier, port)
        && forall i, j :: Candidate(i, j) ==> !Better(RankOf(i, j), RankOf(supplier, port))
    }

    /** The same among the offers before (i, j) in the order of the loops. */
    ghost predicate BestUntil(i: int, j: int, port: int, supplier: int) {
      if supplier == CHARGE_SUPPLIER_NONE then
        port == CHARGE_PORT_NONE && forall k, l :: Seen(k, l, i, j) ==> !Candidate(k, l)
      else
        && Candidate(supplier, port) && Seen(supplier, port, i, j)
        && forall k, l :: Seen(k, l, i, j) && Candidate(k, l) ==> !Better(RankOf(k, l), RankOf(supplier, port))
    }

    /** What is left when the offers on some ports are taken out. */
    function Without(ports: set<int>): Situation {
      this.(charge := seq(|charge|, i requires 0 <= i < |charge| =>
                        seq(|charge[i]|, j requires 0 <= j < |charge[i]| => Kept(charge[i][j], ports, j))))
    }
  }

  /** What is left of an offer on port when some ports are taken out. */
  function Kept(offer: Charge, out: set<int>, port: int): Charge {
    if port in out then offer.(current := 0) else offer
  }

  lemma {:induction false} NextRow(s: Situation, i: int, port: int, supplier: int)
    requires 0 <= i < |s.charge| && s.BestUntil(i, |s.charge[i]|, port, supplier)
    ensures s.BestUntil(i + 1, 0, port, supplier)
  {
    forall k, l | Seen(k, l, i + 1, 0) && s.Candidate(k, l) ensures Seen(k, l, i, |s.charge[i]|) {}
  }

  lemma {:induction false} Skip(s: Situation, i: int, j: int, port: int, supplier: int)
    requires s.BestUntil(i, j, port, supplier)
    requires s.Candidate(i, j) ==>
               supplier != CHARGE_SUPPLIER_NONE && !Better(s.RankOf(i, j), s.RankOf(supplier, port))
    ensures s.BestUntil(i, j + 1, port, supplier)
  {
    forall k, l | Seen(k, l, i, j + 1) ensures Seen(k, l, i, j) || (k == i && l == j) {}
  }

  lemma {:induction false} Take(s: Situation, i: int, j: int, port: int, supplier: int)
    requires s.BestUntil(i, j, port, supplier) && s.Candidate(i, j)
    requires supplier != CHARGE_SUPPLIER_NONE ==> !Better(s.RankOf(supplier, port), s.RankOf(i, j))
    ensures s.BestUntil(i, j + 1, j, i)
  {
    var rank := s.RankOf(i, j);
    forall k, l | Seen(k, l, i, j + 1) && s.Candidate(k, l) ensures !Better(s.RankOf(k, l), rank) {
      if k == i && l == j {
        BetterIsTotalOrder(rank, rank, rank);
      } else {
        assert Seen(k, l, i, j);
        BetterIsTotalOrder(s.RankOf(k, l), s.RankOf(supplier, port), rank);
      }
    }
  }

  /** The best offer is determined. */
  lemma BestIsUnique(s: Situation, port: int, supplier: int, port': int, supplier': int)
    requires s.IsBest(port, supplier) && s.IsBest(port', supplier')
    ensures port == port' && supplier == supplier'
  {
    if supplier != CHARGE_SUPPLIER_NONE && supplier' != CHARGE_SUPPLIER_NONE {
      BetterIsTotalOrder(s.RankOf(supplier, port), s.RankOf(supplier', port'), s.RankOf(supplier, port));
    }
  }

  /**
   * The rules of the selection, for an offer (i, j) against the chosen one: an offer on the override port forces that
   * port; when both or neither are on it, the chosen one has no worse supplier; with suppliers of the same priority, no
   * less power; and with the same power, an offer on the active port forces that port.
   */
  ghost predicate GivesWay(charge: seq<seq<Charge>>, override: int, active: int, i: int, j: int, port: int, supplier: int)
    requires 0 <= i < |charge| && 0 <= j < |charge[i]| && 0 <= supplier < |charge| && 0 <= port < |charge[supplier]|
  {
    var other, chosen := charge[i][j], charge[supplier][port];
    var power, chosenPower := other.current * other.voltage, chosen.current * chosen.voltage;
    && (j == override ==> port == override)
    && ((j == override <==> port == override) ==>
          && SupplierPriority(supplier) <= SupplierPriority(i)
          && (SupplierPriority(supplier) == SupplierPriority(i) ==>
                power <= chosenPower && (power == chosenPower && j == active ==> port == active)))
  }

  /**
   * The same in terms of the tables alone: what is chosen has current and voltage and a port that is dedicated or the
   * override; any other such offer gives way to it; and nothing is chosen only when there is none.
   */
  ghost predicate ByTheRules(charge: seq<seq<Charge>>, capability: seq<Capability>, override: int, active: int,
                             port: int, supplier: int)
  {
    && (if supplier == CHARGE_SUPPLIER_NONE then port == CHARGE_PORT_NONE
        else
          && 0 <= supplier < |charge| && 0 <= port < |charge[supplier]| && port < |capability|
          && override != OVERRIDE_DONT_CHARGE
          && charge[supplier][port].current != 0 && charge[supplier][port].voltage != 0
          && (capability[port] == CapDedicated || port == override))
    && forall i, j :: 0 <= i < |charge| && 0 <= j < |charge[i]| && j < |capability| && override != OVERRIDE_DONT_CHARGE
                      && charge[i][j].current != 0 && charge[i][j].voltage != 0
                      && (capability[j] == CapDedicated || j == override) ==>
         supplier != CHARGE_SUPPLIER_NONE && GivesWay(charge, override, active, i, j, port, supplier)
  }

  lemma NotBetterGivesWay(s: Situation, i: int, j: int, port: int, supplier: int)
    requires s.Candidate(i, j) && s.Candidate(supplier, port)
    requires !Better(s.RankOf(i, j), s.RankOf(supplier, port))
    ensures GivesWay(s.charge, s.override, s.active, i, j, port, supplier)
  {
  }

  lemma BestIsByTheRules(s: Situation, port: int, supplier: int)
    requires s.IsBest(port, supplier)
    ensures ByTheRules(s.charge, s.capability, s.override, s.active, port, supplier)
  {
    forall i, j | 0 <= i < |s.charge| && 0 <= j < |s.charge[i]| && j < |s.capability|
                  && s.override != OVERRIDE_DONT_CHARGE && s.charge[i][j].current != 0 && s.charge[i][j].voltage != 0
                  && (s.capability[j] == CapDedicated || j == s.override)
      ensures supplier != CHARGE_SUPPLIER_NONE && GivesWay(s.charge, s.override, s.active, i, j, port, supplier)
    {
      assert s.Candidate(i, j);
      NotBetterGivesWay(s, i, j, port, supplier);
    }
  }

  // ----- asking the board -----

  /** The board was asked to charge from a port. */
  datatype Answer = Answer(port: int, ok: bool)

  /** The ports that the board has answered no to. */
  ghost function Rejected(asked: seq<Answer>): set<int> {
    set k | 0 <= k < |asked| && !asked[k].ok :: asked[k].port
  }

  /** With these offers the board is asked about the port: it is the best, and not simply the charge in use. */
  ghost predicate FairQuestion(s: Situation, inUse: int, port: int) {
    exists supplier :: s.IsBest(port, supplier) && !(port == s.active && supplier == inUse)
  }

  /**
   * What the board was asked: each time about the best that the rejections so far had left, unless that was the
   * charge in use; no port is never rejected, and nothing more is asked after a yes.
   */
  ghost predicate FairlyAsked(s: Situation, inUse: int, asked: seq<Answer>) {
    forall k :: 0 <= k < |asked| ==>
      && FairQuestion(s.Without(Rejected(asked[..k])), inUse, asked[k].port)
      && (asked[k].port == CHARGE_PORT_NONE ==> asked[k].ok)
      && (asked[k].ok ==> k == |asked| - 1)
  }

  /**
   * The choice is the best that the ports answered no to have left; it is the port answered yes to, or else the charge
   * in use.
   */
  ghost predicate Chosen(s: Situation, inUse: int, asked: seq<Answer>, port: int, supplier: int) {
    && FairlyAsked(s, inUse, asked)
    && s.Without(Rejected(asked)).IsBest(port, supplier)
    && (if asked != [] && asked[|asked| - 1].ok then asked[|asked| - 1].port == port
        else port == s.active && supplier == inUse)
  }

  /** One more rejection. */
  lemma AskedAgain(s: Situation, inUse: int, asked: seq<Answer>, port: int, supplier: int, ok: bool)
    requires FairlyAsked(s, inUse, asked) && forall k :: 0 <= k < |asked| ==> !asked[k].ok
    requires s.Without(Rejected(asked)).IsBest(port, supplier) && !(port == s.active && supplier == inUse)
    requires port == CHARGE_PORT_NONE ==> ok
    ensures FairlyAsked(s, inUse, asked + [Answer(port, ok)])
    ensures Rejected(asked + [Answer(port, ok)]) == if ok then Rejected(asked) else Rejected(asked) + {port}
  {
    var all := asked + [Answer(port, ok)];
    forall k | 0 <= k < |asked| ensures all[..k] == asked[..k] && all[k] == asked[k] {}
    assert all[..|asked|] == asked;
    assert FairQuestion(s.Without(Rejected(asked)), inUse, port);
    forall p | p in Rejected(asked) ensures p in Rejected(all) {
      var k :| 0 <= k < |asked| && !asked[k].ok && asked[k].port == p;
      assert all[k] == asked[k];
    }
    assert !ok ==> all[|asked|].port in Rejected(all);
  }

  /** No port is asked about twice. */
  lemma AskedOnce(s: Situation, inUse: int, asked: seq<Answer>, j: nat, k: nat)
    requires FairlyAsked(s, inUse, asked) && j < k < |asked|
    ensures asked[j].port != asked[k].port
  {
    assert asked[..k][j] == asked[j];
    assert asked[j].port in Rejected(asked[..k]);
    var supplier :| s.Without(Rejected(asked[..k])).IsBest(asked[k].port, supplier);
  }

  /** The choice is not to charge only when the board has been asked about every port with a candidate and said no. */
  lemma NoneOnlyWhenAllRejected(s: Situation, inUse: int, asked: seq<Answer>, supplier: int, i: int, j: int)
    requires Chosen(s, inUse, asked, CHARGE_PORT_NONE, supplier) && s.Candidate(i, j)
    ensures Answer(j, false) in asked
  {
    var left := s.Without(Rejected(asked));
    assert !left.Candidate(i, j);
    assert j in Rejected(asked);
  }

  /** A port that the board has answered no to is not chosen. */
  lemma NotRejected(s: Situation, inUse: int, asked: seq<Answer>, port: int, supplier: int)
    requires Chosen(s, inUse, asked, port, supplier)
    ensures port !in Rejected(asked)
  {
  }

  /** A board that says yes to everything is asked at most once, and the choice is the best of all. */
  lemma ObligingBoard(s: Situation, inUse: int, asked: seq<Answer>, port: int, supplier: int)
    requires Chosen(s, inUse, asked, port, supplier) && forall k :: 0 <= k < |asked| ==> asked[k].ok
    ensures |asked| <= 1 && s.IsBest(port, supplier)
  {
    assert asked != [] ==> asked[0].ok;
    assert Rejected(asked) == {};
    assert s.Without({}).charge == s.charge by {
      assert forall i :: 0 <= i < |s.charge| ==> s.Without({}).charge[i] == s.charge[i];
    }
  }

  /** How many of the first n ports have not been rejected. */
  ghost function Left(n: nat, rejected: set<int>): nat {
    if n == 0 then 0 else Left(n - 1, rejected) + if n - 1 in rejected then 0 else 1
  }

  lemma {:induction false} OneLeftOut(n: nat, rejected: set<int>, port: int)
    ensures Left(n, rejected + {port}) == Left(n, rejected) - if 0 <= port < n && port !in rejected then 1 else 0
  {
    if n > 0 { OneLeftOut(n - 1, rejected, port); }
  }

  /** What the offer allows, and the port's ceiling on its current. */
  predicate Limits(charge: seq<seq<Charge>>, ceil: seq<int>, port: int, supplier: int, current: int, uncapped: int,
                   voltage: int)
  {
    if supplier == CHARGE_SUPPLIER_NONE then current == uncapped == voltage == 0
    else
      && 0 <= supplier < |charge| && 0 <= port < |charge[supplier]| && port < |ceil|
      && var offer := charge[supplier][port];
      && uncapped == offer.current && voltage == offer.voltage
      && current == if ceil[port] == CHARGE_CEIL_NONE || offer.current < ceil[port] then offer.current else ceil[port]
  }

  class Manager {
    const portCount: nat
    const availableCharge: array2<Charge>
    const chargeCeil: array<int>
    const dualroleCapability: array<Capability>
    var chargePort: int
    var chargeCurrent: int
    var chargeCurrentUncapped: int
    var chargeVoltage: int
    var chargeSupplier: int
    var overridePort: int
    /** The port that the board was last told to charge from and accepted, and all it has been asked. */
    var boardPort: int
    ghost var log: seq<Answer>

    /** The board charges from the port this module has recorded. */
    ghost predicate Valid()
      reads this
    {
      Shaped() && boardPort == chargePort
    }

    ghost predicate Sized() {
      && availableCharge.Length0 == CHARGE_SUPPLIER_COUNT && availableCharge.Length1 == portCount
      && chargeCeil.Length == portCount && dualroleCapability.Length == portCount
    }

    ghost predicate Shaped()
      reads this`overridePort, this`chargePort
    {
      Sized() && OVERRIDE_DONT_CHARGE <= overridePort < portCount && CHARGE_PORT_NONE <= chargePort < portCount
    }

    ghost function Table(): (t: seq<seq<Charge>>)
      requires Sized()
      reads availableCharge
      ensures |t| == CHARGE_SUPPLIER_COUNT && forall i :: 0 <= i < |t| ==> |t[i]| == portCount
      ensures forall i, j :: 0 <= i < |t| && 0 <= j < portCount ==> t[i][j] == availableCharge[i, j]
    {
      seq(CHARGE_SUPPLIER_COUNT, i requires 0 <= i < CHARGE_SUPPLIER_COUNT reads availableCharge =>
            seq(portCount, j requires 0 <= j < portCount reads availableCharge => availableCharge[i, j]))
    }

    ghost function Now(): (s: Situation)
      requires Shaped()
      reads this`overridePort, this`chargePort, availableCharge, dualroleCapability
    {
      Situation(Table(), dualroleCapability[..], overridePort, chargePort)
    }

    method GetBestChargePort() returns (newPort: int, newSupplier: int)
      requires Shaped()
      ensures Now().IsBest(newPort, newSupplier)
      ensures ByTheRules(Table(), dualroleCapability[..], overridePort, chargePort, newPort, newSupplier)
    {
      var supplier, port := CHARGE_SUPPLIER_NONE, CHARGE_PORT_NONE;
      var bestPortPower := -1;
      if overridePort != OVERRIDE_DONT_CHARGE {
        var i := 0;
        while i < CHARGE_SUPPLIER_COUNT
          invariant 0 <= i <= CHARGE_SUPPLIER_COUNT && Now().BestUntil(i, 0, port, supplier)
          invariant supplier != CHARGE_SUPPLIER_NONE ==> bestPortPower == availableCharge[supplier, port].Power()
        {
          var j := 0;
          while j < portCount
            invariant 0 <= j <= portCount && Now().BestUntil(i, j, port, supplier)
            invariant supplier != CHARGE_SUPPLIER_NONE ==> bestPortPower == availableCharge[supplier, port].Power()
          {
            port, supplier, bestPortPower := Compare(i, j, port, supplier, bestPortPower);
            j := j + 1;
          }
          NextRow(Now(), i, port, supplier);
          i := i + 1;
        }
      }
      newPort, newSupplier := port, supplier;
      BestIsByTheRules(Now(), newPort, newSupplier);
    }

    /** The body of the nested loops: whether (i, j) replaces the best so far. */
    method Compare(i: int, j: int, port: int, supplier: int, bestPortPower: int)
      returns (newPort: int, newSupplier: int, newPower: int)
      requires Shaped() && overridePort != OVERRIDE_DONT_CHARGE
      requires 0 <= i < CHARGE_SUPPLIER_COUNT && 0 <= j < portCount && Now().BestUntil(i, j, port, supplier)
      requires supplier != CHARGE_SUPPLIER_NONE ==> bestPortPower == availableCharge[supplier, port].Power()
      ensures Now().BestUntil(i, j + 1, newPort, newSupplier)
      ensures newSupplier != CHARGE_SUPPLIER_NONE ==> newPower == availableCharge[newSupplier, newPort].Power()
    {
      newPort, newSupplier, newPower := port, supplier, bestPortPower;
      ghost var s := Now();
      var offer := availableCharge[i, j];
      if offer.current == 0 || offer.voltage == 0 { Skip(s, i, j, port, supplier); return; }
      if overridePort != OVERRIDE_OFF && overridePort == port && overridePort != j {
        Skip(s, i, j, port, supplier);
        return;
      }
      if dualroleCapability[j] != CapDedicated && overridePort != j { Skip(s, i, j, port, supplier); return; }
      var candidatePortPower := offer.Power();
      if supplier == CHARGE_SUPPLIER_NONE
        || SupplierPriority(i) < SupplierPriority(supplier)
        || (j == overridePort && port != overridePort)
        || (SupplierPriority(i) == SupplierPriority(supplier)
            && (candidatePortPower > bestPortPower || (candidatePortPower == bestPortPower && chargePort == j)))
      {
        Take(s, i, j, port, supplier);
        newSupplier, newPort, newPower := i, j, candidatePortPower;
      } else {
        Skip(s, i, j, port, supplier);
      }
    }

    // ---------------------------------------------------------------- refresh

    /** The board accepts or rejects a port as it likes, but accepts to charge from none. */
    method BoardSetActiveChargePort(port: int) returns (ok: bool)
      modifies this`boardPort, this`log
      ensures port == CHARGE_PORT_NONE ==> ok
      ensures log == old(log) + [Answer(port, ok)]
      ensures boardPort == if ok then port else old(boardPort)
    {
      ok :| port == CHARGE_PORT_NONE ==> ok;
      if ok { boardPort := port; }
      log := log + [Answer(port, ok)];
    }

    /** Zero the offers on a port. */
    method ZeroPort(port: int)
      requires Shaped() && 0 <= port < portCount
      modifies availableCharge
      ensures forall i, j :: 0 <= i < CHARGE_SUPPLIER_COUNT && 0 <= j < portCount ==>
                availableCharge[i, j] == Kept(old(availableCharge[i, j]), {port}, j)
    {
      var i := 0;
      while i < CHARGE_SUPPLIER_COUNT
        invariant 0 <= i <= CHARGE_SUPPLIER_COUNT
        invariant forall k, j :: 0 <= k < CHARGE_SUPPLIER_COUNT && 0 <= j < portCount ==>
                    availableCharge[k, j] == if k < i then Kept(old(availableCharge[k, j]), {port}, j)
                                             else old(availableCharge[k, j])
      {
        availableCharge[i, port] := availableCharge[i, port].(current := 0);
        i := i + 1;
      }
    }

    /** What the array holds once some ports have been zeroed. */
    lemma ZeroedIsWithout(s: Situation, out: set<int>)
      requires Shaped() && s.Sized(portCount)
      requires s.capability == dualroleCapability[..] && s.override == overridePort && s.active == chargePort
      requires forall i, j :: 0 <= i < CHARGE_SUPPLIER_COUNT && 0 <= j < portCount ==>
                 availableCharge[i, j] == Kept(s.charge[i][j], out, j)
      ensures Now() == s.Without(out)
    {
      assert forall i :: 0 <= i < CHARGE_SUPPLIER_COUNT ==> Now().charge[i] == s.Without(out).charge[i];
    }

    /** What the board has rejected so far has been taken out of the offers. */
    ghost predicate Hunting(s: Situation, asked: seq<Answer>)
      reads this, availableCharge, dualroleCapability
    {
      && Valid() && Now() == s.Without(Rejected(asked)) && FairlyAsked(s, chargeSupplier, asked)
      && s.Sized(portCount) && s.capability == dualroleCapability[..]
    }

    /** Ask the board, and take the port out when it rejects it. */
    method Ask(port: int, supplier: int, ghost s: Situation, ghost asked: seq<Answer>) returns (ok: bool)
      requires Hunting(s, asked) && forall k :: 0 <= k < |asked| ==> !asked[k].ok
      requires Now().IsBest(port, supplier) && !(port == chargePort && supplier == chargeSupplier)
      modifies this`boardPort, this`log, availableCharge
      ensures log == old(log) + [Answer(port, ok)] && FairlyAsked(s, chargeSupplier, asked + [Answer(port, ok)])
      ensures Now() == s.Without(Rejected(asked + [Answer(port, ok)]))
      ensures ok ==> boardPort == port && Now() == old(Now())
      ensures !ok ==> Hunting(s, asked + [Answer(port, ok)])
                      && Left(portCount, Rejected(asked + [Answer(port, ok)])) < Left(portCount, Rejected(asked))
    {
      ok := BoardSetActiveChargePort(port);
      AskedAgain(s, chargeSupplier, asked, port, supplier, ok);
      if !ok {
        OneLeftOut(portCount, Rejected(asked), port);
        ZeroPort(port);
        ZeroedIsWithout(s, Rejected(asked + [Answer(port, ok)]));
      }
    }

    /** Hunt for an acceptable charge port: the best that is left when the ports the board rejects are taken out. */
    method Hunt() returns (newPort: int, newSupplier: int, ghost asked: seq<Answer>)
      requires Valid()
      modifies this`boardPort, this`log, availableCharge
      ensures boardPort == newPort && CHARGE_PORT_NONE <= newPort < portCount
      ensures log == old(log) + asked && Chosen(old(Now()), chargeSupplier, asked, newPort, newSupplier)
      ensures Table() == old(Now()).Without(Rejected(asked)).charge && newPort !in Rejected(asked)
      ensures ByTheRules(Table(), dualroleCapability[..], overridePort, chargePort, newPort, newSupplier)
    {
      ghost var s := Now();
      asked := [];
      assert Rejected(asked) == {};
      ZeroedIsWithout(s, {});
      while true
        invariant Hunting(s, asked) && log == old(log) + asked && forall k :: 0 <= k < |asked| ==> !asked[k].ok
        decreases Left(portCount, Rejected(asked))
      {
        newPort, newSupplier := GetBestChargePort();
        if newPort == chargePort && newSupplier == chargeSupplier { break; }
        var accepted := Ask(newPort, newSupplier, s, asked);
        asked := asked + [Answer(newPort, accepted)];
        if accepted { break; }
      }
      NotRejected(s, chargeSupplier, asked, newPort, newSupplier);
    }

    method Limit(port: int, supplier: int) returns (current: int, uncapped: int, voltage: int)
      requires Sized()
      requires supplier != CHARGE_SUPPLIER_NONE ==> 0 <= supplier < CHARGE_SUPPLIER_COUNT && 0 <= port < portCount
      ensures Limits(Table(), chargeCeil[..], port, supplier, current, uncapped, voltage)
    {
      current, uncapped, voltage := 0, 0, 0;
      if supplier != CHARGE_SUPPLIER_NONE {
        uncapped := availableCharge[supplier, port].current;
        if chargeCeil[port] != CHARGE_CEIL_NONE {
          current := if chargeCeil[port] < uncapped then chargeCeil[port] else uncapped;
        } else {
          current := uncapped;
        }
        voltage := availableCharge[supplier, port].voltage;
      }
    }

    /** Choose the port to charge from, and how much. */
    method Refresh() returns (ghost asked: seq<Answer>)
      requires Valid()
      modifies this, availableCharge
      ensures Valid()
      ensures log == old(log) + asked && Chosen(old(Now()), old(chargeSupplier), asked, chargePort, chargeSupplier)
      ensures Table() == old(Now()).Without(Rejected(asked)).charge && chargePort !in Rejected(asked)
      ensures ByTheRules(Table(), dualroleCapability[..], old(overridePort), old(chargePort), chargePort, chargeSupplier)
      ensures overridePort == if old(overridePort) >= 0 && old(overridePort) != chargePort then OVERRIDE_OFF
                              else old(overridePort)
      ensures overridePort < 0 || overridePort == chargePort
      ensures Limits(Table(), chargeCeil[..], chargePort, chargeSupplier, chargeCurrent, chargeCurrentUncapped,
                     chargeVoltage)
    {
      var newPort, newSupplier;
      newPort, newSupplier, asked := Hunt();
      var current, uncapped, voltage := Limit(newPort, newSupplier);
      Adopt(newPort, newSupplier, current, uncapped, voltage);
    }

    /** Clear an override that was not chosen, and record the choice. */
    method Adopt(port: int, supplier: int, current: int, uncapped: int, voltage: int)
      modifies this`overridePort, this`chargeCurrent, this`chargeCurrentUncapped, this`chargeVoltage,
               this`chargeSupplier, this`chargePort
      ensures overridePort == if old(overridePort) >= 0 && old(overridePort) != port then OVERRIDE_OFF
                              else old(overridePort)
      ensures chargePort == port && chargeSupplier == supplier
      ensures chargeCurrent == current && chargeCurrentUncapped == uncapped && chargeVoltage == voltage
    {
      if overridePort >= 0 && overridePort != port {
        overridePort := OVERRIDE_OFF;
      }
      chargeCurrent, chargeCurrentUncapped, chargeVoltage := current, uncapped, voltage;
      chargeSupplier, chargePort := supplier, port;
    }
  }
}
