/**
 * The state of port enumeration and what each event makes of it (Kernel/usb/xhci/xhci.cpp; section
 * 4.3 of the xHCI specification).
 */
module PortEnumeration {
  import opened Common

  const PORTS := 256
  const MAX_SLOTS := 8

  datatype ConfigPhase =
    | NotConnected | WaitingAddressed | ResettingPort | EnablingSlot
    | AddressingDevice | InitializingDevice | ConfiguringEndpoints | Configured
  {
    function Rank(): nat {
      match this
      case NotConnected => 0
      case WaitingAddressed => 1
      case ResettingPort => 2
      case EnablingSlot => 3
      case AddressingDevice => 4
      case InitializingDevice => 5
      case ConfiguringEndpoints => 6
      case Configured => 7
    }

    /** From the port reset to the address assignment a port must be served alone. */
    predicate Addressing() {
      this == ResettingPort || this == EnablingSlot || this == AddressingDevice
    }
  }

  /** A command on the command ring that the controller has not completed yet, and the port it was issued for. */
  datatype Command =
    | EnableSlot(port: nat)
    | AddressDevice(port: nat, slot: nat)
    | ConfigureEndpoint(port: nat, slot: nat)

  datatype State = State(phases: seq<ConfigPhase>, addressingPort: nat, devices: set<nat>, commands: seq<Command>)

  /** What the driver reads of a port's status register during an event. */
  datatype PortStatus = PortStatus(connected: bool, enabled: bool, resetChanged: bool)

  /**
   * What happens to the driver: ports are looked at, and the controller reports events. A completion
   * names the position of its command among the outstanding ones; `root` is the port number read
   * from the device context the controller wrote, and `ports` the status registers of all ports.
   */
  datatype Event =
    | ConfigurePort(port: nat, status: PortStatus)
    | PortStatusChange(port: nat, status: PortStatus)
    | EnableSlotDone(command: nat, slot: nat)
    | AddressDeviceDone(command: nat, slot: nat, root: nat, ports: nat -> PortStatus)
    | ConfigureEndpointDone(command: nat, slot: nat, root: nat)
    | TransferDone(slot: nat, root: nat, transfer: Error, initialized: bool, speedKnown: bool)

  predicate WellShaped(s: State) {
    |s.phases| == PORTS && s.addressingPort < PORTS
  }

  /** Ports are numbered from 1, and completions come only for commands of their kind that were issued. */
  predicate Legal(s: State, e: Event) {
    match e
    case ConfigurePort(p, _) => 1 <= p < PORTS
    case PortStatusChange(p, _) => 1 <= p < PORTS
    case EnableSlotDone(c, slot) => c < |s.commands| && s.commands[c].EnableSlot?
    case AddressDeviceDone(c, slot, root, _) => c < |s.commands| && s.commands[c].AddressDevice? && root < PORTS
    case ConfigureEndpointDone(c, slot, root) => c < |s.commands| && s.commands[c].ConfigureEndpoint? && root < PORTS
    case TransferDone(slot, root, _, _, _) => root < PORTS
  }

  predicate Found(s: State, slot: nat) {
    slot <= MAX_SLOTS && slot in s.devices
  }

  function Without(s: State, c: nat): State
    requires c < |s.commands|
  {
    s.(commands := s.commands[..c] + s.commands[c + 1..])
  }

  function AfterResetPort(s: State, p: nat, connected: bool): (State, Error)
    requires WellShaped(s) && p < PORTS
  {
    if !connected then (s, Success)
    else if s.addressingPort != 0 then (s.(phases := s.phases[p := WaitingAddressed]), Success)
    else if s.phases[p] != NotConnected && s.phases[p] != WaitingAddressed then (s, InvalidPhase)
    else (s.(addressingPort := p, phases := s.phases[p := ResettingPort]), Success)
  }

  function AfterEnableSlot(s: State, p: nat, status: PortStatus): State
    requires WellShaped(s) && p < PORTS
  {
    if status.enabled && status.resetChanged then
      s.(phases := s.phases[p := EnablingSlot], commands := s.commands + [EnableSlot(p)])
    else s
  }

  function AfterAddressDevice(s: State, p: nat, slot: nat): (State, Error)
    requires WellShaped(s) && p < PORTS
  {
    if slot > MAX_SLOTS then (s, InvalidSlotID)
    else (s.(devices := s.devices + {slot}, phases := s.phases[p := AddressingDevice],
             commands := s.commands + [AddressDevice(p, slot)]), Success)
  }

  /** The lowest waiting port from i on, or PORTS. */
  function FirstWaiting(phases: seq<ConfigPhase>, i: nat): (p: nat)
    requires |phases| == PORTS && i <= PORTS
    ensures i <= p <= PORTS && (p < PORTS ==> phases[p] == WaitingAddressed)
    ensures forall q :: i <= q < p ==> phases[q] != WaitingAddressed
    decreases PORTS - i
  {
    if i == PORTS || phases[i] == WaitingAddressed then i else FirstWaiting(phases, i + 1)
  }

  /** The addressed port gives way to the lowest waiting one. */
  function AfterHandOver(s: State, ports: nat -> PortStatus): (State, Error)
    requires WellShaped(s)
  {
    var s0 := s.(addressingPort := 0);
    var p := FirstWaiting(s.phases, 0);
    if p == PORTS then (s0, Success) else AfterResetPort(s0, p, ports(p).connected)
  }

  function AfterAddressed(s: State, slot: nat, root: nat, ports: nat -> PortStatus): (State, Error)
    requires WellShaped(s) && root < PORTS
  {
    if !Found(s, slot) then (s, InvalidSlotID)
    else if root != s.addressingPort || s.phases[root] != AddressingDevice then (s, InvalidPhase)
    else
      var (s1, err) := AfterHandOver(s, ports);
      if err != Success || |s1.phases| != PORTS then (s1, err)
      else (s1.(phases := s1.phases[root := InitializingDevice]), Success)
  }

  function AfterEvent(s: State, e: Event): (State, Error)
    requires WellShaped(s) && Legal(s, e)
  {
    match e
    case ConfigurePort(p, status) =>
      if s.phases[p] == NotConnected then AfterResetPort(s, p, status.connected) else (s, Success)
    case PortStatusChange(p, status) =>
      if s.phases[p] == NotConnected then AfterResetPort(s, p, status.connected)
      else if s.phases[p] == ResettingPort then (AfterEnableSlot(s, p, status), Success)
      else (s, InvalidPhase)
    case EnableSlotDone(c, slot) =>
      if s.phases[s.addressingPort] != EnablingSlot then (Without(s, c), InvalidPhase)
      else AfterAddressDevice(Without(s, c), s.addressingPort, slot)
    case AddressDeviceDone(c, slot, root, ports) => AfterAddressed(Without(s, c), slot, root, ports)
    case ConfigureEndpointDone(c, slot, root) =>
      if !Found(s, slot) then (Without(s, c), InvalidSlotID)
      else if s.phases[root] != ConfiguringEndpoints then (Without(s, c), InvalidPhase)
      else (Without(s, c).(phases := s.phases[root := Configured]), Success)
    case TransferDone(slot, root, transfer, initialized, speedKnown) =>
      if !Found(s, slot) then (s, InvalidSlotID)
      else if transfer != Success then (s, transfer)
      else if !initialized || s.phases[root] != InitializingDevice then (s, Success)
      else if !speedKnown then (s, UnknownXHCISpeedID)
      else
        (s.(phases := s.phases[root := ConfiguringEndpoints], commands := s.commands + [ConfigureEndpoint(root, slot)]),
         Success)
  }

  function InitialState(): State {
    State(seq(PORTS, _ => NotConnected), 0, {}, [])
  }
}

/** Safety and progress of port enumeration over every sequence of events. */
module PortEnumerationProofs {
  import opened Common
  import opened PortEnumeration

  /** A command of the exclusive stage between reset and address assignment. */
  predicate IsSlotCommand(c: Command) {
    c.EnableSlot? || c.AddressDevice?
  }

  /** The addressing port is the only port between reset and address assignment, and 0 means there is none. */
  ghost predicate OneAddressingPort(s: State)
    requires WellShaped(s)
  {
    && s.phases[0] == NotConnected
    && (s.addressingPort != 0 ==> s.phases[s.addressingPort].Addressing())
    && forall p :: 0 <= p < PORTS && s.phases[p].Addressing() ==> p == s.addressingPort
  }

  /** At most one Enable Slot or Address Device command is outstanding, and it was issued for the addressing port. */
  ghost predicate OneSlotCommand(s: State)
    requires WellShaped(s)
  {
    && (forall i :: 0 <= i < |s.commands| && IsSlotCommand(s.commands[i]) ==>
          && s.commands[i].port == s.addressingPort != 0
          && s.phases[s.addressingPort] == if s.commands[i].EnableSlot? then EnablingSlot else AddressingDevice)
    && (forall i, j :: 0 <= i < j < |s.commands| && IsSlotCommand(s.commands[i]) ==> !IsSlotCommand(s.commands[j]))
  }

  ghost predicate Inv(s: State) {
    WellShaped(s) && OneAddressingPort(s) && OneSlotCommand(s)
  }

  lemma InitialInv()
    ensures Inv(InitialState())
  {
  }

  /** Removing a completed command keeps the others in order. */
  lemma WithoutCommands(s: State, c: nat)
    requires WellShaped(s) && OneSlotCommand(s) && c < |s.commands|
    ensures OneSlotCommand(Without(s, c))
    ensures IsSlotCommand(s.commands[c]) ==>
      forall i :: 0 <= i < |Without(s, c).commands| ==> !IsSlotCommand(Without(s, c).commands[i])
  {
  }

  lemma ResetPortInv(s: State, p: nat, connected: bool)
    requires Inv(s) && 1 <= p < PORTS && (s.phases[p] == NotConnected || s.phases[p] == WaitingAddressed)
    ensures Inv(AfterResetPort(s, p, connected).0) && AfterResetPort(s, p, connected).1 == Success
  {
  }

  /** An Enable Slot completion binds its slot to the very port that asked for it. */
  lemma SlotBoundToAsker(s: State, c: nat, slot: nat)
    requires Inv(s) && Legal(s, EnableSlotDone(c, slot))
    ensures var (s', err) := AfterEvent(s, EnableSlotDone(c, slot));
            && Inv(s')
            && (err == Success <==> slot <= MAX_SLOTS)
            && (err == Success ==> s'.commands == Without(s, c).commands + [AddressDevice(s.commands[c].port, slot)]
                                   && s'.phases == s.phases[s.commands[c].port := AddressingDevice])
  {
  }

  lemma NoSlotCommands(s: State)
    requires WellShaped(s) && forall i :: 0 <= i < |s.commands| ==> !IsSlotCommand(s.commands[i])
    ensures OneSlotCommand(s)
  {
  }

  lemma AddressedInv(s: State, c: nat, slot: nat, root: nat, ports: nat -> PortStatus)
    requires Inv(s) && Legal(s, AddressDeviceDone(c, slot, root, ports))
    ensures Inv(AfterEvent(s, AddressDeviceDone(c, slot, root, ports)).0)
  {
    WithoutCommands(s, c);
    var s1 := Without(s, c);
    var s' := AfterAddressed(s1, slot, root, ports).0;
    assert WellShaped(s') && s'.commands == s1.commands;
    NoSlotCommands(s');
    hide OneSlotCommand, IsSlotCommand;
  }

  lemma EventInv(s: State, e: Event)
    requires Inv(s) && Legal(s, e)
    ensures Inv(AfterEvent(s, e).0)
  {
    match e
    case ConfigurePort(p, status) =>
      if s.phases[p] == NotConnected { ResetPortInv(s, p, status.connected); }
    case PortStatusChange(p, status) =>
      if s.phases[p] == NotConnected { ResetPortInv(s, p, status.connected); }
    case EnableSlotDone(c, slot) => SlotBoundToAsker(s, c, slot);
    case AddressDeviceDone(c, slot, root, ports) => AddressedInv(s, c, slot, root, ports);
    case ConfigureEndpointDone(c, slot, root) => WithoutCommands(s, c);
    case TransferDone(slot, root, transfer, initialized, speedKnown) =>
  }

  /** No event takes a port back to an earlier phase. */
  lemma PhasesAdvance(s: State, e: Event, p: nat)
    requires Inv(s) && Legal(s, e) && p < PORTS
    ensures s.phases[p].Rank() <= AfterEvent(s, e).0.phases[p].Rank()
  {
    if e.AddressDeviceDone? {
      AddressedEvent(s, e);
      AddressedAdvances(Without(s, e.command), e.slot, e.root, e.ports, p);
    }
  }

  lemma AddressedAdvances(s: State, slot: nat, root: nat, ports: nat -> PortStatus, p: nat)
    requires WellShaped(s) && root < PORTS && p < PORTS
    ensures |AfterAddressed(s, slot, root, ports).0.phases| == PORTS
    ensures s.phases[p].Rank() <= AfterAddressed(s, slot, root, ports).0.phases[p].Rank()
  {
  }

  ghost predicate AnyWaiting(s: State)
    requires WellShaped(s)
  {
    exists p :: 0 <= p < PORTS && s.phases[p] == WaitingAddressed
  }

  /** A waiting port is not forgotten: some port is being addressed, whose completion will start the next one. */
  ghost predicate NoneForgotten(s: State)
    requires WellShaped(s)
  {
    AnyWaiting(s) ==> s.addressingPort != 0
  }

  /** The completion ends the addressing port's turn. */
  predicate HandsOver(s: State, slot: nat, root: nat)
    requires WellShaped(s) && root < PORTS
  {
    Found(s, slot) && root == s.addressingPort && s.phases[root] == AddressingDevice
  }

  /** The port that a hand-over would start is still connected. */
  predicate NextConnected(s: State, e: Event)
    requires WellShaped(s) && Legal(s, e)
  {
    match e
    case AddressDeviceDone(c, slot, root, ports) =>
      var p := FirstWaiting(s.phases, 0);
      HandsOver(s, slot, root) && p < PORTS ==> ports(p).connected
    case _ => true
  }

  lemma HandOverExact(s: State, slot: nat, root: nat, ports: nat -> PortStatus)
    requires WellShaped(s) && root < PORTS && s.phases[0] == NotConnected && HandsOver(s, slot, root)
    ensures var s', p := AfterAddressed(s, slot, root, ports).0, FirstWaiting(s.phases, 0);
            WellShaped(s') && (NoneForgotten(s') <==> p == PORTS || ports(p).connected)
  {
    var s', p := AfterAddressed(s, slot, root, ports).0, FirstWaiting(s.phases, 0);
    if p == PORTS {
      assert forall q :: 0 <= q < PORTS ==> s'.phases[q] != WaitingAddressed;
    } else if !ports(p).connected {
      assert s'.phases[p] == WaitingAddressed;
    }
  }

  /** Without a hand-over, a port starts to wait only while another one is being addressed. */
  lemma OthersWait(s: State, e: Event)
    requires Inv(s) && Legal(s, e) && NoneForgotten(s)
    requires e.AddressDeviceDone? ==> !HandsOver(s, e.slot, e.root)
    ensures WellShaped(AfterEvent(s, e).0) && NoneForgotten(AfterEvent(s, e).0)
  {
  }

  /** A hand-over forgets the waiting ports exactly when the lowest one of them is no longer connected. */
  lemma NoneForgottenExact(s: State, e: Event)
    requires Inv(s) && Legal(s, e) && NoneForgotten(s)
    ensures WellShaped(AfterEvent(s, e).0)
    ensures NoneForgotten(AfterEvent(s, e).0) <==> NextConnected(s, e)
  {
    hide AfterEvent, NoneForgotten;
    if e.AddressDeviceDone? && HandsOver(s, e.slot, e.root) {
      AddressedEvent(s, e);
      HandOverExact(Without(s, e.command), e.slot, e.root, e.ports);
    } else {
      OthersWait(s, e);
    }
  }

  lemma AddressedEvent(s: State, e: Event)
    requires WellShaped(s) && Legal(s, e) && e.AddressDeviceDone?
    ensures AfterEvent(s, e) == AfterAddressed(Without(s, e.command), e.slot, e.root, e.ports)
  {
  }

  ghost predicate IsRun(states: seq<State>, events: seq<Event>) {
    && |states| == |events| + 1 && states[0] == InitialState()
    && forall i :: 0 <= i < |events| ==>
         WellShaped(states[i]) && Legal(states[i], events[i]) && states[i + 1] == AfterEvent(states[i], events[i]).0
  }

  /** In every reachable state at most one port is between reset and address assignment. */
  lemma {:induction false} RunInv(states: seq<State>, events: seq<Event>, k: nat)
    requires IsRun(states, events) && k < |states|
    ensures Inv(states[k])
  {
    hide AfterEvent;
    if k == 0 {
      InitialInv();
    } else {
      RunInv(states, events, k - 1);
      EventInv(states[k - 1], events[k - 1]);
    }
  }

  /** While ports that wait stay connected, no waiting port is ever forgotten. */
  lemma {:induction false} RunForgetsNone(states: seq<State>, events: seq<Event>, k: nat)
    requires IsRun(states, events) && k < |states|
    requires forall i :: 0 <= i < |events| ==>
      WellShaped(states[i]) && Legal(states[i], events[i]) && NextConnected(states[i], events[i])
    ensures WellShaped(states[k]) && NoneForgotten(states[k])
  {
    hide AfterEvent;
    if k > 0 {
      RunForgetsNone(states, events, k - 1);
      RunInv(states, events, k - 1);
      NoneForgottenExact(states[k - 1], events[k - 1]);
    }
  }

  function RankSum(phases: seq<ConfigPhase>): nat {
    if phases == [] then 0 else RankSum(phases[..|phases| - 1]) + phases[|phases| - 1].Rank()
  }

  lemma {:induction false} RankSumGrows(before: seq<ConfigPhase>, after: seq<ConfigPhase>)
    requires |before| == |after| && forall i :: 0 <= i < |before| ==> before[i].Rank() <= after[i].Rank()
    ensures RankSum(before) <= RankSum(after) && (before != after ==> RankSum(before) < RankSum(after))
  {
    if before != [] {
      var n := |before| - 1;
      RankSumGrows(before[..n], after[..n]);
      assert before == before[..n] + [before[n]] && after == after[..n] + [after[n]];
      assert before[n].Rank() == after[n].Rank() ==> before[n] == after[n];
    }
  }

  lemma {:induction false} RankSumBound(phases: seq<ConfigPhase>)
    ensures RankSum(phases) <= 7 * |phases|
  {
    if phases != [] {
      RankSumBound(phases[..|phases| - 1]);
    }
  }

  /** The number of events among the first k that changed some port's phase. */
  function Changes(states: seq<State>, k: nat): nat
    requires k < |states|
  {
    if k == 0 then 0 else Changes(states, k - 1) + if states[k].phases != states[k - 1].phases then 1 else 0
  }

  /** A run of any length changes phases at most 7 times per port. */
  lemma {:induction false} ChangesBounded(states: seq<State>, events: seq<Event>, k: nat)
    requires IsRun(states, events) && k < |states|
    ensures WellShaped(states[k]) && Changes(states, k) <= RankSum(states[k].phases) <= 7 * PORTS
  {
    hide AfterEvent, RankSum;
    RunInv(states, events, k);
    RankSumBound(states[k].phases);
    if k > 0 {
      ChangesBounded(states, events, k - 1);
      RunInv(states, events, k - 1);
      forall p | 0 <= p < PORTS ensures states[k - 1].phases[p].Rank() <= states[k].phases[p].Rank() {
        PhasesAdvance(states[k - 1], events[k - 1], p);
      }
      RankSumGrows(states[k - 1].phases, states[k].phases);
    }
  }

  ghost predicate Reachable(s: State) {
    exists states, events :: IsRun(states, events) && states[|events|] == s
  }

  lemma InitialReachable()
    ensures Reachable(InitialState())
  {
    var states, events: seq<Event> := [InitialState()], [];
    assert IsRun(states, events) && states[|events|] == InitialState();
  }

  lemma ReachableNext(s: State, e: Event)
    requires Reachable(s) && WellShaped(s) && Legal(s, e)
    ensures Reachable(AfterEvent(s, e).0)
  {
    hide AfterEvent;
    var states, events :| IsRun(states, events) && states[|events|] == s;
    var s' := AfterEvent(s, e).0;
    assert IsRun(states + [s'], events + [e]) && (states + [s'])[|events + [e]|] == s';
  }

  const PLUGGED := PortStatus(true, false, false)
  const RESET_DONE := PortStatus(true, true, true)

  /** Port 1 is being addressed while ports 2 and 3 wait. */
  function TwoWait(): State {
    var none := seq(PORTS, _ => NotConnected);
    State(none[1 := AddressingDevice][2 := WaitingAddressed][3 := WaitingAddressed], 1, {1}, [AddressDevice(1, 1)])
  }

  lemma TwoWaitReachable()
    ensures Reachable(TwoWait())
  {
    hide Reachable;
    var none := seq(PORTS, _ => NotConnected);
    var s0 := InitialState();
    InitialReachable();
    ReachableNext(s0, ConfigurePort(1, PLUGGED));
    var s1 := State(none[1 := ResettingPort], 1, {}, []);
    ReachableNext(s1, ConfigurePort(2, PLUGGED));
    var s2 := s1.(phases := s1.phases[2 := WaitingAddressed]);
    ReachableNext(s2, ConfigurePort(3, PLUGGED));
    var s3 := s2.(phases := s2.phases[3 := WaitingAddressed]);
    ReachableNext(s3, PortStatusChange(1, RESET_DONE));
    var s4 := s3.(phases := s3.phases[1 := EnablingSlot], commands := [EnableSlot(1)]);
    assert AfterEnableSlot(s3, 1, RESET_DONE).commands == [EnableSlot(1)];
    ReachableNext(s4, EnableSlotDone(0, 1));
    assert Without(s4, 0) == s4.(commands := []);
    var s5 := s4.(phases := s4.phases[1 := AddressingDevice], devices := {1}, commands := [AddressDevice(1, 1)]);
    assert AfterEvent(s4, EnableSlotDone(0, 1)).0 == s5;
    assert s5.phases == TwoWait().phases;
  }

  /** Port 2 is unplugged before its turn: the hand-over leaves port 3 waiting with no port being addressed. */
  lemma ForgottenExample()
    ensures Reachable(TwoWait()) && WellShaped(TwoWait()) && NoneForgotten(TwoWait())
    ensures var e := AddressDeviceDone(0, 1, 1, p => PortStatus(p == 3, false, false));
            var s' := AfterEvent(TwoWait(), e).0;
            Reachable(s') && s'.addressingPort == 0 && s'.phases[3] == WaitingAddressed
  {
    hide Reachable;
    TwoWaitReachable();
    var s, e := TwoWait(), AddressDeviceDone(0, 1, 1, p => PortStatus(p == 3, false, false));
    ReachableNext(s, e);
    assert s.phases[2] == WaitingAddressed && FirstWaiting(s.phases, 0) <= 2;
    assert Without(s, 0) == s.(commands := []);
  }
}
