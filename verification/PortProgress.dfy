/**
 * Port enumeration makes progress: a port that waits for a command has it outstanding, and its
 * completion moves the port on.
 */
module PortProgress {
  import opened Common
  import opened PortEnumeration
  import opened PortEnumerationProofs

  /** Completions carry the slot and port of their own command, and a slot that exists. */
  predicate Proper(s: State, e: Event)
    requires WellShaped(s) && Legal(s, e)
  {
    match e
    case EnableSlotDone(_, slot) => slot <= MAX_SLOTS
    case AddressDeviceDone(c, slot, root, _) => slot == s.commands[c].slot && root == s.commands[c].port
    case ConfigureEndpointDone(c, slot, root) => slot == s.commands[c].slot && root == s.commands[c].port
    case _ => true
  }

  /** The command that a port in this phase waits for. */
  predicate Serves(c: Command, p: nat, phase: ConfigPhase) {
    c.port == p && match phase
                   case EnablingSlot => c.EnableSlot?
                   case AddressingDevice => c.AddressDevice?
                   case ConfiguringEndpoints => c.ConfigureEndpoint?
                   case _ => false
  }

  predicate Waits(phase: ConfigPhase) {
    phase == EnablingSlot || phase == AddressingDevice || phase == ConfiguringEndpoints
  }

  ghost predicate HasCommand(s: State, p: nat)
    requires p < |s.phases|
  {
    exists i :: 0 <= i < |s.commands| && Serves(s.commands[i], p, s.phases[p])
  }

  /** Every port that waits for a command has one. */
  ghost predicate Served(s: State) {
    forall p :: 0 <= p < |s.phases| && Waits(s.phases[p]) ==> HasCommand(s, p)
  }

  /** Every command is one that its port waits for, the port's only one, and names a slot with a device. */
  ghost predicate Needed(s: State)
    requires WellShaped(s)
  {
    && (forall i :: 0 <= i < |s.commands| ==>
          && 0 < s.commands[i].port < PORTS && Serves(s.commands[i], s.commands[i].port, s.phases[s.commands[i].port])
          && (s.commands[i].EnableSlot? || Found(s, s.commands[i].slot)))
    && (forall i, j :: 0 <= i < j < |s.commands| ==> s.commands[i].port != s.commands[j].port)
  }

  ghost predicate InProgress(s: State) {
    Inv(s) && Served(s) && Needed(s)
  }

  lemma InitialProgress()
    ensures InProgress(InitialState())
  {
    InitialInv();
  }

  /** A port moves to a phase that waits for no command, and no command is its. */
  lemma PhaseMoved(s: State, p: nat, phase: ConfigPhase)
    requires WellShaped(s) && p < PORTS && Served(s) && Needed(s)
    requires !Waits(phase) && forall i :: 0 <= i < |s.commands| ==> s.commands[i].port != p
    ensures Served(s.(phases := s.phases[p := phase])) && Needed(s.(phases := s.phases[p := phase]))
  {
    var s' := s.(phases := s.phases[p := phase]);
    forall q | 0 <= q < PORTS && Waits(s'.phases[q]) ensures HasCommand(s', q) {
      assert HasCommand(s, q);
    }
  }

  /** A port without a command moves to a phase that waits for one, and the command is issued. */
  lemma CommandIssued(s: State, p: nat, phase: ConfigPhase, c: Command)
    requires WellShaped(s) && 0 < p < PORTS && Served(s) && Needed(s)
    requires Waits(phase) && Serves(c, p, phase) && (c.EnableSlot? || Found(s, c.slot))
    requires forall i :: 0 <= i < |s.commands| ==> s.commands[i].port != p
    ensures var s' := s.(phases := s.phases[p := phase], commands := s.commands + [c]); Served(s') && Needed(s')
  {
    var s' := s.(phases := s.phases[p := phase], commands := s.commands + [c]);
    forall q | 0 <= q < PORTS && Waits(s'.phases[q]) ensures HasCommand(s', q) {
      if q == p {
        assert s'.commands[|s.commands|] == c;
      } else {
        assert HasCommand(s, q);
        var i :| 0 <= i < |s.commands| && Serves(s.commands[i], q, s.phases[q]);
        assert s'.commands[i] == s.commands[i];
      }
    }
  }

  lemma WithoutAt(s: State, c: nat, i: nat)
    requires c < |s.commands| && i < |s.commands| && i != c
    ensures |Without(s, c).commands| + 1 == |s.commands|
    ensures var k := if i < c then i else i - 1;
            0 <= k < |Without(s, c).commands| && Without(s, c).commands[k] == s.commands[i]
  {
  }

  /** A completed command leaves its port behind for the moment; all others keep theirs. */
  lemma CommandDone(s: State, c: nat, p: nat)
    requires WellShaped(s) && Served(s) && Needed(s) && c < |s.commands| && p == s.commands[c].port
    ensures var s' := Without(s, c).(phases := s.phases[p := Configured]);
            && Served(s') && Needed(s') && forall i :: 0 <= i < |s'.commands| ==> s'.commands[i].port != p
  {
    OthersServed(s, c, p);
    OthersNeeded(s, c, p);
  }

  lemma OthersServed(s: State, c: nat, p: nat)
    requires WellShaped(s) && Served(s) && c < |s.commands| && p == s.commands[c].port < PORTS
    ensures Served(Without(s, c).(phases := s.phases[p := Configured]))
  {
    hide Needed, Serves;
    var s' := Without(s, c).(phases := s.phases[p := Configured]);
    forall q | 0 <= q < PORTS && Waits(s'.phases[q]) ensures HasCommand(s', q) {
      assert HasCommand(s, q);
      var i :| 0 <= i < |s.commands| && Serves(s.commands[i], q, s.phases[q]);
      assert i != c by {
        ServesPort(s.commands[i], q, s.phases[q]);
      }
      WithoutAt(s, c, i);
    }
  }

  lemma ServesPort(c: Command, p: nat, phase: ConfigPhase)
    requires Serves(c, p, phase)
    ensures c.port == p
  {
  }

  lemma OthersNeeded(s: State, c: nat, p: nat)
    requires WellShaped(s) && Needed(s) && c < |s.commands| && p == s.commands[c].port < PORTS
    ensures var s' := Without(s, c).(phases := s.phases[p := Configured]);
            Needed(s') && forall i :: 0 <= i < |s'.commands| ==> s'.commands[i].port != p
  {
    hide Serves;
    var s' := Without(s, c).(phases := s.phases[p := Configured]);
    forall i | 0 <= i < |s'.commands| ensures s'.commands[i] == s.commands[if i < c then i else i + 1] {
    }
  }

  /** Neither the addressing port nor more devices matter. */
  lemma OtherFields(s: State, s': State)
    requires WellShaped(s) && WellShaped(s') && Served(s) && Needed(s)
    requires s'.phases == s.phases && s'.commands == s.commands && s.devices <= s'.devices
    ensures Served(s') && Needed(s')
  {
    forall q | 0 <= q < PORTS && Waits(s'.phases[q]) ensures HasCommand(s', q) {
      assert HasCommand(s, q);
    }
  }

  /** A port outside the phases that wait for a command has none. */
  lemma NoCommand(s: State, p: nat)
    requires WellShaped(s) && Needed(s) && p < PORTS && !Waits(s.phases[p])
    ensures forall i :: 0 <= i < |s.commands| ==> s.commands[i].port != p
  {
  }

  lemma ResetProgress(s: State, p: nat, connected: bool)
    requires WellShaped(s) && Served(s) && Needed(s) && p < PORTS && !Waits(s.phases[p])
    ensures var s' := AfterResetPort(s, p, connected).0; WellShaped(s') && Served(s') && Needed(s')
  {
    NoCommand(s, p);
    PhaseMoved(s, p, WaitingAddressed);
    PhaseMoved(s, p, ResettingPort);
    hide Served, Needed;
    var s' := AfterResetPort(s, p, connected).0;
    if s'.addressingPort != s.addressingPort {
      OtherFields(s.(phases := s'.phases), s');
    }
  }

  /** The hand-over may as well come after the addressed port has moved on. */
  lemma HandOverAfterMove(s: State, slot: nat, root: nat, ports: nat -> PortStatus)
    requires WellShaped(s) && Found(s, slot) && root == s.addressingPort && s.phases[root] == AddressingDevice
    ensures var moved, p := s.(addressingPort := 0, phases := s.phases[root := InitializingDevice]),
                            FirstWaiting(s.phases, 0);
            && p != root
            && AfterAddressed(s, slot, root, ports) ==
               (if p == PORTS then moved else AfterResetPort(moved, p, ports(p).connected).0, Success)
  {
    hide Found;
    var p := FirstWaiting(s.phases, 0);
    if p < PORTS {
      assert s.phases[root := InitializingDevice][p := ResettingPort] ==
        s.phases[p := ResettingPort][root := InitializingDevice];
    }
  }

  /** The port of a completed Address Device command moves on, before the hand-over. */
  lemma AddressedMoves(s: State, c: nat, root: nat)
    requires InProgress(s) && c < |s.commands| && root == s.commands[c].port
    ensures var moved := Without(s, c).(addressingPort := 0, phases := s.phases[root := InitializingDevice]);
            WellShaped(moved) && Served(moved) && Needed(moved)
  {
    var done := Without(s, c).(phases := s.phases[root := Configured]);
    CommandDone(s, c, root);
    OtherFields(done, done.(addressingPort := 0));
    PhaseMoved(done.(addressingPort := 0), root, InitializingDevice);
    hide Served, Needed, Inv;
    assert done.phases[root := InitializingDevice] == s.phases[root := InitializingDevice];
  }

  lemma AddressedProgress(s: State, c: nat, slot: nat, root: nat, ports: nat -> PortStatus)
    requires InProgress(s) && Legal(s, AddressDeviceDone(c, slot, root, ports))
    requires Proper(s, AddressDeviceDone(c, slot, root, ports))
    ensures var (s', err) := AfterEvent(s, AddressDeviceDone(c, slot, root, ports));
            WellShaped(s') && Served(s') && Needed(s') && err == Success && s'.phases[root] == InitializingDevice
  {
    assert Serves(s.commands[c], root, s.phases[root]);
    AddressedMoves(s, c, root);
    HandOverAfterMove(Without(s, c), slot, root, ports);
    hide Served, Needed, Inv, FirstWaiting, AfterAddressed;
    var moved := Without(s, c).(addressingPort := 0, phases := s.phases[root := InitializingDevice]);
    var p := FirstWaiting(s.phases, 0);
    if p < PORTS {
      ResetProgress(moved, p, ports(p).connected);
    }
  }

  /** Every event keeps it, if completions are proper. */
  lemma EventProgress(s: State, e: Event)
    requires InProgress(s) && Legal(s, e) && Proper(s, e)
    ensures InProgress(AfterEvent(s, e).0)
  {
    EventInv(s, e);
    match e
    case ConfigurePort(p, status) =>
      if s.phases[p] == NotConnected { ResetProgress(s, p, status.connected); }
    case PortStatusChange(p, status) =>
      if s.phases[p] == NotConnected {
        ResetProgress(s, p, status.connected);
      } else if s.phases[p] == ResettingPort {
        NoCommand(s, p);
        CommandIssued(s, p, EnablingSlot, EnableSlot(p));
      }
    case EnableSlotDone(c, slot) => SlotProgress(s, c, slot);
    case AddressDeviceDone(c, slot, root, ports) => AddressedProgress(s, c, slot, root, ports);
    case ConfigureEndpointDone(c, slot, root) =>
      assert Serves(s.commands[c], root, s.phases[root]);
      CommandDone(s, c, root);
    case TransferDone(slot, root, transfer, initialized, speedKnown) =>
      if Found(s, slot) && transfer == Success && initialized && s.phases[root] == InitializingDevice && speedKnown {
        NoCommand(s, root);
        CommandIssued(s, root, ConfiguringEndpoints, ConfigureEndpoint(root, slot));
      }
  }

  lemma SlotProgress(s: State, c: nat, slot: nat)
    requires InProgress(s) && Legal(s, EnableSlotDone(c, slot)) && slot <= MAX_SLOTS
    ensures var (s', err) := AfterEvent(s, EnableSlotDone(c, slot));
            WellShaped(s') && Served(s') && Needed(s') && err == Success
            && s'.phases[s.commands[c].port] == AddressingDevice
  {
    SlotBoundToAsker(s, c, slot);
    var p := s.commands[c].port;
    var done := Without(s, c).(phases := s.phases[p := Configured]);
    CommandDone(s, c, p);
    OtherFields(done, done.(devices := s.devices + {slot}));
    CommandIssued(done.(devices := s.devices + {slot}), p, AddressingDevice, AddressDevice(p, slot));
    hide Served, Needed, Inv;
    assert s.phases[p := Configured][p := AddressingDevice] == s.phases[p := AddressingDevice];
  }

  /** Over every run with proper completions, a port that waits for a command has it outstanding. */
  lemma {:induction false} RunServed(states: seq<State>, events: seq<Event>, k: nat)
    requires IsRun(states, events) && k < |states|
    requires forall i :: 0 <= i < |events| ==>
               WellShaped(states[i]) && Legal(states[i], events[i]) && Proper(states[i], events[i])
    ensures InProgress(states[k])
  {
    hide AfterEvent, InProgress;
    if k == 0 {
      InitialProgress();
    } else {
      RunServed(states, events, k - 1);
      EventProgress(states[k - 1], events[k - 1]);
    }
  }

  /** The phase after the one that waits. */
  function NextPhase(phase: ConfigPhase): ConfigPhase {
    match phase
    case EnablingSlot => AddressingDevice
    case AddressingDevice => InitializingDevice
    case ConfiguringEndpoints => Configured
    case other => other
  }

  /** The completion of the c-th command, for a slot that the controller enables or the command's own. */
  function Completion(s: State, c: nat, slot: nat, ports: nat -> PortStatus): Event
    requires c < |s.commands|
  {
    match s.commands[c]
    case EnableSlot(_) => EnableSlotDone(c, slot)
    case AddressDevice(p, own) => AddressDeviceDone(c, own, p, ports)
    case ConfigureEndpoint(p, own) => ConfigureEndpointDone(c, own, p)
  }

  /** A port that waits has a command whose completion succeeds and moves it to the next phase. */
  lemma WaitingPortMoves(s: State, p: nat, slot: nat, ports: nat -> PortStatus) returns (c: nat)
    requires InProgress(s) && p < PORTS && Waits(s.phases[p]) && slot <= MAX_SLOTS
    ensures c < |s.commands| && s.commands[c].port == p
    ensures var e := Completion(s, c, slot, ports);
            && Legal(s, e) && Proper(s, e) && AfterEvent(s, e).1 == Success
            && |AfterEvent(s, e).0.phases| == PORTS && AfterEvent(s, e).0.phases[p] == NextPhase(s.phases[p])
  {
    assert HasCommand(s, p);
    c :| 0 <= c < |s.commands| && Serves(s.commands[c], p, s.phases[p]);
    match s.commands[c] {
      case EnableSlot(_) => SlotProgress(s, c, slot);
      case AddressDevice(_, own) => AddressedProgress(s, c, own, p, ports);
      case ConfigureEndpoint(_, own) => assert Found(s, own);
    }
  }

  /**
   * When an event gives an error: a status change in a phase that expects none, a slot without a
   * device, a completion in another phase than its command's, a device whose speed is not known, or
   * the error of the transfer itself.
   */
  lemma ErrorsExact(s: State, e: Event)
    requires Inv(s) && Legal(s, e)
    ensures AfterEvent(s, e).1 ==
      match e
      case ConfigurePort(_, _) => Success
      case PortStatusChange(p, _) =>
        if s.phases[p] == NotConnected || s.phases[p] == ResettingPort then Success else InvalidPhase
      case EnableSlotDone(c, slot) => if slot <= 8 then Success else InvalidSlotID
      case AddressDeviceDone(c, slot, root, _) =>
        if slot > 8 || slot !in s.devices then InvalidSlotID
        else if root == s.commands[c].port then Success else InvalidPhase
      case ConfigureEndpointDone(_, slot, root) =>
        if slot > 8 || slot !in s.devices then InvalidSlotID
        else if s.phases[root] == ConfiguringEndpoints then Success else InvalidPhase
      case TransferDone(slot, root, transfer, initialized, known) =>
        if slot > 8 || slot !in s.devices then InvalidSlotID
        else if transfer != Success then transfer
        else if initialized && s.phases[root] == InitializingDevice && !known then UnknownXHCISpeedID
        else Success
  {
    match e
    case AddressDeviceDone(c, slot, root, ports) =>
      var p := FirstWaiting(Without(s, c).phases, 0);
    case _ =>
  }

  /** A port that is seen connected for the first time waits while another is being addressed, and else is the one. */
  lemma PortTaken(s: State, p: nat, status: PortStatus)
    requires Inv(s) && 1 <= p < PORTS && s.phases[p] == NotConnected
    ensures forall e | e == ConfigurePort(p, status) || e == PortStatusChange(p, status) ::
              AfterEvent(s, e) == (
                if !status.connected then s
                else if s.addressingPort != 0 then s.(phases := s.phases[p := WaitingAddressed])
                else s.(phases := s.phases[p := ResettingPort], addressingPort := p), Success)
  {
  }

  /**
   * The two places where a command is issued on the driver's own account. A status change of a
   * resetting port does so exactly if the port is enabled and its reset done; a transfer event of an
   * initialising one exactly if it is successful and leaves the device initialised at a known speed.
   */
  lemma PortIssues(s: State, p: nat, slot: nat, status: PortStatus, transfer: Error, initialized: bool, known: bool)
    requires InProgress(s) && 1 <= p < PORTS && Found(s, slot)
    ensures s.phases[p] == ResettingPort ==>
              AfterEvent(s, PortStatusChange(p, status)).0 ==
              if status.enabled && status.resetChanged
              then s.(phases := s.phases[p := EnablingSlot], commands := s.commands + [EnableSlot(p)]) else s
    ensures s.phases[p] == InitializingDevice ==>
              AfterEvent(s, TransferDone(slot, p, transfer, initialized, known)).0 ==
              if transfer == Success && initialized && known
              then s.(phases := s.phases[p := ConfiguringEndpoints], commands :=
                s.commands + [ConfigureEndpoint(p, slot)])
              else s
  {
  }

  lemma Step(s: State, e: Event, s': State)
    requires Reachable(s) && WellShaped(s) && Legal(s, e) && AfterEvent(s, e).0 == s'
    ensures Reachable(s')
  {
    ReachableNext(s, e);
  }

  /** A port alone, in some phase. */
  function Alone(p: nat, phase: ConfigPhase, addressing: nat, devices: set<nat>, commands: seq<Command>): State
    requires p < PORTS
  {
    State(InitialState().phases[p := phase], addressing, devices, commands)
  }

  lemma PortAddressing(p: nat, slot: nat)
    requires 1 <= p < PORTS && slot <= MAX_SLOTS
    ensures Reachable(Alone(p, AddressingDevice, p, {slot}, [AddressDevice(p, slot)]))
  {
    hide Reachable;
    var up := PortStatus(true, true, true);
    InitialReachable();
    Step(InitialState(), ConfigurePort(p, up), Alone(p, ResettingPort, p, {}, []));
    Step(Alone(p, ResettingPort, p, {}, []), PortStatusChange(p, up), Alone(p, EnablingSlot, p, {}, [EnableSlot(p)]));
    Step(Alone(p, EnablingSlot, p, {}, [EnableSlot(p)]), EnableSlotDone(0, slot),
         Alone(p, AddressingDevice, p, {slot}, [AddressDevice(p, slot)]));
  }

  /** From the start, six events bring any port to its end, through any slot. */
  lemma PortConfigured(p: nat, slot: nat)
    requires 1 <= p < PORTS && slot <= MAX_SLOTS
    ensures Reachable(Alone(p, Configured, 0, {slot}, []))
  {
    hide Reachable;
    PortAddressing(p, slot);
    Step(Alone(p, AddressingDevice, p, {slot}, [AddressDevice(p, slot)]),
         AddressDeviceDone(0, slot, p, _ => PortStatus(true, true, true)), Alone(p, InitializingDevice, 0, {slot}, []));
    Step(Alone(p, InitializingDevice, 0, {slot}, []), TransferDone(slot, p, Success, true, true),
         Alone(p, ConfiguringEndpoints, 0, {slot}, [ConfigureEndpoint(p, slot)]));
    Step(Alone(p, ConfiguringEndpoints, 0, {slot}, [ConfigureEndpoint(p, slot)]), ConfigureEndpointDone(0, slot, p),
         Alone(p, Configured, 0, {slot}, []));
  }
}
