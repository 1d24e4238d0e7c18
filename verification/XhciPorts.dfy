/** The event handlers of port enumeration (Kernel/usb/xhci/xhci.cpp), acting on the port phase table in place. */
module XhciPorts {
  import opened Common
  import opened PortEnumeration
  import opened PortEnumerationProofs

  class PortConfigurator {
    const portConfigPhase: array<ConfigPhase>
    var addressingPort: nat
    var devices: set<nat>            // the slots of DeviceManager that hold a device
    var commands: seq<Command>       // commands issued and not completed, with the port each was issued for

    ghost function View(): State
      reads this, portConfigPhase
    {
      State(portConfigPhase[..], addressingPort, devices, commands)
    }

    constructor ()
      ensures View() == InitialState() && Inv(View()) && fresh(portConfigPhase)
    {
      portConfigPhase := new ConfigPhase[PORTS](_ => NotConnected);
      addressingPort, devices, commands := 0, {}, [];
      new;
      assert portConfigPhase[..] == InitialState().phases;
    }

    method ResetPort(port: nat, status: PortStatus) returns (err: Error)
      requires WellShaped(View()) && port < PORTS
      modifies `addressingPort, portConfigPhase
      ensures (View(), err) == AfterResetPort(old(View()), port, status.connected)
    {
      if !status.connected {
        return Success;
      }
      if addressingPort != 0 {
        portConfigPhase[port] := WaitingAddressed;
      } else {
        var phase := portConfigPhase[port];
        if phase != NotConnected && phase != WaitingAddressed {
          return InvalidPhase;
        }
        addressingPort := port;
        portConfigPhase[port] := ResettingPort;
      }
      return Success;
    }

    method EnableSlot(port: nat, status: PortStatus) returns (err: Error)
      requires WellShaped(View()) && port < PORTS
      modifies `commands, portConfigPhase
      ensures View() == AfterEnableSlot(old(View()), port, status) && err == Success
    {
      if status.enabled && status.resetChanged {
        portConfigPhase[port] := EnablingSlot;
        commands := commands + [Command.EnableSlot(port)];
      }
      return Success;
    }

    method AddressDevice(port: nat, slot: nat) returns (err: Error)
      requires WellShaped(View()) && port < PORTS
      modifies `devices, `commands, portConfigPhase
      ensures (View(), err) == AfterAddressDevice(old(View()), port, slot)
    {
      AllocDevice(slot);
      if !FindBySlot(slot) {
        return InvalidSlotID;
      }
      portConfigPhase[port] := AddressingDevice;
      commands := commands + [Command.AddressDevice(port, slot)];
      return Success;
    }

    /** DeviceManager::AllocDevice; AddressDevice does not look at the error it returns. */
    method AllocDevice(slot: nat)
      modifies `devices
      ensures devices == if slot > MAX_SLOTS then old(devices) else old(devices) + {slot}
    {
      if slot > MAX_SLOTS || slot in devices {
        return;
      }
      devices := devices + {slot};
    }

    predicate FindBySlot(slot: nat)
      reads this
    {
      slot <= MAX_SLOTS && slot in devices
    }

    method ConfigurePort(port: nat, status: PortStatus) returns (err: Error)
      requires Inv(View()) && 1 <= port < PORTS
      modifies this, portConfigPhase
      ensures (View(), err) == AfterEvent(old(View()), Event.ConfigurePort(port, status)) && Inv(View())
    {
      EventInv(View(), Event.ConfigurePort(port, status));
      if portConfigPhase[port] == NotConnected {
        err := ResetPort(port, status);
        return err;
      }
      return Success;
    }

    method OnPortStatusChange(port: nat, status: PortStatus) returns (err: Error)
      requires Inv(View()) && 1 <= port < PORTS
      modifies this, portConfigPhase
      ensures (View(), err) == AfterEvent(old(View()), PortStatusChange(port, status)) && Inv(View())
    {
      EventInv(View(), PortStatusChange(port, status));
      match portConfigPhase[port]
      case NotConnected =>
        err := ResetPort(port, status);
      case ResettingPort =>
        err := EnableSlot(port, status);
      case _ =>
        err := InvalidPhase;
    }

    method OnEnableSlotDone(c: nat, slot: nat) returns (err: Error)
      requires Inv(View()) && Legal(View(), EnableSlotDone(c, slot))
      modifies this, portConfigPhase
      ensures (View(), err) == AfterEvent(old(View()), EnableSlotDone(c, slot)) && Inv(View())
    {
      EventInv(View(), EnableSlotDone(c, slot));
      commands := commands[..c] + commands[c + 1..];
      if portConfigPhase[addressingPort] != EnablingSlot {
        return InvalidPhase;
      }
      err := AddressDevice(addressingPort, slot);
    }

    method OnAddressDeviceDone(c: nat, slot: nat, root: nat, ports: nat -> PortStatus) returns (err: Error)
      requires Inv(View()) && Legal(View(), AddressDeviceDone(c, slot, root, ports))
      modifies this, portConfigPhase
      ensures (View(), err) == AfterEvent(old(View()), AddressDeviceDone(c, slot, root, ports)) && Inv(View())
    {
      EventInv(View(), AddressDeviceDone(c, slot, root, ports));
      AddressedEvent(View(), AddressDeviceDone(c, slot, root, ports));
      hide Inv;
      commands := commands[..c] + commands[c + 1..];
      ghost var s := View();
      if !FindBySlot(slot) {
        return InvalidSlotID;
      }
      if root != addressingPort {
        return InvalidPhase;
      }
      if portConfigPhase[root] != AddressingDevice {
        return InvalidPhase;
      }
      err := HandOver(ports);
      if err != Success {
        return err;
      }
      portConfigPhase[root] := InitializingDevice;
      return Success;
    }

    /** Ends the addressing port's turn and starts the lowest waiting port. */
    method HandOver(ports: nat -> PortStatus) returns (err: Error)
      requires WellShaped(View())
      modifies `addressingPort, portConfigPhase
      ensures (View(), err) == AfterHandOver(old(View()), ports)
    {
      addressingPort := 0;
      var i := 0;
      while i < portConfigPhase.Length
        invariant 0 <= i <= PORTS && addressingPort == 0
        invariant portConfigPhase[..] == old(portConfigPhase[..])
        invariant FirstWaiting(portConfigPhase[..], 0) == FirstWaiting(portConfigPhase[..], i)
      {
        if portConfigPhase[i] == WaitingAddressed {
          err := ResetPort(i, ports(i));
          return err;
        }
        i := i + 1;
      }
      return Success;
    }

    method OnConfigureEndpointDone(c: nat, slot: nat, root: nat) returns (err: Error)
      requires Inv(View()) && Legal(View(), ConfigureEndpointDone(c, slot, root))
      modifies this, portConfigPhase
      ensures (View(), err) == AfterEvent(old(View()), ConfigureEndpointDone(c, slot, root)) && Inv(View())
    {
      EventInv(View(), ConfigureEndpointDone(c, slot, root));
      commands := commands[..c] + commands[c + 1..];
      if !FindBySlot(slot) {
        return InvalidSlotID;
      }
      if portConfigPhase[root] != ConfiguringEndpoints {
        return InvalidPhase;
      }
      portConfigPhase[root] := Configured;
      return Success;
    }

    /** A transfer event, whose own handling returned `transfer`; ConfigureEndpoints runs when the device is ready. */
    method OnTransferEvent(slot: nat, root: nat, transfer: Error, initialized: bool,
        speedKnown: bool) returns (err: Error)
      requires Inv(View()) && root < PORTS
      modifies this, portConfigPhase
      ensures (View(), err) == AfterEvent(old(View()), TransferDone(slot, root, transfer, initialized, speedKnown)) &&
        Inv(View())
    {
      EventInv(View(), TransferDone(slot, root, transfer, initialized, speedKnown));
      if !FindBySlot(slot) {
        return InvalidSlotID;
      }
      if transfer != Success {
        return transfer;
      }
      if initialized && portConfigPhase[root] == InitializingDevice {
        if !speedKnown {
          return UnknownXHCISpeedID;
        }
        portConfigPhase[root] := ConfiguringEndpoints;
        commands := commands + [ConfigureEndpoint(root, slot)];
      }
      return Success;
    }
  }
}
