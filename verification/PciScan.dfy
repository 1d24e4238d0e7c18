/** The recursive scan of the PCI buses into a table of 32 devices (Kernel/pci.cpp). */
module PciScan {
  import opened Common
  import opened PciOrder
  import opened PciTree

  /** The outcome of adding `wanted` to a table that held `before`. */
  ghost predicate Outcome(before: seq<Device>, wanted: seq<Device>, after: seq<Device>, err: Error) {
    && after == Take(before + wanted, MAX_DEVICES)
    && err == if |before + wanted| <= MAX_DEVICES then Success else Full
  }

  lemma OutcomeThen(before: seq<Device>, first: seq<Device>, mid: seq<Device>, e: Error, rest: seq<Device>)
    requires Outcome(before, first, mid, e)
    ensures e == Success ==> before + (first + rest) == mid + rest
    ensures e != Success ==> Outcome(before, first + rest, mid, e)
  {
  }

  /** The rest of a list of parts is still to come, and the part just added did not fit. */
  lemma OutcomeStops(before: seq<Device>, wanted: seq<Device>, mid: seq<Device>, part: seq<Device>, rest: seq<Device>,
      after: seq<Device>, e: Error)
    requires before + wanted == mid + (part + rest) && Outcome(mid, part, after, e) && e != Success
    ensures Outcome(before, wanted, after, e)
  {
  }

  lemma OutcomeMoves(before: seq<Device>, wanted: seq<Device>, mid: seq<Device>, rest: seq<Device>, after: seq<Device>,
      e: Error)
    requires before + wanted == mid + rest && Outcome(mid, rest, after, e)
    ensures Outcome(before, wanted, after, e)
  {
  }

  lemma OutcomeComplete(before: seq<Device>, wanted: seq<Device>, after: seq<Device>)
    requires before + wanted == after + [] && |after| <= MAX_DEVICES
    ensures Outcome(before, wanted, after, Success)
  {
  }

  /** Whether a list fits into the table, and what of it, shows in its first 33 entries. */
  lemma OutcomeTake(wanted: seq<Device>, wanted': seq<Device>, after: seq<Device>, err: Error)
    requires Take(wanted, MAX_DEVICES + 1) == Take(wanted', MAX_DEVICES + 1) && Outcome([], wanted, after, err)
    ensures Outcome([], wanted', after, err)
  {
    assert [] + wanted == wanted && [] + wanted' == wanted';
    assert Take(wanted, MAX_DEVICES) == Take(Take(wanted, MAX_DEVICES + 1), MAX_DEVICES);
    assert Take(wanted', MAX_DEVICES) == Take(Take(wanted', MAX_DEVICES + 1), MAX_DEVICES);
  }

  lemma BusUnfold(cfg: ConfigSpace, bus: nat, device: nat, depth: nat)
    requires device < DEVICES_PER_BUS
    ensures BusTree(cfg, bus, DEVICES_PER_BUS, depth) == []
    ensures BusTree(cfg, bus, device, depth) ==
      (if cfg(bus, device, 0).Present() then DeviceTree(cfg, bus, device, depth) else []) +
        BusTree(cfg, bus, device + 1, depth)
  {
  }

  lemma FunctionsUnfold(cfg: ConfigSpace, bus: nat, device: nat, fn: nat, depth: nat)
    requires fn < FUNCTIONS_PER_DEVICE
    ensures FunctionsFrom(cfg, bus, device, FUNCTIONS_PER_DEVICE, depth) == []
    ensures FunctionsFrom(cfg, bus, device, fn, depth) ==
      (if cfg(bus, device, fn).Present() then FunctionTree(cfg, bus, device, fn, depth) else []) +
        FunctionsFrom(cfg, bus, device, fn + 1, depth)
  {
  }

  lemma RootsUnfold(cfg: ConfigSpace, fn: nat, depth: nat)
    requires fn < FUNCTIONS_PER_DEVICE
    ensures RootsFrom(cfg, FUNCTIONS_PER_DEVICE, depth) == []
    ensures RootsFrom(cfg, fn, depth) ==
      (if cfg(0, 0, fn).Present() then BusTree(cfg, fn, 0, depth) else []) + RootsFrom(cfg, fn + 1, depth)
  {
  }

  /**
   * The table holds the ends of all routes, in order, or of the first 32 of them; the error says
   * which. Bridges are followed to a depth of at least 32.
   */
  ghost predicate InOrder(cfg: ConfigSpace, found: seq<Device>, err: Error, depth: nat) {
    exists routes :: AllRoutes(cfg, routes, depth)
      && |found| == (if |routes| <= 32 then |routes| else 32) && EndsOf(cfg, routes[..|found|], found)
      && err == if |routes| <= 32 then Success else Full
  }

  lemma OutcomeInOrder(cfg: ConfigSpace, found: seq<Device>, err: Error, depth: nat)
    requires Outcome([], AllDevices(cfg, depth), found, err)
    ensures InOrder(cfg, found, err, depth)
  {
    hide AllDevices, AllRoutes;
    var routes := AllDevicesListed(cfg, depth);
    assert [] + AllDevices(cfg, depth) == AllDevices(cfg, depth);
  }

  /**
   * On success a function is in the table exactly if it is there and reached from a root bus through
   * bridges; a full table holds only such functions.
   */
  ghost predicate TableExact(cfg: ConfigSpace, found: seq<Device>, err: Error) {
    && (forall d :: d in found ==> Reached(cfg, d))
    && (if err == Success then forall d :: Reached(cfg, d) ==> d in found else err == Full && |found| == 32)
  }

  lemma OutcomeExact(cfg: ConfigSpace, found: seq<Device>, err: Error)
    requires forall depth: nat :: depth >= MAX_DEVICES ==> Outcome([], AllDevices(cfg, depth), found, err)
    ensures TableExact(cfg, found, err)
  {
    hide AllDevices, Reached, IsRoute, EndOf;
    OutcomeMembers(AllDevices(cfg, MAX_DEVICES), found, err);
    forall d | d in found ensures Reached(cfg, d) {
      MetExactly(cfg, MAX_DEVICES, d);
    }
    if err == Success {
      forall d | Reached(cfg, d) ensures d in found {
        ReachedRoute(cfg, d);
        var r: Route, depth: nat :| IsRoute(cfg, r, depth) && r.path != [] && EndOf(cfg, r.root, r.path) == d;
        var deep := depth + MAX_DEVICES;
        DeeperRoute(cfg, r, depth, deep);
        MetExactly(cfg, deep, d);
        OutcomeMembers(AllDevices(cfg, deep), found, err);
      }
    }
  }

  lemma ReachedRoute(cfg: ConfigSpace, d: Device)
    requires Reached(cfg, d)
    ensures exists r: Route, depth: nat :: IsRoute(cfg, r, depth) && r.path != [] && EndOf(cfg, r.root, r.path) == d
  {
  }

  lemma OutcomeMembers(wanted: seq<Device>, found: seq<Device>, err: Error)
    requires Outcome([], wanted, found, err)
    ensures forall d :: d in found ==> d in wanted
    ensures if err == Success then found == wanted else err == Full && |found| == MAX_DEVICES
  {
    assert [] + wanted == wanted;
  }

  class Scanner {
    const cfg: ConfigSpace
    const devices: array<Device>
    var numDevice: nat

    ghost predicate Valid()
      reads this
    {
      devices.Length == MAX_DEVICES && numDevice <= MAX_DEVICES
    }

    ghost function Found(): seq<Device>
      requires Valid()
      reads this, devices
    {
      devices[..numDevice]
    }

    constructor (cfg: ConfigSpace)
      ensures Valid() && this.cfg == cfg && fresh(devices)
    {
      this.cfg := cfg;
      devices := new Device[MAX_DEVICES](_ => Device(0, 0, 0, 0, 0, 0, 0));
      numDevice := 0;
    }

    method AddDevice(device: Device) returns (err: Error)
      requires Valid()
      modifies `numDevice, devices
      ensures Valid() && Outcome(old(Found()), [device], Found(), err)
      ensures numDevice == old(numDevice) + if err == Success then 1 else 0
    {
      if numDevice == devices.Length {
        return Full;
      }
      devices[numDevice] := device;
      numDevice := numDevice + 1;
      return Success;
    }

    method ScanFunction(bus: nat, device: nat, fn: nat, ghost depth: nat) returns (err: Error)
      requires Valid() && MAX_DEVICES - numDevice <= depth
      modifies `numDevice, devices
      ensures Valid() && numDevice >= old(numDevice)
      ensures Outcome(old(Found()), FunctionTree(cfg, bus, device, fn, depth), Found(), err)
      decreases MAX_DEVICES - numDevice, 0
    {
      hide BusTree, Outcome;
      var r := cfg(bus, device, fn);
      ghost var before, head := Found(), [DeviceAt(cfg, bus, device, fn)];
      err := AddDevice(DeviceAt(cfg, bus, device, fn));
      if err != Success || !r.IsBridge() {
        ghost var below := if r.IsBridge() && depth > 0 then BusTree(cfg, r.SecondaryBus(), 0, depth - 1) else [];
        assert head + below == FunctionTree(cfg, bus, device, fn, depth);
        OutcomeThen(before, head, Found(), err, below);
        assert below == [] ==> head + below == head;
        return err;
      }
      ghost var mid, below := Found(), BusTree(cfg, r.SecondaryBus(), 0, depth - 1);
      OutcomeThen(before, head, mid, err, below);
      err := ScanBus(r.SecondaryBus(), depth - 1);
      OutcomeMoves(before, head + below, mid, below, Found(), err);
    }

    method ScanDevice(bus: nat, device: nat, ghost depth: nat) returns (err: Error)
      requires Valid() && MAX_DEVICES - numDevice <= depth
      modifies `numDevice, devices
      ensures Valid() && numDevice >= old(numDevice)
      ensures Outcome(old(Found()), DeviceTree(cfg, bus, device, depth), Found(), err)
      decreases MAX_DEVICES - numDevice, 1
    {
      hide FunctionTree, FunctionsFrom, Outcome;
      ghost var before, wanted := Found(), DeviceTree(cfg, bus, device, depth);
      ghost var first := FunctionTree(cfg, bus, device, 0, depth);
      err := ScanFunction(bus, device, 0, depth);
      ghost var rest := if cfg(bus, device, 0).IsSingleFunction() then []
          else FunctionsFrom(cfg, bus, device, 1, depth);
      assert wanted == first + rest;
      OutcomeThen(before, first, Found(), err, rest);
      if err != Success {
        return err;
      }
      if cfg(bus, device, 0).IsSingleFunction() {
        OutcomeComplete(before, wanted, Found());
        return Success;
      }
      var fn := 1;
      while fn < FUNCTIONS_PER_DEVICE
        invariant 1 <= fn <= FUNCTIONS_PER_DEVICE && Valid() && numDevice >= old(numDevice)
        invariant before + wanted == Found() + FunctionsFrom(cfg, bus, device, fn, depth)
      {
        FunctionsUnfold(cfg, bus, device, fn, depth);
        if cfg(bus, device, fn).Present() {
          ghost var mid, part, later := Found(), FunctionTree(cfg, bus, device, fn, depth),
              FunctionsFrom(cfg, bus, device, fn + 1, depth);
          err := ScanFunction(bus, device, fn, depth);
          if err != Success {
            OutcomeStops(before, wanted, mid, part, later, Found(), err);
            return err;
          }
          OutcomeThen(mid, part, Found(), err, later);
        }
        fn := fn + 1;
      }
      FunctionsUnfold(cfg, bus, device, 0, depth);
      OutcomeComplete(before, wanted, Found());
      return Success;
    }

    method ScanBus(bus: nat, ghost depth: nat) returns (err: Error)
      requires Valid() && MAX_DEVICES - numDevice <= depth
      modifies `numDevice, devices
      ensures Valid() && numDevice >= old(numDevice)
      ensures Outcome(old(Found()), BusTree(cfg, bus, 0, depth), Found(), err)
      decreases MAX_DEVICES - numDevice, 2
    {
      hide BusTree, DeviceTree, Outcome;
      ghost var before, wanted := Found(), BusTree(cfg, bus, 0, depth);
      var device := 0;
      while device < DEVICES_PER_BUS
        invariant 0 <= device <= DEVICES_PER_BUS && Valid() && numDevice >= old(numDevice)
        invariant before + wanted == Found() + BusTree(cfg, bus, device, depth)
      {
        BusUnfold(cfg, bus, device, depth);
        if cfg(bus, device, 0).Present() {
          ghost var mid, part, later := Found(), DeviceTree(cfg, bus, device, depth),
              BusTree(cfg, bus, device + 1, depth);
          err := ScanDevice(bus, device, depth);
          if err != Success {
            OutcomeStops(before, wanted, mid, part, later, Found(), err);
            return err;
          }
          OutcomeThen(mid, part, Found(), err, later);
        }
        device := device + 1;
      }
      BusUnfold(cfg, bus, 0, depth);
      OutcomeComplete(before, wanted, Found());
      return Success;
    }

    /**
     * Terminates for every configuration space. The table holds the preorder of all functions,
     * or its first 32 entries when there are more, however deep the bridges are followed.
     */
    method ScanAllBus() returns (err: Error)
      requires Valid()
      modifies `numDevice, devices
      ensures Valid() && forall depth :: depth >= MAX_DEVICES ==> Outcome([], AllDevices(cfg, depth), Found(), err)
      ensures forall depth :: depth >= MAX_DEVICES ==> InOrder(cfg, Found(), err, depth)
      ensures TableExact(cfg, Found(), err)
    {
      hide AllDevices, Outcome;
      err := ScanRoots(MAX_DEVICES);
      forall depth | depth >= MAX_DEVICES ensures Outcome([], AllDevices(cfg, depth), Found(), err) {
        AllDevicesDepth(cfg, MAX_DEVICES, depth, MAX_DEVICES + 1);
        OutcomeTake(AllDevices(cfg, MAX_DEVICES), AllDevices(cfg, depth), Found(), err);
      }
      hide InOrder, TableExact;
      forall depth | depth >= MAX_DEVICES ensures InOrder(cfg, Found(), err, depth) {
        OutcomeInOrder(cfg, Found(), err, depth);
      }
      OutcomeExact(cfg, Found(), err);
    }

    /** The scan of the root buses, for one depth of the reference. */
    method ScanRoots(ghost depth: nat) returns (err: Error)
      requires Valid() && MAX_DEVICES <= depth
      modifies `numDevice, devices
      ensures Valid() && Outcome([], AllDevices(cfg, depth), Found(), err)
    {
      hide BusTree, RootsFrom, Outcome;
      numDevice := 0;
      assert Found() == [];
      if cfg(0, 0, 0).IsSingleFunction() {
        err := ScanBus(0, depth);
        return err;
      }
      ghost var wanted := RootsFrom(cfg, 0, depth);
      var fn := 0;
      while fn < FUNCTIONS_PER_DEVICE
        invariant 0 <= fn <= FUNCTIONS_PER_DEVICE && Valid()
        invariant [] + wanted == Found() + RootsFrom(cfg, fn, depth)
      {
        RootsUnfold(cfg, fn, depth);
        if cfg(0, 0, fn).Present() {
          ghost var mid, part, later := Found(), BusTree(cfg, fn, 0, depth), RootsFrom(cfg, fn + 1, depth);
          err := ScanBus(fn, depth);
          if err != Success {
            OutcomeStops([], wanted, mid, part, later, Found(), err);
            return err;
          }
          OutcomeThen(mid, part, Found(), err, later);
        }
        fn := fn + 1;
      }
      RootsUnfold(cfg, 0, depth);
      OutcomeComplete([], wanted, Found());
      return Success;
    }
  }
}
