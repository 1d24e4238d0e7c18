/** The functions that a scan of the PCI buses meets, in the order of the scan (Kernel/pci.cpp). */
module PciTree {

  const MAX_DEVICES := 32
  const DEVICES_PER_BUS := 32
  const FUNCTIONS_PER_DEVICE := 8
  const NO_VENDOR := 0xffff

  /** The configuration registers of one function that the scan reads. */
  datatype Registers = Registers(vendorId: nat, headerType: nat, baseClass: nat, subClass: nat, interface: nat,
    busNumbers: nat) {
    predicate Present() {
      vendorId != NO_VENDOR
    }

    predicate IsSingleFunction() {
      headerType / 0x80 % 2 == 0
    }

    predicate IsBridge() {
      baseClass == 0x06 && subClass == 0x04
    }

    function SecondaryBus(): nat {
      busNumbers / 0x100 % 0x100
    }
  }

  /** The configuration space: any registers for any bus, device and function number. */
  type ConfigSpace = (nat, nat, nat) -> Registers

  datatype Device = Device(bus: nat, device: nat, function_: nat, headerType: nat, baseClass: nat, subClass: nat,
    interface: nat)

  function DeviceAt(cfg: ConfigSpace, bus: nat, device: nat, fn: nat): Device {
    var r := cfg(bus, device, fn);
    Device(bus, device, fn, r.headerType, r.baseClass, r.subClass, r.interface)
  }

  // The reference: the depth-first preorder of all present functions, following bridges at most
  // `depth` deep. Bridges may form cycles, so without a bound the preorder can be infinite.

  function FunctionTree(cfg: ConfigSpace, bus: nat, device: nat, fn: nat, depth: nat): seq<Device>
    decreases depth, 0
  {
    [DeviceAt(cfg, bus, device, fn)] +
    if cfg(bus, device, fn).IsBridge() && depth > 0
      then BusTree(cfg, cfg(bus, device, fn).SecondaryBus(), 0, depth - 1) else []
  }

  function FunctionsFrom(cfg: ConfigSpace, bus: nat, device: nat, fn: nat, depth: nat): seq<Device>
    requires fn <= FUNCTIONS_PER_DEVICE
    decreases depth, 1, FUNCTIONS_PER_DEVICE - fn
  {
    if fn == FUNCTIONS_PER_DEVICE then []
    else (if cfg(bus, device, fn).Present() then FunctionTree(cfg, bus, device, fn, depth) else [])
         + FunctionsFrom(cfg, bus, device, fn + 1, depth)
  }

  function DeviceTree(cfg: ConfigSpace, bus: nat, device: nat, depth: nat): seq<Device>
    decreases depth, 2
  {
    FunctionTree(cfg, bus, device, 0, depth)
    + if cfg(bus, device, 0).IsSingleFunction() then [] else FunctionsFrom(cfg, bus, device, 1, depth)
  }

  /** The devices of a bus numbered `device` and up. */
  function BusTree(cfg: ConfigSpace, bus: nat, device: nat, depth: nat): seq<Device>
    requires device <= DEVICES_PER_BUS
    decreases depth, 3, DEVICES_PER_BUS - device
  {
    if device == DEVICES_PER_BUS then []
    else (if cfg(bus, device, 0).Present() then DeviceTree(cfg, bus, device, depth) else [])
         + BusTree(cfg, bus, device + 1, depth)
  }

  /** A multi-function host bridge has one root bus for each of its functions. */
  function RootsFrom(cfg: ConfigSpace, fn: nat, depth: nat): seq<Device>
    requires fn <= FUNCTIONS_PER_DEVICE
    decreases FUNCTIONS_PER_DEVICE - fn
  {
    if fn == FUNCTIONS_PER_DEVICE then []
    else (if cfg(0, 0, fn).Present() then BusTree(cfg, fn, 0, depth) else []) + RootsFrom(cfg, fn + 1, depth)
  }

  function AllDevices(cfg: ConfigSpace, depth: nat): seq<Device> {
    if cfg(0, 0, 0).IsSingleFunction() then BusTree(cfg, 0, 0, depth) else RootsFrom(cfg, 0, depth)
  }

  function Take(s: seq<Device>, n: nat): seq<Device> {
    if |s| <= n then s else s[..n]
  }

  lemma TakeConcat(a: seq<Device>, b: seq<Device>, a': seq<Device>, b': seq<Device>, n: nat)
    requires Take(a, n) == Take(a', n)
    requires |a| <= n && |a'| <= n ==> Take(b, n - |a|) == Take(b', n - |a|)
    ensures Take(a + b, n) == Take(a' + b', n)
  {
  }

  // The first n entries of the preorder do not depend on the depth bound, once it is at least n - 1.

  lemma {:induction false} FunctionTreeDepth(cfg: ConfigSpace, bus: nat, device: nat, fn: nat, d: nat, d': nat, n: nat)
    requires n <= d + 1 && n <= d' + 1
    ensures Take(FunctionTree(cfg, bus, device, fn, d), n) == Take(FunctionTree(cfg, bus, device, fn, d'), n)
    decreases n, 0
  {
    hide BusTree, DeviceTree, FunctionsFrom;
    var r, head := cfg(bus, device, fn), [DeviceAt(cfg, bus, device, fn)];
    if n > 1 && r.IsBridge() {
      BusTreeDepth(cfg, r.SecondaryBus(), 0, d - 1, d' - 1, n - 1);
      TakeConcat(head, BusTree(cfg, r.SecondaryBus(), 0, d - 1), head, BusTree(cfg, r.SecondaryBus(), 0, d' - 1), n);
    }
  }

  lemma {:induction false} FunctionsDepth(cfg: ConfigSpace, bus: nat, device: nat, fn: nat, d: nat, d': nat, n: nat)
    requires n <= d + 1 && n <= d' + 1 && fn <= FUNCTIONS_PER_DEVICE
    ensures Take(FunctionsFrom(cfg, bus, device, fn, d), n) == Take(FunctionsFrom(cfg, bus, device, fn, d'), n)
    decreases n, 1, FUNCTIONS_PER_DEVICE - fn
  {
    hide FunctionTree, DeviceTree, BusTree;
    if fn < FUNCTIONS_PER_DEVICE {
      var part := if cfg(bus, device, fn).Present() then FunctionTree(cfg, bus, device, fn, d) else [];
      var part' := if cfg(bus, device, fn).Present() then FunctionTree(cfg, bus, device, fn, d') else [];
      FunctionTreeDepth(cfg, bus, device, fn, d, d', n);
      if |part| <= n {
        FunctionsDepth(cfg, bus, device, fn + 1, d, d', n - |part|);
      }
      TakeConcat(part, FunctionsFrom(cfg, bus, device, fn + 1, d), part', FunctionsFrom(cfg, bus, device, fn + 1, d'),
        n);
    }
  }

  lemma {:induction false} BusTreeDepth(cfg: ConfigSpace, bus: nat, device: nat, d: nat, d': nat, n: nat)
    requires n <= d + 1 && n <= d' + 1 && device <= DEVICES_PER_BUS
    ensures Take(BusTree(cfg, bus, device, d), n) == Take(BusTree(cfg, bus, device, d'), n)
    decreases n, 2, DEVICES_PER_BUS - device
  {
    hide FunctionTree, FunctionsFrom;
    if device < DEVICES_PER_BUS {
      var part := if cfg(bus, device, 0).Present() then DeviceTree(cfg, bus, device, d) else [];
      var part' := if cfg(bus, device, 0).Present() then DeviceTree(cfg, bus, device, d') else [];
      FunctionTreeDepth(cfg, bus, device, 0, d, d', n);
      var first := FunctionTree(cfg, bus, device, 0, d);
      if |first| <= n && !cfg(bus, device, 0).IsSingleFunction() {
        FunctionsDepth(cfg, bus, device, 1, d, d', n - |first|);
        TakeConcat(first, FunctionsFrom(cfg, bus, device, 1, d),
                   FunctionTree(cfg, bus, device, 0, d'), FunctionsFrom(cfg, bus, device, 1, d'), n);
      } else {
        TakeConcat(first, if cfg(bus, device, 0).IsSingleFunction() then [] else FunctionsFrom(cfg, bus, device, 1, d),
                   FunctionTree(cfg, bus, device, 0, d'),
                   if cfg(bus, device, 0).IsSingleFunction() then [] else FunctionsFrom(cfg, bus, device, 1, d'), n);
      }
      if |part| <= n {
        BusTreeDepth(cfg, bus, device + 1, d, d', n - |part|);
      }
      TakeConcat(part, BusTree(cfg, bus, device + 1, d), part', BusTree(cfg, bus, device + 1, d'), n);
    }
  }

  lemma {:induction false} RootsDepth(cfg: ConfigSpace, fn: nat, d: nat, d': nat, n: nat)
    requires n <= d + 1 && n <= d' + 1 && fn <= FUNCTIONS_PER_DEVICE
    ensures Take(RootsFrom(cfg, fn, d), n) == Take(RootsFrom(cfg, fn, d'), n)
    decreases FUNCTIONS_PER_DEVICE - fn
  {
    hide BusTree;
    if fn < FUNCTIONS_PER_DEVICE {
      var part := if cfg(0, 0, fn).Present() then BusTree(cfg, fn, 0, d) else [];
      var part' := if cfg(0, 0, fn).Present() then BusTree(cfg, fn, 0, d') else [];
      BusTreeDepth(cfg, fn, 0, d, d', n);
      if |part| <= n {
        RootsDepth(cfg, fn + 1, d, d', n - |part|);
      }
      TakeConcat(part, RootsFrom(cfg, fn + 1, d), part', RootsFrom(cfg, fn + 1, d'), n);
    }
  }

  /** The first n functions of all buses, in preorder, are the same for all depths of at least n - 1. */
  lemma AllDevicesDepth(cfg: ConfigSpace, d: nat, d': nat, n: nat)
    requires n <= d + 1 && n <= d' + 1
    ensures Take(AllDevices(cfg, d), n) == Take(AllDevices(cfg, d'), n)
  {
    hide BusTree, RootsFrom;
    BusTreeDepth(cfg, 0, 0, d, d', n);
    RootsDepth(cfg, 0, d, d', n);
  }
}
