/**
 * What the scan of the PCI buses meets, and in what order, said without following it: by the paths
 * through bridges that lead to each function.
 */
module PciOrder {
  import opened PciTree

  /** One step of a path: a device and function number on some bus. */
  datatype Hop = Hop(device: nat, fn: nat) {
    function Rank(): nat {
      8 * device + fn
    }
  }

  /**
   * A function is looked at if function 0 of its device is there, and it is that one or there, too,
   * on a multi-function device.
   */
  predicate LookedAt(cfg: ConfigSpace, bus: nat, h: Hop) {
    && h.device < 32 && h.fn < 8 && cfg(bus, h.device, 0).vendorId != 0xffff
    && (h.fn == 0 || (cfg(bus, h.device, 0).headerType / 0x80 % 2 == 1 && cfg(bus, h.device, h.fn).vendorId != 0xffff))
  }

  /** The function is a PCI-to-PCI bridge. */
  predicate Leads(cfg: ConfigSpace, bus: nat, h: Hop) {
    cfg(bus, h.device, h.fn).baseClass == 0x06 && cfg(bus, h.device, h.fn).subClass == 0x04
  }

  function BusBehind(cfg: ConfigSpace, bus: nat, h: Hop): nat {
    cfg(bus, h.device, h.fn).busNumbers / 0x100 % 0x100
  }

  /** Every hop is looked at on its bus, and all but the last are bridges to the next bus. */
  predicate IsPath(cfg: ConfigSpace, bus: nat, path: seq<Hop>)
    decreases |path|
  {
    && path != [] && LookedAt(cfg, bus, path[0])
    && (|path| == 1 || (Leads(cfg, bus, path[0]) && IsPath(cfg, BusBehind(cfg, bus, path[0]), path[1..])))
  }

  /** The function that a path ends at, with what its registers hold. */
  function EndOf(cfg: ConfigSpace, bus: nat, path: seq<Hop>): Device
    requires path != []
    decreases |path|
  {
    var h := path[0];
    if |path| == 1 then
      Device(bus, h.device, h.fn, cfg(bus, h.device, h.fn).headerType, cfg(bus, h.device, h.fn).baseClass,
             cfg(bus, h.device, h.fn).subClass, cfg(bus, h.device, h.fn).interface)
    else EndOf(cfg, BusBehind(cfg, bus, h), path[1..])
  }

  /** Paths in the order of a directory: a bridge before what lies behind it, lower numbers first. */
  predicate Before(a: seq<Hop>, b: seq<Hop>) {
    b != [] && (a == [] || a[0].Rank() < b[0].Rank() || (a[0] == b[0] && Before(a[1..], b[1..])))
  }

  ghost predicate Listed(cfg: ConfigSpace, bus: nat, list: seq<Device>, paths: seq<seq<Hop>>, depth: nat) {
    && |paths| == |list|
    && (forall i :: 0 <= i < |paths| ==>
          IsPath(cfg, bus, paths[i]) && |paths[i]| <= depth + 1 && EndOf(cfg, bus, paths[i]) == list[i])
    && (forall i, j :: 0 <= i < j < |paths| ==> Before(paths[i], paths[j]))
  }

  /** A path from the bus with at most so many bridges, whose first hop has a number from lo to below hi. */
  predicate InRange(cfg: ConfigSpace, bus: nat, path: seq<Hop>, lo: nat, hi: nat, depth: nat) {
    IsPath(cfg, bus, path) && |path| <= depth + 1 && lo <= path[0].Rank() < hi
  }

  /** The list is that of all paths in the range, in order. */
  ghost predicate Segment(cfg: ConfigSpace, bus: nat, list: seq<Device>, paths: seq<seq<Hop>>, lo: nat, hi: nat,
      depth: nat) {
    && Listed(cfg, bus, list, paths, depth)
    && forall q :: InRange(cfg, bus, q, lo, hi, depth) <==> q in paths
  }

  lemma RangesMeet(cfg: ConfigSpace, bus: nat, q: seq<Hop>, lo: nat, mid: nat, hi: nat, depth: nat)
    requires lo <= mid <= hi
    ensures InRange(cfg, bus, q, lo, hi, depth) <==>
      InRange(cfg, bus, q, lo, mid, depth) || InRange(cfg, bus, q, mid, hi, depth)
  {
  }

  lemma Joined(cfg: ConfigSpace, bus: nat, list: seq<Device>, paths: seq<seq<Hop>>, list': seq<Device>,
      paths': seq<seq<Hop>>, lo: nat, mid: nat, hi: nat, depth: nat)
    requires lo <= mid <= hi && Segment(cfg, bus, list, paths, lo, mid, depth)
    requires Segment(cfg, bus, list', paths', mid, hi, depth)
    ensures Segment(cfg, bus, list + list', paths + paths', lo, hi, depth)
  {
    hide EndOf;
    var all := paths + paths';
    forall i, j | 0 <= i < j < |all| ensures Before(all[i], all[j]) {
      if i < |paths| <= j {
        assert paths[i] in paths && paths'[j - |paths|] in paths';
        assert InRange(cfg, bus, paths[i], lo, mid, depth) && InRange(cfg, bus, paths'[j - |paths|], mid, hi, depth);
        assert all[i] == paths[i] && all[j] == paths'[j - |paths|] && all[j] != [];
      } else if j < |paths| {
        assert all[i] == paths[i] && all[j] == paths[j];
      } else {
        assert all[i] == paths'[i - |paths|] && all[j] == paths'[j - |paths|];
      }
    }
    forall q ensures InRange(cfg, bus, q, lo, hi, depth) <==> q in all {
      RangesMeet(cfg, bus, q, lo, mid, hi, depth);
    }
  }

  /** Nothing in the range is looked at. */
  lemma NoneListed(cfg: ConfigSpace, bus: nat, lo: nat, hi: nat, depth: nat)
    requires forall h: Hop :: lo <= h.Rank() < hi ==> !LookedAt(cfg, bus, h)
    ensures Segment(cfg, bus, [], [], lo, hi, depth)
  {
  }

  /** The hop with a number is known by its device and function. */
  lemma OneHop(h: Hop, device: nat, fn: nat)
    requires h.fn < 8 && fn < 8
    ensures h.Rank() == 8 * device + fn <==> h == Hop(device, fn)
    ensures 8 * device <= h.Rank() < 8 * device + 8 <==> h.device == device
  {
  }

  function Behind(h: Hop, paths: seq<seq<Hop>>): seq<seq<Hop>> {
    seq(|paths|, i requires 0 <= i < |paths| => [h] + paths[i])
  }

  /** All paths that begin with one hop: the hop itself and, behind a bridge, all paths from the bus there. */
  lemma HopListed(cfg: ConfigSpace, bus: nat, h: Hop, list: seq<Device>, paths: seq<seq<Hop>>, depth: nat)
    requires LookedAt(cfg, bus, h)
    requires if Leads(cfg, bus, h) && depth > 0
      then Segment(cfg, BusBehind(cfg, bus, h), list, paths, 0, 256, depth - 1)
             else list == [] && paths == []
    ensures Segment(cfg, bus, [EndOf(cfg, bus, [h])] + list, [[h]] + Behind(h, paths), h.Rank(), h.Rank() + 1, depth)
  {
    var all, next := [[h]] + Behind(h, paths), BusBehind(cfg, bus, h);
    forall i | 0 <= i < |paths| ensures ([h] + paths[i])[1..] == paths[i] {}
    forall i | 0 < i < |all|
      ensures IsPath(cfg, bus, all[i]) && |all[i]| <= depth + 1 && EndOf(cfg, bus, all[i]) == list[i - 1]
    {
      assert all[i] == [h] + paths[i - 1] && all[i][1..] == paths[i - 1];
      assert IsPath(cfg, next, paths[i - 1]);
    }
    forall i, j | 0 <= i < j < |all| ensures Before(all[i], all[j]) {
      assert all[j] == [h] + paths[j - 1] && all[j][1..] == paths[j - 1] && paths[j - 1] != [];
      if i > 0 {
        assert all[i] == [h] + paths[i - 1] && all[i][1..] == paths[i - 1];
      }
    }
    forall q ensures InRange(cfg, bus, q, h.Rank(), h.Rank() + 1, depth) <==> q in all {
      HopPaths(cfg, bus, h, list, paths, depth, q);
    }
  }

  lemma HopPaths(cfg: ConfigSpace, bus: nat, h: Hop, list: seq<Device>, paths: seq<seq<Hop>>, depth: nat, q: seq<Hop>)
    requires LookedAt(cfg, bus, h)
    requires if Leads(cfg, bus, h) && depth > 0
      then Segment(cfg, BusBehind(cfg, bus, h), list, paths, 0, 256, depth - 1)
             else list == [] && paths == []
    ensures InRange(cfg, bus, q, h.Rank(), h.Rank() + 1, depth) <==> q in [[h]] + Behind(h, paths)
  {
    hide Segment, BusBehind, LookedAt, Leads, IsPath, InRange;
    InBehind(h, paths, q);
    PathBegins(cfg, bus, h, q, depth);
    if Leads(cfg, bus, h) && depth > 0 && q != [] {
      SegmentPaths(cfg, BusBehind(cfg, bus, h), list, paths, 0, 256, depth - 1, q[1..]);
    }
  }

  lemma SegmentPaths(cfg: ConfigSpace, bus: nat, list: seq<Device>, paths: seq<seq<Hop>>, lo: nat, hi: nat, depth: nat,
      q: seq<Hop>)
    requires Segment(cfg, bus, list, paths, lo, hi, depth)
    ensures InRange(cfg, bus, q, lo, hi, depth) <==> q in paths
  {
  }

  lemma InBehind(h: Hop, paths: seq<seq<Hop>>, q: seq<Hop>)
    ensures q in [[h]] + Behind(h, paths) <==> q != [] && q[0] == h && (|q| == 1 || q[1..] in paths)
  {
    var all := [[h]] + Behind(h, paths);
    if i :| 0 <= i < |all| && all[i] == q {
      if i > 0 {
        assert q == [h] + paths[i - 1] && q[1..] == paths[i - 1];
      }
    }
    if q != [] && q[0] == h {
      assert q == [h] + q[1..];
      if |q| == 1 {
        assert all[0] == q;
      } else if q[1..] in paths {
        var i :| 0 <= i < |paths| && paths[i] == q[1..];
        assert all[i + 1] == q;
      }
    }
  }

  /** A path that begins with a hop is that hop alone, or goes on behind it. */
  lemma PathBegins(cfg: ConfigSpace, bus: nat, h: Hop, q: seq<Hop>, depth: nat)
    requires LookedAt(cfg, bus, h)
    ensures InRange(cfg, bus, q, h.Rank(), h.Rank() + 1, depth) <==>
      q != [] && q[0] == h &&
      (|q| == 1 || (Leads(cfg, bus, h) && depth > 0 && InRange(cfg, BusBehind(cfg, bus, h), q[1..], 0, 256, depth - 1)))
  {
    if q != [] && q[0].fn < 8 {
      OneHop(q[0], h.device, h.fn);
    }
    if |q| > 1 && q[0] == h {
      var next, rest := BusBehind(cfg, bus, h), q[1..];
      assert IsPath(cfg, next, rest) ==> LookedAt(cfg, next, rest[0]) && rest[0].Rank() < 256;
      assert IsPath(cfg, bus, q) <==> Leads(cfg, bus, h) && IsPath(cfg, next, rest);
    }
  }

  // The scan lists exactly the paths, in order, bus by bus.

  lemma {:induction false} FunctionListed(cfg: ConfigSpace, bus: nat, device: nat, fn: nat, depth: nat)
    returns (paths: seq<seq<Hop>>)
    requires LookedAt(cfg, bus, Hop(device, fn))
    ensures Segment(cfg, bus, FunctionTree(cfg, bus, device, fn, depth), paths, 8 * device + fn, 8 * device + fn + 1,
      depth)
    decreases depth, 0
  {
    hide Segment, BusTree, LookedAt;
    var h, below, list := Hop(device, fn), [], [];
    if cfg(bus, device, fn).IsBridge() && depth > 0 {
      list := BusTree(cfg, BusBehind(cfg, bus, h), 0, depth - 1);
      below := BusListed(cfg, BusBehind(cfg, bus, h), 0, depth - 1);
    }
    HopListed(cfg, bus, h, list, below, depth);
    paths := [[h]] + Behind(h, below);
  }

  lemma {:induction false} FunctionsListed(cfg: ConfigSpace, bus: nat, device: nat, fn: nat, depth: nat)
    returns (paths: seq<seq<Hop>>)
    requires device < 32 && 1 <= fn <= 8
    requires cfg(bus, device, 0).vendorId != 0xffff && cfg(bus, device, 0).headerType / 0x80 % 2 == 1
    ensures Segment(cfg, bus, FunctionsFrom(cfg, bus, device, fn, depth), paths, 8 * device + fn, 8 * device + 8, depth)
    decreases depth, 1, 8 - fn
  {
    hide Segment, FunctionTree;
    if fn == 8 {
      NoneListed(cfg, bus, 8 * device + 8, 8 * device + 8, depth);
      paths := [];
    } else {
      var first := [];
      if cfg(bus, device, fn).Present() {
        first := FunctionListed(cfg, bus, device, fn, depth);
      } else {
        NotThere(cfg, bus, device, fn, depth);
      }
      var later := FunctionsListed(cfg, bus, device, fn + 1, depth);
      Joined(cfg, bus, if cfg(bus, device, fn).Present() then FunctionTree(cfg, bus, device, fn, depth) else [], first,
             FunctionsFrom(cfg, bus, device, fn + 1, depth), later,
             8 * device + fn, 8 * device + fn + 1, 8 * device + 8, depth);
      paths := first + later;
    }
  }

  lemma NotThere(cfg: ConfigSpace, bus: nat, device: nat, fn: nat, depth: nat)
    requires fn < 8 && cfg(bus, device, fn).vendorId == 0xffff
    ensures Segment(cfg, bus, [], [], 8 * device + fn, 8 * device + fn + 1, depth)
  {
    forall h: Hop | 8 * device + fn <= h.Rank() < 8 * device + fn + 1 ensures !LookedAt(cfg, bus, h) {
      if h.fn < 8 {
        OneHop(h, device, fn);
      }
    }
    NoneListed(cfg, bus, 8 * device + fn, 8 * device + fn + 1, depth);
  }

  /** The rest of a device that is not there, or has a single function. */
  lemma NoOthers(cfg: ConfigSpace, bus: nat, device: nat, fn: nat, depth: nat)
    requires fn <= 1 && (fn == 0 ==> cfg(bus, device, 0).vendorId == 0xffff)
    requires fn == 1 ==> cfg(bus, device, 0).headerType / 0x80 % 2 == 0
    ensures Segment(cfg, bus, [], [], 8 * device + fn, 8 * device + 8, depth)
  {
    forall h: Hop | 8 * device + fn <= h.Rank() < 8 * device + 8 ensures !LookedAt(cfg, bus, h) {
      if h.fn < 8 {
        OneHop(h, device, 0);
      }
    }
    NoneListed(cfg, bus, 8 * device + fn, 8 * device + 8, depth);
  }

  lemma {:induction false} DeviceListed(cfg: ConfigSpace, bus: nat, device: nat,
      depth: nat) returns (paths: seq<seq<Hop>>)
    requires device < 32 && cfg(bus, device, 0).vendorId != 0xffff
    ensures Segment(cfg, bus, DeviceTree(cfg, bus, device, depth), paths, 8 * device, 8 * device + 8, depth)
    decreases depth, 2
  {
    hide Segment, FunctionTree, FunctionsFrom;
    var first := FunctionListed(cfg, bus, device, 0, depth);
    var others, list := [], [];
    if cfg(bus, device, 0).IsSingleFunction() {
      NoOthers(cfg, bus, device, 1, depth);
    } else {
      others := FunctionsListed(cfg, bus, device, 1, depth);
      list := FunctionsFrom(cfg, bus, device, 1, depth);
    }
    Joined(cfg, bus, FunctionTree(cfg, bus, device, 0, depth), first, list, others,
           8 * device, 8 * device + 1, 8 * device + 8, depth);
    paths := first + others;
  }

  lemma {:induction false} BusListed(cfg: ConfigSpace, bus: nat, device: nat, depth: nat) returns (paths: seq<seq<Hop>>)
    requires device <= 32
    ensures Segment(cfg, bus, BusTree(cfg, bus, device, depth), paths, 8 * device, 256, depth)
    decreases depth, 3, 32 - device
  {
    hide Segment, DeviceTree;
    if device == 32 {
      NoneListed(cfg, bus, 256, 256, depth);
      paths := [];
    } else {
      var first := [];
      if cfg(bus, device, 0).Present() {
        first := DeviceListed(cfg, bus, device, depth);
      } else {
        NoOthers(cfg, bus, device, 0, depth);
      }
      var later := BusListed(cfg, bus, device + 1, depth);
      Joined(cfg, bus, if cfg(bus, device, 0).Present() then DeviceTree(cfg, bus, device, depth) else [], first,
             BusTree(cfg, bus, device + 1, depth), later, 8 * device, 8 * (device + 1), 256, depth);
      paths := first + later;
    }
  }

  // The root buses.

  /** A multi-function host bridge has one root bus for each function that is there; else bus 0 is the only one. */
  predicate IsRoot(cfg: ConfigSpace, bus: nat) {
    if cfg(0, 0, 0).headerType / 0x80 % 2 == 0 then bus == 0 else bus < 8 && cfg(0, 0, bus).vendorId != 0xffff
  }

  datatype Route = Route(root: nat, path: seq<Hop>)

  predicate IsRoute(cfg: ConfigSpace, r: Route, depth: nat) {
    IsRoot(cfg, r.root) && IsPath(cfg, r.root, r.path) && |r.path| <= depth + 1
  }

  predicate RouteBefore(a: Route, b: Route) {
    a.root < b.root || (a.root == b.root && Before(a.path, b.path))
  }

  /** The list is that of the functions at the ends of all routes from the roots lo to below hi, in order. */
  ghost predicate RoutesListed(cfg: ConfigSpace, list: seq<Device>, routes: seq<Route>, lo: nat, hi: nat, depth: nat) {
    && |routes| == |list|
    && (forall i :: 0 <= i < |routes| ==>
          routes[i].path != [] && EndOf(cfg, routes[i].root, routes[i].path) == list[i])
    && (forall i, j :: 0 <= i < j < |routes| ==> RouteBefore(routes[i], routes[j]))
    && forall r :: IsRoute(cfg, r, depth) && lo <= r.root < hi <==> r in routes
  }

  function From(root: nat, paths: seq<seq<Hop>>): seq<Route> {
    seq(|paths|, i requires 0 <= i < |paths| => Route(root, paths[i]))
  }

  /** All routes from one root. */
  lemma RootListed(cfg: ConfigSpace, root: nat, list: seq<Device>, paths: seq<seq<Hop>>, depth: nat)
    requires IsRoot(cfg, root) && Segment(cfg, root, list, paths, 0, 256, depth)
    ensures RoutesListed(cfg, list, From(root, paths), root, root + 1, depth)
  {
    hide EndOf;
    var routes := From(root, paths);
    forall r ensures IsRoute(cfg, r, depth) && root <= r.root < root + 1 <==> r in routes {
      if IsRoute(cfg, r, depth) && r.root == root {
        assert InRange(cfg, root, r.path, 0, 256, depth);
        var i :| 0 <= i < |paths| && paths[i] == r.path;
        assert routes[i] == r;
      }
      if r in routes {
        var i :| 0 <= i < |routes| && routes[i] == r;
        assert paths[i] in paths && InRange(cfg, root, paths[i], 0, 256, depth);
      }
    }
  }

  lemma NoRoot(cfg: ConfigSpace, lo: nat, hi: nat, depth: nat)
    requires forall root: nat :: lo <= root < hi ==> !IsRoot(cfg, root)
    ensures RoutesListed(cfg, [], [], lo, hi, depth)
  {
  }

  lemma RoutesJoined(cfg: ConfigSpace, list: seq<Device>, routes: seq<Route>, list': seq<Device>, routes': seq<Route>,
      lo: nat, mid: nat, hi: nat, depth: nat)
    requires lo <= mid <= hi && RoutesListed(cfg, list, routes, lo, mid, depth)
    requires RoutesListed(cfg, list', routes', mid, hi, depth)
    ensures RoutesListed(cfg, list + list', routes + routes', lo, hi, depth)
  {
    hide EndOf, IsRoute, Before;
    var all := routes + routes';
    forall i, j | 0 <= i < j < |all| ensures RouteBefore(all[i], all[j]) {
      if i < |routes| <= j {
        assert routes[i] in routes && routes'[j - |routes|] in routes';
        assert all[i] == routes[i] && all[j] == routes'[j - |routes|];
      } else if j < |routes| {
        assert all[i] == routes[i] && all[j] == routes[j];
      } else {
        assert all[i] == routes'[i - |routes|] && all[j] == routes'[j - |routes|];
      }
    }
  }

  lemma {:induction false} RootsListed(cfg: ConfigSpace, fn: nat, depth: nat) returns (routes: seq<Route>)
    requires fn <= 8 && cfg(0, 0, 0).headerType / 0x80 % 2 == 1
    ensures RoutesListed(cfg, RootsFrom(cfg, fn, depth), routes, fn, 8, depth)
    decreases 8 - fn
  {
    hide RoutesListed, BusTree;
    if fn == 8 {
      NoRoot(cfg, 8, 8, depth);
      routes := [];
    } else {
      var first := [];
      if cfg(0, 0, fn).Present() {
        var paths := BusListed(cfg, fn, 0, depth);
        RootListed(cfg, fn, BusTree(cfg, fn, 0, depth), paths, depth);
        first := From(fn, paths);
      } else {
        NoRoot(cfg, fn, fn + 1, depth);
      }
      var later := RootsListed(cfg, fn + 1, depth);
      RoutesJoined(cfg, if cfg(0, 0, fn).Present() then BusTree(cfg, fn, 0, depth) else [], first,
                   RootsFrom(cfg, fn + 1, depth), later, fn, fn + 1, 8, depth);
      routes := first + later;
    }
  }

  /** All routes with at most so many bridges, each once and in order. */
  ghost predicate AllRoutes(cfg: ConfigSpace, routes: seq<Route>, depth: nat) {
    && (forall i :: 0 <= i < |routes| ==> IsRoute(cfg, routes[i], depth))
    && (forall r :: IsRoute(cfg, r, depth) ==> r in routes)
    && (forall i, j :: 0 <= i < j < |routes| ==> RouteBefore(routes[i], routes[j]))
  }

  /** The functions at their ends. */
  ghost predicate EndsOf(cfg: ConfigSpace, routes: seq<Route>, list: seq<Device>) {
    |routes| == |list| && forall i :: 0 <= i < |routes| ==>
      routes[i].path != [] && EndOf(cfg, routes[i].root, routes[i].path) == list[i]
  }

  /** What the scan meets: the ends of all routes, in order. */
  lemma AllDevicesListed(cfg: ConfigSpace, depth: nat) returns (routes: seq<Route>)
    ensures AllRoutes(cfg, routes, depth) && EndsOf(cfg, routes, AllDevices(cfg, depth))
  {
    hide BusTree, RootsFrom, EndOf;
    if cfg(0, 0, 0).IsSingleFunction() {
      var paths := BusListed(cfg, 0, 0, depth);
      RootListed(cfg, 0, BusTree(cfg, 0, 0, depth), paths, depth);
      routes := From(0, paths);
      RoutesComplete(cfg, AllDevices(cfg, depth), routes, 1, depth);
    } else {
      routes := RootsListed(cfg, 0, depth);
      RoutesComplete(cfg, AllDevices(cfg, depth), routes, 8, depth);
    }
  }

  lemma RoutesComplete(cfg: ConfigSpace, list: seq<Device>, routes: seq<Route>, hi: nat, depth: nat)
    requires RoutesListed(cfg, list, routes, 0, hi, depth) && forall root: nat :: IsRoot(cfg, root) ==> root < hi
    ensures AllRoutes(cfg, routes, depth) && EndsOf(cfg, routes, list)
  {
    hide EndOf, RouteBefore;
    forall i | 0 <= i < |routes| ensures IsRoute(cfg, routes[i], depth) {
      assert routes[i] in routes;
    }
  }

  /** The function is reached from a root bus through bridges. */
  ghost predicate Reached(cfg: ConfigSpace, d: Device) {
    exists r: Route, depth: nat :: IsRoute(cfg, r, depth) && r.path != [] && EndOf(cfg, r.root, r.path) == d
  }

  /**
   * For every depth of at least 32, a function is met if it can be reached with so many bridges,
   * and only if it can be reached.
   */
  lemma MetExactly(cfg: ConfigSpace, depth: nat, d: Device)
    ensures d in AllDevices(cfg, depth) ==> Reached(cfg, d)
    ensures forall r :: IsRoute(cfg, r, depth) && r.path != [] && EndOf(cfg, r.root, r.path) == d ==>
      d in AllDevices(cfg, depth)
  {
    hide AllDevices, EndOf;
    var routes := AllDevicesListed(cfg, depth);
    var list := AllDevices(cfg, depth);
    if d in list {
      var i :| 0 <= i < |list| && list[i] == d;
      assert IsRoute(cfg, routes[i], depth);
    }
    forall r | IsRoute(cfg, r, depth) && r.path != [] && EndOf(cfg, r.root, r.path) == d ensures d in list {
      var i :| 0 <= i < |routes| && routes[i] == r;
      assert list[i] == d;
    }
  }

  /** A route with few bridges is one with more allowed. */
  lemma DeeperRoute(cfg: ConfigSpace, r: Route, depth: nat, depth': nat)
    requires IsRoute(cfg, r, depth) && depth <= depth'
    ensures IsRoute(cfg, r, depth')
  {
  }
}
