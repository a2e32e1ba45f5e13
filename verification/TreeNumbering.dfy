/**
 Which addresses an enumeration hands out: on any bus they are consecutive, and on a tree of devices
 behind ports that may fail they number in preorder the devices that the ports let the walk in to.
 */
module TreeNumbering {
  import opened UsbErrors
  import opened TreeWalk
  import opened Wrappers
  import opened Arith

  /** The devices enumerated, in order, with their addresses. */
  function Enums(events: seq<Event>): seq<(Path, nat)> {
    if events == [] then []
    else (if events[0].Enumerated? then [(events[0].path, events[0].addr)] else []) + Enums(events[1..])
  }

  /** `paths` numbered from a on. */
  function Numbered(paths: seq<Path>, a: nat): (r: seq<(Path, nat)>)
    ensures |r| == |paths| && forall k :: 0 <= k < |r| ==> r[k] == (paths[k], a + k)
  {
    seq(|paths|, k requires 0 <= k < |paths| => (paths[k], a + k))
  }

  lemma EnumsOf(e: Event, rest: seq<Event>)
    ensures Enums([e] + rest) == (if e.Enumerated? then [(e.path, e.addr)] else []) + Enums(rest)
    ensures Enums([]) == []
  {
    assert ([e] + rest)[1..] == rest;
  }

  lemma {:induction false} EnumsAppend(a: seq<Event>, b: seq<Event>)
    ensures Enums(a + b) == Enums(a) + Enums(b)
  {
    hide Enums;
    if a == [] {
      assert a + b == b;
      EnumsOf(Reset([]), []);
    } else {
      EnumsAppend(a[1..], b);
      EnumsOf(a[0], a[1..]);
      EnumsOf(a[0], a[1..] + b);
      assert [a[0]] + a[1..] == a && [a[0]] + (a[1..] + b) == a + b;
    }
  }

  // ---- Any bus ------------------------------------------------------------------------------

  /** Entry k carries address a + k. */
  ghost predicate Consecutive(es: seq<(Path, nat)>, a: nat) {
    forall k :: 0 <= k < |es| ==> es[k].1 == a + k
  }

  /** Addresses run on from `next`; a walk that succeeds hands out all of next..w.next. */
  ghost predicate Numbers(w: Walk, next: nat) {
    && Consecutive(Enums(w.events), next) && next + |Enums(w.events)| <= w.next
    && (w.result == Ok(()) ==> next + |Enums(w.events)| == w.next)
  }

  lemma EnumerateNumbers(bus: Bus, path: Path, next: nat)
    requires next <= MAX_USB_ADDR
    ensures var w := Enumerate(bus, path, next);
            Enums(w.events) == if w.result == Ok(()) then [(path, next)] else []
  {
    hide Enums;
    var moved := Addressed(path, next);
    EnumsOf(moved, []);
    EnumsOf(moved, [Enumerated(path, next)]);
    EnumsOf(Enumerated(path, next), []);
    assert [moved] + [] == [moved] && [Enumerated(path, next)] + [] == [] + [Enumerated(path, next)] == [Enumerated(path, next)];
  }

  lemma ChildNumbers(bus: Bus, path: Path, next: nat)
    requires next <= MAX_USB_ADDR
    ensures var w := EnumerateChild(bus, path, next);
            && Enums(w.events) == (if w.result == Ok(()) then [(path, next)] else [])
            && Numbers(w, next) && (w.result == Err(NotPresent) ==> w.next == next)
  {
    hide Enums, Enumerate;
    EnumerateNumbers(bus, path, next);
    var events := Enumerate(bus, path, next).events;
    EnumsOf(Reset(path), []);
    EnumsOf(Reset(path), events);
    assert [Reset(path)] + [] == [Reset(path)] && [] + events == events;
  }

  lemma {:induction false} PortNumbers(bus: Bus, path: Path, next: nat)
    requires next <= MAX_USB_ADDR
    ensures Numbers(WalkPort(bus, path, next), next)
    decreases MAX_USB_ADDR - next, 0
  {
    ChildNumbers(bus, path, next);
    var child := EnumerateChild(bus, path, next);
    if child.result == Ok(()) {
      DispatchNumbers(bus, path, child.next);
      EnumsAppend(child.events, Dispatch(bus, path, child.next).events);
    }
  }

  lemma {:induction false} PortsNumber(bus: Bus, path: Path, port: nat, nports: nat, next: nat)
    requires next <= MAX_USB_ADDR && port <= nports + 1 <= MAX_HUB_PORTS + 1
    ensures Numbers(WalkPorts(bus, path, port, nports, next), next)
    decreases MAX_USB_ADDR - next, nports + 1 - port
  {
    hide WalkPort;
    if port < nports + 1 {
      PortNumbers(bus, path + [port], next);
      var one := WalkPort(bus, path + [port], next);
      if one.result == Ok(()) {
        PortsNumber(bus, path, port + 1, nports, one.next);
        EnumsAppend(one.events, WalkPorts(bus, path, port + 1, nports, one.next).events);
      }
    }
  }

  lemma {:induction false} DispatchNumbers(bus: Bus, path: Path, next: nat)
    requires next <= MAX_USB_ADDR
    ensures Numbers(Dispatch(bus, path, next), next)
    decreases MAX_USB_ADDR - next, MAX_HUB_PORTS + 2
  {
    hide WalkPorts;
    var d := bus(path).device;
    if IsHub(d) && d.hubDescriptor.None? {
      PortsNumber(bus, path, 1, Min(d.numPorts, MAX_HUB_PORTS), next);
    }
  }

  /** On any bus the k-th device enumerated has address 1 + k, at most 126: no two share one. */
  lemma AddressesConsecutive(bus: Bus, connected: bool)
    ensures var es := Enums(EnumerateBus(bus, connected).events);
            && (forall k :: 0 <= k < |es| ==> es[k].1 == 1 + k <= 126)
            && (forall j, k :: 0 <= j < k < |es| ==> es[j].1 != es[k].1)
  {
    hide WalkPort, EnumerateChild;
    ChildNumbers(bus, [1], 1);
    PortNumbers(bus, [1], 1);
  }

  // ---- A tree, some of whose ports and devices fail --------------------------------------------------

  /**
   How a port that took its reset goes on: whether the requests after it succeed, what the enable bit
   says, and whether the device acts on SET_ADDRESS.
   */
  datatype Manner = Manner(reset: bool, clearReset: bool, statusAfter: Option<bool>, addressTook: bool) {
    /** The walk goes on to the device behind the port. */
    predicate LetsIn() {
      reset && clearReset && statusAfter == Some(true)
    }

    /** The device stays at the default address while the walk goes on. */
    predicate Sticks() {
      !LetsIn() || !addressTook
    }
  }

  /** Whether one of a device's own requests fails, and which: then the walk is over. */
  datatype Failure = Never | AtProbe(e: HardError) | AtAddress(e: HardError) | AtConfiguration(e: HardError) | AtDispatch(e: HardError)

  /** A device: what it says it is, how it fails, and what is plugged in behind it if it is a hub. */
  datatype Device = Device(devClass: nat, vid: nat, pid: nat, failure: Failure, ports: seq<Slot>) {
    /** Class 9, or the hub that QEMU emulates under another class. */
    predicate Hub() {
      devClass == 9 || (vid == 0x0409 && pid == 0x55aa)
    }
  }

  /** Why a port has nothing to offer: nothing is plugged in, or a request up to the reset fails, or the reset does not take. */
  datatype Silence = NotConnected | StatusFails | ClearFails | ResetFails | NotEnabled(statusAfter: Option<bool>)

  datatype Slot = Silent(why: Silence) | Plugged(manner: Manner, device: Device)

  const EMPTY: Slot := Silent(NotConnected)

  /** The slot that `path` leads to from a row of ports. */
  function Lookup(ports: seq<Slot>, path: Path): Slot
    decreases |path|
  {
    if path == [] || !(1 <= path[0] <= |ports|) then EMPTY
    else
      var s := ports[path[0] - 1];
      if |path| == 1 then s
      else if s.Plugged? && s.device.Hub() then Lookup(s.device.ports, path[1..])
      else EMPTY
  }

  function ErrorIf(here: bool, f: Failure): Option<HardError> {
    if here && !f.Never? then Some(f.e) else None
  }

  /** What a device answers. Its descriptor, or its driver, is what fails at dispatch. */
  function DeviceAnswer(d: Device, addressTook: bool): DeviceAnswers {
    var f := d.failure;
    DeviceAnswers(d.vid, d.pid, d.devClass, ErrorIf(f.AtProbe?, f), addressTook, ErrorIf(f.AtAddress?, f),
                  ErrorIf(f.AtConfiguration?, f), ErrorIf(f.AtDispatch?, f), |d.ports|, ErrorIf(f.AtDispatch?, f))
  }

  function Answer(s: Slot): PortAnswers {
    match s
    case Silent(NotConnected) => PortAnswers(Some(false), true, false, true, true, Some(false), PLAIN_DEVICE)
    case Silent(StatusFails) => PortAnswers(None, true, true, true, true, Some(true), PLAIN_DEVICE)
    case Silent(ClearFails) => PortAnswers(Some(true), false, true, true, true, Some(true), PLAIN_DEVICE)
    case Silent(ResetFails) => PortAnswers(Some(true), true, false, false, true, Some(true), PLAIN_DEVICE)
    case Silent(NotEnabled(after)) =>
      PortAnswers(Some(true), true, false, true, true, if after == Some(true) then None else after, PLAIN_DEVICE)
    case Plugged(m, d) =>
      PortAnswers(Some(true), true, true, m.reset, m.clearReset, m.statusAfter, DeviceAnswer(d, m.addressTook))
  }

  /** The bus with `root` in its root port. */
  function TreeBus(root: Slot): Bus {
    (path: Path) => Answer(Lookup([root], path))
  }

  /** The ports of a hub that the walk looks at: sixteen at most. */
  function Visible(t: Device): nat {
    if t.Hub() then Min(|t.ports|, 16) else 0
  }

  datatype Port = Port(path: Path, manner: Manner, failure: Failure)

  /** The occupied ports from this one on, each before those behind it; nothing is behind one that lets nobody in. */
  function Occupied(path: Path, s: Slot): seq<Port>
    decreases s, 0
  {
    if s.Silent? then []
    else [Port(path, s.manner, s.device.failure)] + if s.manner.LetsIn() then Below(path, s.device, 0) else []
  }

  function Below(path: Path, t: Device, k: nat): seq<Port>
    decreases t, Visible(t) - k
  {
    if k >= Visible(t) then [] else Occupied(path + [k + 1], t.ports[k]) + Below(path, t, k + 1)
  }

  // ---- The walk as a plain pass over the occupied ports ------------------------------------------------

  const FULL: UsbError := Protocol("usb address space full")

  /** What a walk comes to: its result, the next free address, the devices enumerated and the ports reset. */
  datatype Tally = Tally(result: UsbResult<()>, next: nat, enums: seq<(Path, nat)>, resets: seq<Path>)

  /** One port: addresses go to 126; a device that fails before SET_ADDRESS uses up none. */
  function Visit(p: Port, next: nat): Tally {
    if !p.manner.LetsIn() then Tally(Ok(()), next, [], [p.path])
    else if p.failure.AtProbe? then Tally(Err(p.failure.e), next, [], [p.path])
    else if next > 126 then Tally(Err(FULL), next, [], [p.path])
    else
      match p.failure
      case AtAddress(e) => Tally(Err(e), next + 1, [], [p.path])
      case AtConfiguration(e) => Tally(Err(e), next + 1, [], [p.path])
      case AtDispatch(e) => Tally(Err(e), next + 1, [(p.path, next)], [p.path])
      case _ => Tally(Ok(()), next + 1, [(p.path, next)], [p.path])
  }

  function Then(a: Tally, b: Tally): Tally {
    Tally(b.result, b.next, a.enums + b.enums, a.resets + b.resets)
  }

  /** Port after port up to the first failure. */
  function Pass(ps: seq<Port>, next: nat): Tally
    decreases |ps|
  {
    if ps == [] then Tally(Ok(()), next, [], [])
    else
      var one := Visit(ps[0], next);
      if one.result != Ok(()) then one else Then(one, Pass(ps[1..], one.next))
  }

  /** The ports that are reset, in order. */
  function Resets(events: seq<Event>): seq<Path> {
    if events == [] then []
    else (if events[0].Reset? then [events[0].path] else []) + Resets(events[1..])
  }

  function TallyOf(w: Walk): Tally {
    Tally(w.result, w.next, Enums(w.events), Resets(w.events))
  }

  lemma ResetsCons(e: Event, rest: seq<Event>)
    ensures Resets([e] + rest) == (if e.Reset? then [e.path] else []) + Resets(rest)
    ensures Resets([]) == []
  {
    assert ([e] + rest)[1..] == rest;
  }

  lemma {:induction false} ResetsAppend(a: seq<Event>, b: seq<Event>)
    ensures Resets(a + b) == Resets(a) + Resets(b)
  {
    hide Resets;
    if a == [] {
      assert a + b == b;
      ResetsCons(Reset([]), []);
    } else {
      ResetsAppend(a[1..], b);
      ResetsCons(a[0], a[1..]);
      ResetsCons(a[0], a[1..] + b);
      assert [a[0]] + a[1..] == a && [a[0]] + (a[1..] + b) == a + b;
    }
  }

  lemma PassCons(p: Port, rest: seq<Port>, next: nat)
    ensures var one := Visit(p, next);
            Pass([p] + rest, next) == if one.result != Ok(()) then one else Then(one, Pass(rest, one.next))
    ensures Pass([], next) == Tally(Ok(()), next, [], [])
  {
    hide Visit;
    assert ([p] + rest)[1..] == rest;
  }

  lemma ThenThen(a: Tally, b: Tally, c: Tally)
    ensures Then(a, Then(b, c)) == Then(Then(a, b), c)
  {
  }

  lemma {:induction false} PassAppend(ps: seq<Port>, qs: seq<Port>, next: nat)
    ensures var a := Pass(ps, next);
            Pass(ps + qs, next) == if a.result != Ok(()) then a else Then(a, Pass(qs, a.next))
  {
    hide Pass, Visit;
    if ps == [] {
      assert ps + qs == qs;
      PassCons(Port([], Manner(false, false, None, false), Never), [], next);
    } else {
      var p, rest := ps[0], ps[1..];
      assert [p] + rest == ps && [p] + (rest + qs) == ps + qs;
      PassCons(p, rest, next);
      PassCons(p, rest + qs, next);
      var one := Visit(p, next);
      PassAppend(rest, qs, one.next);
      ThenThen(one, Pass(rest, one.next), Pass(qs, Pass(rest, one.next).next));
    }
  }

  lemma PassOne(p: Port, next: nat)
    ensures Pass([p], next) == Visit(p, next)
  {
    hide Visit;
    PassCons(p, [], next);
    assert [p] + [] == [p];
  }

  lemma {:induction false} LookupSnoc(ports: seq<Slot>, path: Path, port: nat)
    requires path != []
    ensures Lookup(ports, path + [port])
            == match Lookup(ports, path)
               case Plugged(_, d) => if d.Hub() && 1 <= port <= |d.ports| then d.ports[port - 1] else EMPTY
               case Silent(_) => EMPTY
    decreases |path|
  {
    assert (path + [port])[0] == path[0] && (path + [port])[1..] == path[1..] + [port];
    if |path| > 1 && 1 <= path[0] <= |ports| {
      var s := ports[path[0] - 1];
      if s.Plugged? && s.device.Hub() {
        LookupSnoc(s.device.ports, path[1..], port);
      }
    }
  }

  ghost predicate Holds(root: Slot, path: Path, s: Slot) {
    path != [] && Lookup([root], path) == s
  }

  ghost predicate Finds(w: Walk, ps: seq<Port>, next: nat) {
    TallyOf(w) == Pass(ps, next)
  }

  lemma FindsMore(a: Walk, b: Walk, w: Walk, ps: seq<Port>, qs: seq<Port>, next: nat)
    requires Finds(a, ps, next) && (a.result == Ok(()) ==> Finds(b, qs, a.next))
    requires w == if a.result != Ok(()) then a else b.(events := a.events + b.events)
    ensures Finds(w, ps + qs, next)
  {
    hide Pass, Enums, Resets;
    PassAppend(ps, qs, next);
    if a.result == Ok(()) {
      EnumsAppend(a.events, b.events);
      ResetsAppend(a.events, b.events);
    }
  }

  lemma FindsNothing(next: nat)
    ensures Finds(Walk(Ok(()), next, []), [], next)
  {
  }

  /** The port's own part of the walk. */
  lemma ChildVisited(root: Slot, path: Path, s: Slot, next: nat)
    requires Holds(root, path, s) && s.Plugged? && next <= MAX_USB_ADDR
    ensures var w, one := EnumerateChild(TreeBus(root), path, next), Visit(Port(path, s.manner, s.device.failure), next);
            && w.next == one.next && Enums(w.events) == one.enums && Resets(w.events) == one.resets
            && w.result == if !s.manner.LetsIn() then Err(NotPresent)
                           else if s.device.failure.AtDispatch? && next <= 126 then Ok(()) else one.result
  {
    hide Enums, Resets, Lookup;
    ChildNumbers(TreeBus(root), path, next);
    ChildResets(TreeBus(root), path, next);
  }

  lemma ChildResets(bus: Bus, path: Path, next: nat)
    requires next <= MAX_USB_ADDR
    ensures Resets(EnumerateChild(bus, path, next).events)
            == var a := bus(path); if a.status == Some(true) && a.clearConnection && a.resetTook then [path] else []
  {
    hide Resets;
    var w := Enumerate(bus, path, next);
    EnumerateResets(bus, path, next);
    NoneThenOne(path);
    ResetsAppend([Reset(path)], w.events);
    ResetsAppend([], w.events);
  }

  lemma NoneThenOne(path: Path)
    ensures Resets([]) == [] && Resets([Reset(path)]) == [path]
  {
    assert [Reset(path)] + [] == [Reset(path)];
    ResetsCons(Reset(path), []);
  }

  lemma EnumerateResets(bus: Bus, path: Path, next: nat)
    requires next <= MAX_USB_ADDR
    ensures Resets(Enumerate(bus, path, next).events) == []
  {
    NoResets(Enumerate(bus, path, next).events);
  }

  lemma {:induction false} NoResets(es: seq<Event>)
    requires forall i :: 0 <= i < |es| ==> !es[i].Reset?
    ensures Resets(es) == []
  {
    if es != [] {
      NoResets(es[1..]);
    }
  }

  lemma SilentPort(root: Slot, path: Path, s: Slot, next: nat)
    requires Holds(root, path, s) && s.Silent? && next <= MAX_USB_ADDR
    ensures EnumerateChild(TreeBus(root), path, next) == Walk(Err(NotPresent), next, [])
    ensures Finds(WalkPort(TreeBus(root), path, next), [], next)
  {
    hide Dispatch, Lookup;
  }

  /** What a device at `path` shows to the dispatch. */
  lemma DispatchSees(root: Slot, path: Path, s: Slot)
    requires Holds(root, path, s) && s.Plugged?
    ensures var d, f := TreeBus(root)(path).device, s.device.failure;
            && (IsHub(d) <==> s.device.Hub()) && d.numPorts == |s.device.ports|
            && d.hubDescriptor == d.driver == if f.AtDispatch? then Some(f.e) else None
  {
  }

  lemma {:induction false} DispatchFinds(root: Slot, path: Path, s: Slot, next: nat)
    requires Holds(root, path, s) && s.Plugged? && next <= MAX_USB_ADDR
    ensures var w := Dispatch(TreeBus(root), path, next);
            if s.device.failure.AtDispatch? then w == Walk(Err(s.device.failure.e), next, []) else Finds(w, Below(path, s.device, 0), next)
    decreases s, 1
  {
    hide Finds, WalkPorts, Lookup, TreeBus, IsHub;
    DispatchSees(root, path, s);
    if !s.device.failure.AtDispatch? {
      if s.device.Hub() {
        assert Dispatch(TreeBus(root), path, next) == WalkPorts(TreeBus(root), path, 1, Visible(s.device), next);
        PortsFind(root, path, s, 0, next);
      } else {
        FindsNothing(next);
      }
    }
  }

  lemma {:induction false} PortsFind(root: Slot, path: Path, s: Slot, k: nat, next: nat)
    requires Holds(root, path, s) && s.Plugged? && k <= Visible(s.device) && next <= MAX_USB_ADDR
    ensures Finds(WalkPorts(TreeBus(root), path, k + 1, Visible(s.device), next), Below(path, s.device, k), next)
    decreases s, 0, Visible(s.device) - k
  {
    hide WalkPort, Lookup, Finds;
    var n := Visible(s.device);
    if k < n {
      var here, bus := path + [k + 1], TreeBus(root);
      var one := WalkPort(bus, here, next);
      LookupSnoc([root], path, k + 1);
      PortFinds(root, here, s.device.ports[k], next);
      if one.result == Ok(()) {
        PortsFind(root, path, s, k + 1, one.next);
      }
      FindsMore(one, WalkPorts(bus, path, k + 2, n, one.next), WalkPorts(bus, path, k + 1, n, next),
                Occupied(here, s.device.ports[k]), Below(path, s.device, k + 1), next);
    } else {
      FindsNothing(next);
    }
  }

  lemma {:induction false} PortFinds(root: Slot, here: Path, s: Slot, next: nat)
    requires Holds(root, here, s) && next <= MAX_USB_ADDR
    ensures Finds(WalkPort(TreeBus(root), here, next), Occupied(here, s), next)
    decreases s, 2
  {
    hide EnumerateChild, Dispatch, Lookup, Pass, Enums, Resets;
    if s.Silent? {
      SilentPort(root, here, s, next);
    } else {
      var port, bus := Port(here, s.manner, s.device.failure), TreeBus(root);
      ChildVisited(root, here, s, next);
      PassOne(port, next);
      PassAppend([port], Below(here, s.device, 0), next);
      assert [port] + [] == [port];
      var child := EnumerateChild(bus, here, next);
      if child.result == Ok(()) {
        DispatchFinds(root, here, s, child.next);
        if s.device.failure.AtDispatch? {
          assert child.events + [] == child.events;
        } else {
          FindsMore(child, Dispatch(bus, here, child.next), WalkPort(bus, here, next), [port], Below(here, s.device, 0), next);
        }
      }
    }
  }

  /**
   The recursive walk of a tree is a plain pass over its occupied ports in preorder: it resets and enumerates
   the same, hands out the same addresses and ends in the same result. A root port that lets nobody in is an error.
   */
  lemma WalkIsPass(root: Slot)
    ensures var tally, pass := TallyOf(EnumerateBus(TreeBus(root), true)), Pass(Occupied([1], root), 1);
            tally == if root.Plugged? && root.manner.LetsIn() then pass
                     else pass.(result := Err(Protocol("root port child not enabled")))
  {
    hide EnumerateChild, Dispatch, Pass, Enums, Resets, Lookup;
    RootHolds(root);
    PortFinds(root, [1], root, 1);
    if root.Silent? {
      SilentPort(root, [1], root, 1);
    } else {
      ChildVisited(root, [1], root, 1);
    }
  }

  lemma RootHolds(root: Slot)
    ensures Holds(root, [1], root)
  {
  }

  // ---- Devices that all answer --------------------------------------------------------------------------

  /** The devices that are enumerated if addresses last, in preorder. */
  function Found(ps: seq<Port>): seq<Path> {
    if ps == [] then [] else (if ps[0].manner.LetsIn() then [ps[0].path] else []) + Found(ps[1..])
  }

  function Preorder(root: Slot): seq<Path> {
    Found(Occupied([1], root))
  }

  ghost predicate AllAnswer(ps: seq<Port>) {
    forall k :: 0 <= k < |ps| ==> ps[k].failure.Never?
  }

  /** What a pass over ports whose devices answer comes to. */
  ghost predicate Numbers126(r: Tally, found: seq<Path>, next: nat)
    requires next <= 127
  {
    if next + |found| <= 127 then r.result == Ok(()) && r.next == next + |found| && r.enums == Numbered(found, next)
    else r.result == Err(FULL) && r.enums == Numbered(found[..127 - next], next)
  }

  lemma {:induction false} PassNumbers(ps: seq<Port>, next: nat)
    requires AllAnswer(ps) && next <= 127
    ensures Numbers126(Pass(ps, next), Found(ps), next)
    decreases |ps|
  {
    hide Pass, Found, Numbers126, Visit;
    if ps == [] {
      NothingNumbered(next);
    } else {
      var p, rest := ps[0], ps[1..];
      assert [p] + rest == ps && p.failure.Never?;
      PassCons(p, rest, next);
      FoundCons(p, rest);
      if p.manner.LetsIn() && next <= 126 {
        PassNumbers(rest, next + 1);
        OneMoreNumbered(p, Pass(rest, next + 1), Found(rest), next);
      } else {
        PassNumbers(rest, next);
        OneNotNumbered(p, Pass(rest, next), Found(rest), next);
      }
    }
  }

  lemma NothingNumbered(next: nat)
    requires next <= 127
    ensures Numbers126(Pass([], next), Found([]), next)
  {
    assert Numbered([], next) == [];
  }

  lemma FoundCons(p: Port, rest: seq<Port>)
    ensures Found([p] + rest) == (if p.manner.LetsIn() then [p.path] else []) + Found(rest)
  {
    assert ([p] + rest)[1..] == rest;
  }

  lemma OneMoreNumbered(p: Port, r: Tally, found: seq<Path>, next: nat)
    requires p.failure.Never? && p.manner.LetsIn() && next <= 126 && Numbers126(r, found, next + 1)
    ensures Visit(p, next).result == Ok(()) && Visit(p, next).next == next + 1
    ensures Numbers126(Then(Visit(p, next), r), [p.path] + found, next)
  {
    NumberedCons(p.path, found, next);
    if next + 1 + |found| > 127 {
      NumberedCons(p.path, found[..126 - next], next);
      assert ([p.path] + found)[..127 - next] == [p.path] + found[..126 - next];
    }
  }

  lemma OneNotNumbered(p: Port, r: Tally, found: seq<Path>, next: nat)
    requires p.failure.Never? && next <= 127 && Numbers126(r, found, next) && (p.manner.LetsIn() ==> next == 127)
    ensures var one := Visit(p, next);
            if p.manner.LetsIn() then one.result != Ok(()) && Numbers126(one, [p.path] + found, next)
            else one.result == Ok(()) && one.next == next && Numbers126(Then(one, r), [] + found, next)
  {
    assert [] + found == found && ([p.path] + found)[..0] == [] && Numbered([], next) == [];
    assert [] + r.enums == r.enums;
  }

  lemma NumberedCons(p: Path, rest: seq<Path>, next: nat)
    ensures Numbered([p] + rest, next) == [(p, next)] + Numbered(rest, next + 1)
  {
  }

  lemma RootFound(root: Slot)
    ensures Preorder(root) != [] <==> root.Plugged? && root.manner.LetsIn()
  {
    if root.Plugged? {
      var port := Port([1], root.manner, root.device.failure);
      var ps := Occupied([1], root);
      assert ps[0] == port && Found(ps) == (if root.manner.LetsIn() then [port.path] else []) + Found(ps[1..]);
      assert !root.manner.LetsIn() ==> ps[1..] == [];
    }
  }

  /**
   When all devices answer, device number k of those that are let in gets address 1 + k. The walk succeeds
   exactly when the root is let in and they are at most 126; the first 126 get theirs in any case.
   */
  lemma PreorderNumbering(root: Slot)
    requires AllAnswer(Occupied([1], root))
    ensures var w, found := EnumerateBus(TreeBus(root), true), Preorder(root);
            && (w.result == Ok(()) <==> 0 < |found| <= 126)
            && Enums(w.events) == Numbered(if |found| <= 126 then found else found[..126], 1)
            && (w.result != Ok(()) ==> w.result == Err(if found == [] then Protocol("root port child not enabled") else FULL))
  {
    hide EnumerateBus, Enums, Resets, Pass, Occupied;
    WalkIsPass(root);
    PassNumbers(Occupied([1], root), 1);
    assert Numbers126(Pass(Occupied([1], root), 1), Preorder(root), 1);
    RootFound(root);
    assert Numbered([], 1) == [];
  }
}
