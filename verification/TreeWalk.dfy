/**
 Enumeration of a USB tree. A bus is whatever its hubs and devices answer, port by port; nothing
 makes the answers consistent or the tree finite, and still the walk ends, because every device
 it goes into uses up an address.
 */
module TreeWalk {
  import opened UsbErrors
  import opened Wrappers
  import opened Arith

  const MAX_USB_ADDR: nat := 127
  const MAX_HUB_PORTS: nat := 16
  const USB_CLASS_HUB: nat := 0x09
  const QEMU_USB_HUB_VID: nat := 0x0409
  const QEMU_USB_HUB_PID: nat := 0x55aa

  /** Any failure but the soft "nothing here". */
  type HardError = e: UsbError | e != NotPresent witness Timeout

  /** What a device answers while it is enumerated and dispatched; None is success. */
  datatype DeviceAnswers = DeviceAnswers(
    vid: nat, pid: nat, devClass: nat,
    probe: Option<HardError>,
    addressTook: bool, setAddress: Option<HardError>,
    setConfiguration: Option<HardError>,
    hubDescriptor: Option<HardError>, numPorts: nat,
    driver: Option<HardError>)

  /** A device that is no hub and answers every request. */
  const PLAIN_DEVICE: DeviceAnswers := DeviceAnswers(0, 0, 0, None, true, None, None, None, 0, None)

  /**
   What a port answers. `status` is the connect bit, `statusAfter` the enable bit, None a failed
   request. `resetTook` says that a device came up enabled at address 0, whatever the host is told.
   */
  datatype PortAnswers = PortAnswers(
    status: Option<bool>, clearConnection: bool, resetTook: bool, reset: bool, clearReset: bool,
    statusAfter: Option<bool>, device: DeviceAnswers)

  /** A port is named by the ports that lead to it from the root. */
  type Path = seq<nat>

  type Bus = Path -> PortAnswers

  datatype Event = Reset(path: Path) | Addressed(path: Path, addr: nat) | Enumerated(path: Path, addr: nat)

  function IsHub(d: DeviceAnswers): bool {
    d.devClass == USB_CLASS_HUB || (d.vid == QEMU_USB_HUB_VID && d.pid == QEMU_USB_HUB_PID)
  }

  // ---- The walk as a function of the answers ------------------------------------------------

  datatype Walk = Walk(result: UsbResult<()>, next: nat, events: seq<Event>)

  /** The port's device at the default address, addressed, configured. */
  function Enumerate(bus: Bus, path: Path, next: nat): (w: Walk)
    requires next <= MAX_USB_ADDR
    ensures next <= w.next <= MAX_USB_ADDR && (w.result == Ok(()) ==> w.next == next + 1)
    ensures w.result != Err(NotPresent)
  {
    var d := bus(path).device;
    if d.probe.Some? then Walk(Err(d.probe.value), next, [])
    else if next >= MAX_USB_ADDR then Walk(Err(Protocol("usb address space full")), next, [])
    else
      var moved := if d.addressTook then [Addressed(path, next)] else [];
      if d.setAddress.Some? then Walk(Err(d.setAddress.value), next + 1, moved)
      else if d.setConfiguration.Some? then Walk(Err(d.setConfiguration.value), next + 1, moved)
      else Walk(Ok(()), next + 1, moved + [Enumerated(path, next)])
  }

  /** A port: connected, reset, enabled, enumerated. Failures of port requests mean "nothing here". */
  function EnumerateChild(bus: Bus, path: Path, next: nat): (w: Walk)
    requires next <= MAX_USB_ADDR
    ensures next <= w.next <= MAX_USB_ADDR && (w.result == Ok(()) ==> w.next == next + 1)
  {
    var a := bus(path);
    if a.status != Some(true) || !a.clearConnection then Walk(Err(NotPresent), next, [])
    else
      var reset := if a.resetTook then [Reset(path)] else [];
      if !a.reset || !a.clearReset || a.statusAfter != Some(true) then Walk(Err(NotPresent), next, reset)
      else
        var w := Enumerate(bus, path, next);
        w.(events := reset + w.events)
  }

  /** One port of a hub, with everything behind it. An empty port is no failure. */
  function WalkPort(bus: Bus, path: Path, next: nat): (w: Walk)
    requires next <= MAX_USB_ADDR
    ensures next <= w.next <= MAX_USB_ADDR
    decreases MAX_USB_ADDR - next, 0
  {
    var child := EnumerateChild(bus, path, next);
    if child.result == Err(NotPresent) then child.(result := Ok(()))
    else if child.result != Ok(()) then child
    else
      var below := Dispatch(bus, path, child.next);
      below.(events := child.events + below.events)
  }

  /** The ports `port`..`nports` of the hub at `path`; the first hard failure ends the walk. */
  function WalkPorts(bus: Bus, path: Path, port: nat, nports: nat, next: nat): (w: Walk)
    requires next <= MAX_USB_ADDR && port <= nports + 1 <= MAX_HUB_PORTS + 1
    ensures next <= w.next <= MAX_USB_ADDR
    decreases MAX_USB_ADDR - next, nports + 1 - port
  {
    if port == nports + 1 then Walk(Ok(()), next, [])
    else
      var one := WalkPort(bus, path + [port], next);
      if one.result != Ok(()) then one
      else
        var rest := WalkPorts(bus, path, port + 1, nports, one.next);
        rest.(events := one.events + rest.events)
  }

  /** A hub is walked in its turn; any other device goes to the driver that matches it, if any. */
  function Dispatch(bus: Bus, path: Path, next: nat): (w: Walk)
    requires next <= MAX_USB_ADDR
    ensures next <= w.next <= MAX_USB_ADDR
    decreases MAX_USB_ADDR - next, MAX_HUB_PORTS + 2
  {
    var d := bus(path).device;
    if IsHub(d) then
      if d.hubDescriptor.Some? then Walk(Err(d.hubDescriptor.value), next, [])
      else WalkPorts(bus, path, 1, Min(d.numPorts, MAX_HUB_PORTS), next)
    else Walk(if d.driver.Some? then Err(d.driver.value) else Ok(()), next, [])
  }

  /** The whole bus, from the single root port; `connected` is whether a device shows up in time. */
  function EnumerateBus(bus: Bus, connected: bool): Walk {
    if !connected then Walk(Err(Hardware("no device on root port (enable VBUS e.g. GPIOB6 / cable / PHY)")), 1, [])
    else
      var child := EnumerateChild(bus, [1], 1);
      if child.result == Err(NotPresent) then child.(result := Err(Protocol("root port child not enabled")))
      else WalkPort(bus, [1], 1)
  }

  // ---- The walk as it runs ---------------------------------------------------------------------

  class Walker {
    const bus: Bus
    var nextAddr: nat
    var events: seq<Event>

    constructor (bus: Bus)
      ensures this.bus == bus && nextAddr == 1 && events == []
    {
      this.bus := bus;
      nextAddr := 1;
      events := [];
    }

    method EnumerateDevice(path: Path) returns (r: UsbResult<()>)
      requires nextAddr <= MAX_USB_ADDR
      modifies this
      ensures Walk(r, nextAddr, events) == var w := Enumerate(bus, path, old(nextAddr)); w.(events := old(events) + w.events)
    {
      var d := bus(path).device;
      if d.probe.Some? {
        return Err(d.probe.value);
      }
      var addr := nextAddr;
      if addr >= MAX_USB_ADDR {
        return Err(Protocol("usb address space full"));
      }
      nextAddr := addr + 1;
      if d.addressTook {
        events := events + [Addressed(path, addr)];
      }
      if d.setAddress.Some? {
        return Err(d.setAddress.value);
      }
      if d.setConfiguration.Some? {
        return Err(d.setConfiguration.value);
      }
      events := events + [Enumerated(path, addr)];
      return Ok(());
    }

    method EnumeratePort(path: Path) returns (r: UsbResult<()>)
      requires nextAddr <= MAX_USB_ADDR
      modifies this
      ensures Walk(r, nextAddr, events) == var w := EnumerateChild(bus, path, old(nextAddr)); w.(events := old(events) + w.events)
    {
      var a := bus(path);
      if a.status != Some(true) {
        return Err(NotPresent);
      }
      var ok := ConnectResetSequence(path);
      if !ok {
        return Err(NotPresent);
      }
      if a.statusAfter != Some(true) {
        return Err(NotPresent);
      }
      r := EnumerateDevice(path);
    }

    method ConnectResetSequence(path: Path) returns (ok: bool)
      modifies `events
      ensures var a := bus(path);
              && ok == (a.clearConnection && a.reset && a.clearReset)
              && events == old(events) + if a.clearConnection && a.resetTook then [Reset(path)] else []
    {
      var a := bus(path);
      if !a.clearConnection {
        return false;
      }
      if a.resetTook {
        events := events + [Reset(path)];
      }
      return a.reset && a.clearReset;
    }

    method WalkSubtree(path: Path, nports: nat) returns (r: UsbResult<()>)
      requires nextAddr <= MAX_USB_ADDR && nports <= MAX_HUB_PORTS
      modifies this
      ensures Walk(r, nextAddr, events)
              == var w := WalkPorts(bus, path, 1, nports, old(nextAddr)); w.(events := old(events) + w.events)
      decreases MAX_USB_ADDR - nextAddr, MAX_HUB_PORTS + 1
    {
      hide WalkPort;
      ghost var all := WalkPorts(bus, path, 1, nports, nextAddr);
      ghost var done: seq<Event> := [];
      for port := 1 to nports + 1
        invariant old(nextAddr) <= nextAddr <= MAX_USB_ADDR && events == old(events) + done
        invariant var w := WalkPorts(bus, path, port, nports, nextAddr);
                  all == w.(events := done + w.events)
      {
        ghost var one := WalkPort(bus, path + [port], nextAddr);
        r := WalkOne(path + [port]);
        assert events == old(events) + (done + one.events);
        if r != Ok(()) {
          return;
        }
        done := done + one.events;
      }
      r := Ok(());
    }

    /** One port; an empty port, or one whose requests fail, is passed over. */
    method WalkOne(path: Path) returns (r: UsbResult<()>)
      requires nextAddr <= MAX_USB_ADDR
      modifies this
      ensures Walk(r, nextAddr, events) == var w := WalkPort(bus, path, old(nextAddr)); w.(events := old(events) + w.events)
      decreases MAX_USB_ADDR - nextAddr, 0
    {
      hide Dispatch, EnumerateChild;
      r := EnumeratePort(path);
      if r == Ok(()) {
        r := DispatchDevice(path);
      } else if r == Err(NotPresent) {
        r := Ok(());
      }
    }

    method DispatchDevice(path: Path) returns (r: UsbResult<()>)
      requires nextAddr <= MAX_USB_ADDR
      modifies this
      ensures Walk(r, nextAddr, events) == var w := Dispatch(bus, path, old(nextAddr)); w.(events := old(events) + w.events)
      decreases MAX_USB_ADDR - nextAddr, MAX_HUB_PORTS + 2
    {
      var d := bus(path).device;
      if IsHub(d) {
        if d.hubDescriptor.Some? {
          return Err(d.hubDescriptor.value);
        }
        r := WalkSubtree(path, Min(d.numPorts, MAX_HUB_PORTS));
      } else {
        r := if d.driver.Some? then Err(d.driver.value) else Ok(());
      }
    }

    method EnumerateRoot(connected: bool) returns (r: UsbResult<()>)
      requires nextAddr == 1 && events == []
      modifies this
      ensures Walk(r, nextAddr, events) == EnumerateBus(bus, connected)
    {
      hide Dispatch, EnumerateChild;
      if !connected {
        return Err(Hardware("no device on root port (enable VBUS e.g. GPIOB6 / cable / PHY)"));
      }
      r := EnumeratePort([1]);
      if r == Err(NotPresent) {
        return Err(Protocol("root port child not enabled"));
      }
      if r == Ok(()) {
        r := DispatchDevice([1]);
      }
    }
  }
}
