/**
 Who listens at the default address during an enumeration. A device comes up there when its port
 is reset and leaves when it takes an address of its own; the next port reset must find it gone.
 */
module TreeExclusive {
  import opened Arith
  import opened UsbErrors
  import opened TreeNumbering
  import opened TreeWalk
  import opened Wrappers

  /** Before event k the device at p has been reset and has not taken an address since. */
  ghost predicate AtZero(es: seq<Event>, k: nat, p: Path) {
    exists i :: 0 <= i < k <= |es| && es[i] == Reset(p) && forall j :: i < j < k ==> !IsAddressed(es[j], p)
  }

  predicate IsAddressed(e: Event, p: Path) {
    e.Addressed? && e.path == p
  }

  /** Never two devices at the default address. */
  ghost predicate Exclusive(es: seq<Event>) {
    forall k, p, q :: 0 <= k <= |es| && AtZero(es, k, p) && AtZero(es, k, q) ==> p == q
  }

  /**
   The walk gives the port up, or believes its device addressed, while the device stays at
   address 0: a request after the reset fails, or SET_ADDRESS succeeds without effect.
   */
  predicate Stranded(bus: Bus, p: Path) {
    var a := bus(p);
    && a.resetTook
    && (|| !a.reset || !a.clearReset || a.statusAfter != Some(true)
        || (a.device.probe.None? && a.device.setAddress.None? && !a.device.addressTook))
  }

  predicate StrandedReset(bus: Bus, e: Event) {
    e.Reset? && Stranded(bus, e.path)
  }

  ghost predicate NoResetAfterStranded(bus: Bus, es: seq<Event>) {
    forall i, j :: 0 <= i < j < |es| && StrandedReset(bus, es[i]) ==> !es[j].Reset?
  }

  // ---- The shape of a run -----------------------------------------------------------------------

  /** A reset that the very next event must settle. */
  predicate Pending(bus: Bus, e: Event) {
    e.Reset? && !Stranded(bus, e.path)
  }

  /** No port is reset twice, and a reset device that is not stranded is addressed before anything else. */
  ghost predicate Tidy(bus: Bus, es: seq<Event>) {
    && (forall i :: 0 <= i < |es| - 1 && Pending(bus, es[i]) ==> IsAddressed(es[i + 1], es[i].path))
    && (forall i :: 0 <= i < |es| && es[i].Addressed? ==> !Stranded(bus, es[i].path))
    && (forall i, j :: 0 <= i < j < |es| && es[i].Reset? && es[j].Reset? ==> es[i].path != es[j].path)
  }

  predicate Settled(bus: Bus, es: seq<Event>) {
    es == [] || !Pending(bus, es[|es| - 1])
  }

  /** What every walk keeps; only one that ends in a hard failure may leave a reset unsettled. */
  ghost predicate Orderly(bus: Bus, w: Walk) {
    Tidy(bus, w.events) && (w.result == Ok(()) || w.result == Err(NotPresent) ==> Settled(bus, w.events))
  }

  ghost predicate Within(path: Path, es: seq<Event>) {
    forall i :: 0 <= i < |es| ==> path <= es[i].path
  }

  /** All behind the hub at `path`, on ports from `port` on. */
  ghost predicate Behind(path: Path, port: nat, es: seq<Event>) {
    forall i :: 0 <= i < |es| ==> path < es[i].path && port <= es[i].path[|path|]
  }

  lemma Append(bus: Bus, a: seq<Event>, b: seq<Event>)
    requires Tidy(bus, a) && Settled(bus, a) && Tidy(bus, b)
    requires forall i, j :: 0 <= i < |a| && 0 <= j < |b| ==> a[i].path != b[j].path
    ensures Tidy(bus, a + b) && (Settled(bus, b) ==> Settled(bus, a + b))
  {
    hide Stranded;
  }

  lemma NothingTidy(bus: Bus)
    ensures Tidy(bus, []) && Settled(bus, [])
  {
  }

  lemma EnumerateShape(bus: Bus, path: Path, next: nat)
    requires next <= MAX_USB_ADDR
    ensures var w, d := Enumerate(bus, path, next), bus(path).device;
            && (forall i :: 0 <= i < |w.events| ==>
                  w.events[i].path == path && !w.events[i].Reset? && (w.events[i].Addressed? ==> d.addressTook))
            && (w.result == Ok(()) ==> w.events != [])
            && (w.events != [] ==> w.events[0].Addressed? || (d.probe.None? && d.setAddress.None? && !d.addressTook))
  {
  }

  lemma ChildOrderly(bus: Bus, path: Path, next: nat)
    requires next <= MAX_USB_ADDR
    ensures var w := EnumerateChild(bus, path, next);
            Orderly(bus, w) && forall i :: 0 <= i < |w.events| ==> w.events[i].path == path
  {
    hide Enumerate;
    EnumerateShape(bus, path, next);
  }

  lemma {:induction false} PortOrderly(bus: Bus, path: Path, next: nat)
    requires next <= MAX_USB_ADDR
    ensures var w := WalkPort(bus, path, next); Orderly(bus, w) && Within(path, w.events)
    decreases MAX_USB_ADDR - next, 0
  {
    hide EnumerateChild, Dispatch, Tidy, Settled;
    ChildOrderly(bus, path, next);
    var child := EnumerateChild(bus, path, next);
    if child.result == Ok(()) {
      DispatchOrderly(bus, path, child.next);
      Append(bus, child.events, Dispatch(bus, path, child.next).events);
    }
  }

  lemma {:induction false} PortsOrderly(bus: Bus, path: Path, port: nat, nports: nat, next: nat)
    requires next <= MAX_USB_ADDR && port <= nports + 1 <= MAX_HUB_PORTS + 1
    ensures var w := WalkPorts(bus, path, port, nports, next); Orderly(bus, w) && Behind(path, port, w.events)
    decreases MAX_USB_ADDR - next, nports + 1 - port
  {
    hide WalkPort, Tidy, Settled;
    if port == nports + 1 {
      NothingTidy(bus);
    } else {
      PortOrderly(bus, path + [port], next);
      var one := WalkPort(bus, path + [port], next);
      assert Behind(path, port, one.events) && forall i :: 0 <= i < |one.events| ==> one.events[i].path[|path|] == port;
      if one.result == Ok(()) {
        PortsOrderly(bus, path, port + 1, nports, one.next);
        Append(bus, one.events, WalkPorts(bus, path, port + 1, nports, one.next).events);
      }
    }
  }

  lemma {:induction false} DispatchOrderly(bus: Bus, path: Path, next: nat)
    requires next <= MAX_USB_ADDR
    ensures var w := Dispatch(bus, path, next); Orderly(bus, w) && Behind(path, 0, w.events)
    decreases MAX_USB_ADDR - next, MAX_HUB_PORTS + 2
  {
    hide WalkPorts;
    var d := bus(path).device;
    if IsHub(d) && d.hubDescriptor.None? {
      PortsOrderly(bus, path, 1, Min(d.numPorts, MAX_HUB_PORTS), next);
    }
  }

  lemma BusOrderly(bus: Bus, connected: bool)
    ensures Tidy(bus, EnumerateBus(bus, connected).events)
  {
    hide WalkPort, EnumerateChild, Stranded;
    ChildOrderly(bus, [1], 1);
    PortOrderly(bus, [1], 1);
  }

  // ---- Exclusivity ---------------------------------------------------------------------------------

  lemma AtZeroSince(bus: Bus, es: seq<Event>, k: nat, p: Path) returns (i: nat)
    requires Tidy(bus, es) && k <= |es| && AtZero(es, k, p)
    ensures i < k && es[i] == Reset(p)
    ensures !Stranded(bus, p) ==> i == k - 1 && (k < |es| ==> IsAddressed(es[k], p))
  {
    hide Stranded;
    i :| 0 <= i < k <= |es| && es[i] == Reset(p) && forall j :: i < j < k ==> !IsAddressed(es[j], p);
    assert i + 1 < |es| && Pending(bus, es[i]) ==> IsAddressed(es[i + 1], p);
  }

  /**
   The exact condition, on any bus: no two devices are ever at the default address together iff no
   port is reset once a device has been stranded there.
   */
  lemma ExclusiveIff(bus: Bus, connected: bool)
    ensures var es := EnumerateBus(bus, connected).events;
            Exclusive(es) <==> NoResetAfterStranded(bus, es)
  {
    hide EnumerateBus, Stranded;
    BusOrderly(bus, connected);
    var es := EnumerateBus(bus, connected).events;
    if NoResetAfterStranded(bus, es) {
      forall k, p, q | 0 <= k <= |es| && AtZero(es, k, p) && AtZero(es, k, q) ensures p == q {
        var i := AtZeroSince(bus, es, k, p);
        var j := AtZeroSince(bus, es, k, q);
        assert StrandedReset(bus, es[i]) || i == k - 1;
        assert StrandedReset(bus, es[j]) || j == k - 1;
      }
    }
    if i, j :| 0 <= i < j < |es| && StrandedReset(bus, es[i]) && es[j].Reset? {
      assert AtZero(es, j + 1, es[i].path) && AtZero(es, j + 1, es[j].path);
      assert es[i].path != es[j].path;
    }
  }

  /** While nobody is stranded, every port reset finds the default address free. */
  lemma EveryResetFindsZeroFree(bus: Bus, connected: bool)
    requires forall p :: !Stranded(bus, p)
    ensures var es := EnumerateBus(bus, connected).events;
            Exclusive(es) && forall k, p :: 0 <= k < |es| && es[k].Reset? ==> !AtZero(es, k, p)
  {
    hide EnumerateBus, Stranded;
    BusOrderly(bus, connected);
    ExclusiveIff(bus, connected);
    var es := EnumerateBus(bus, connected).events;
    forall k, p | 0 <= k < |es| && es[k].Reset? ensures !AtZero(es, k, p) {
      if AtZero(es, k, p) {
        var i := AtZeroSince(bus, es, k, p);
      }
    }
  }

  // ---- Which trees are walked exclusively ------------------------------------------------------------

  lemma {:induction false} ResetsWere(es: seq<Event>)
    ensures Resets(es) == [] <==> forall i :: 0 <= i < |es| ==> !es[i].Reset?
  {
    if es != [] {
      ResetsWere(es[1..]);
    }
  }

  /** Only the last port reset may be a stranded one. */
  ghost predicate OnlyLastStranded(bus: Bus, ps: seq<Path>) {
    forall a :: 0 <= a < |ps| - 1 ==> !Stranded(bus, ps[a])
  }

  lemma {:induction false} ResetsInOrder(bus: Bus, es: seq<Event>)
    ensures NoResetAfterStranded(bus, es) <==> OnlyLastStranded(bus, Resets(es))
  {
    hide Stranded;
    if es != [] {
      var rest := es[1..];
      ResetsInOrder(bus, rest);
      ResetsWere(rest);
      NoResetAfterHead(bus, es[0], rest);
      assert [es[0]] + rest == es;
      if es[0].Reset? {
        OnlyLastCons(bus, es[0].path, Resets(rest));
      } else {
        assert Resets(es) == Resets(rest);
      }
    }
  }

  lemma NoResetAfterHead(bus: Bus, e: Event, rest: seq<Event>)
    ensures NoResetAfterStranded(bus, [e] + rest)
            <==> NoResetAfterStranded(bus, rest) && (StrandedReset(bus, e) ==> forall i :: 0 <= i < |rest| ==> !rest[i].Reset?)
  {
    hide StrandedReset;
    var es := [e] + rest;
    if NoResetAfterStranded(bus, es) {
      forall i, j | 0 <= i < j < |rest| && StrandedReset(bus, rest[i]) ensures !rest[j].Reset? {
        assert es[i + 1] == rest[i] && es[j + 1] == rest[j];
      }
      forall i | 0 <= i < |rest| && StrandedReset(bus, e) ensures !rest[i].Reset? {
        assert es[0] == e && es[i + 1] == rest[i];
      }
    }
  }

  lemma OnlyLastCons(bus: Bus, p: Path, rest: seq<Path>)
    ensures OnlyLastStranded(bus, [p] + rest) <==> OnlyLastStranded(bus, rest) && (Stranded(bus, p) ==> rest == [])
  {
    hide Stranded;
    var ps := [p] + rest;
    if OnlyLastStranded(bus, ps) {
      forall a | 0 <= a < |rest| - 1 ensures !Stranded(bus, rest[a]) {
        assert ps[a + 1] == rest[a];
      }
      assert rest != [] ==> !Stranded(bus, ps[0]);
    }
  }

  /** Every port listed is where the tree has it. */
  ghost predicate InTree(root: Slot, ps: seq<Port>) {
    forall k :: 0 <= k < |ps| ==>
      var s := Lookup([root], ps[k].path); s.Plugged? && s.manner == ps[k].manner && s.device.failure == ps[k].failure
  }

  lemma {:induction false} OccupiedInTree(root: Slot, path: Path, s: Slot)
    requires Holds(root, path, s)
    ensures InTree(root, Occupied(path, s))
    decreases s, 1
  {
    hide Lookup;
    if s.Plugged? && s.manner.LetsIn() {
      BelowInTree(root, path, s, 0);
    }
  }

  lemma {:induction false} BelowInTree(root: Slot, path: Path, s: Slot, k: nat)
    requires Holds(root, path, s) && s.Plugged?
    ensures InTree(root, Below(path, s.device, k))
    decreases s, 0, Visible(s.device) - k
  {
    hide Lookup;
    if k < Visible(s.device) {
      LookupSnoc([root], path, k + 1);
      OccupiedInTree(root, path + [k + 1], s.device.ports[k]);
      BelowInTree(root, path, s, k + 1);
    }
  }

  /** A port is stranded iff its device sticks, unless the device fails before or in SET_ADDRESS. */
  lemma StrandedIffSticks(root: Slot, path: Path)
    ensures var s := Lookup([root], path);
            Stranded(TreeBus(root), path)
            <==> s.Plugged? && (!s.manner.LetsIn() || (!s.manner.addressTook && !s.device.failure.AtProbe? && !s.device.failure.AtAddress?))
  {
    hide Lookup;
  }

  /** The ports visited: up to the one that ends the walk. */
  function Reached(ps: seq<Port>, next: nat): (r: seq<Port>)
    ensures |r| <= |ps| && r == ps[..|r|]
  {
    if ps == [] then []
    else
      var one := Visit(ps[0], next);
      [ps[0]] + if one.result != Ok(()) then [] else Reached(ps[1..], one.next)
  }

  /** They are the ones reset, and all but the last let the walk go on. */
  lemma {:induction false} ReachedReset(ps: seq<Port>, next: nat)
    ensures var r := Reached(ps, next);
            && Pass(ps, next).resets == Paths(r)
            && (forall k :: 0 <= k < |r| - 1 ==> !r[k].manner.LetsIn() || r[k].failure.Never?)
            && (Pass(ps, next).result == Ok(()) ==> r == ps)
    decreases |ps|
  {
    hide Pass, Reached, Visit;
    if ps == [] {
      NothingReached(next);
    } else {
      var p, rest := ps[0], ps[1..];
      assert [p] + rest == ps;
      var one := Visit(p, next);
      PassCons(p, rest, next);
      ReachedCons(p, rest, next);
      VisitGoesOn(p, next);
      if one.result == Ok(()) {
        ReachedReset(rest, one.next);
      }
    }
  }

  lemma NothingReached(next: nat)
    ensures Reached([], next) == [] && Pass([], next).resets == []
  {
  }

  lemma ReachedCons(p: Port, rest: seq<Port>, next: nat)
    ensures var one := Visit(p, next);
            Reached([p] + rest, next) == [p] + if one.result != Ok(()) then [] else Reached(rest, one.next)
  {
    hide Visit;
    assert ([p] + rest)[1..] == rest;
  }

  lemma VisitGoesOn(p: Port, next: nat)
    ensures Visit(p, next).resets == [p.path]
    ensures Visit(p, next).result == Ok(()) ==> !p.manner.LetsIn() || p.failure.Never?
  {
  }

  function Paths(ps: seq<Port>): (r: seq<Path>)
    ensures |r| == |ps| && forall k :: 0 <= k < |r| ==> r[k] == ps[k].path
  {
    seq(|ps|, k requires 0 <= k < |ps| => ps[k].path)
  }

  /** The ports that are reset, in order. */
  function ResetPorts(root: Slot): seq<Port> {
    Reached(Occupied([1], root), 1)
  }

  lemma BusResets(root: Slot)
    ensures Resets(EnumerateBus(TreeBus(root), true).events) == Paths(ResetPorts(root))
    ensures EnumerateBus(TreeBus(root), true).result == Ok(()) ==> ResetPorts(root) == Occupied([1], root)
  {
    hide EnumerateBus, Reached, Enums, Resets, Occupied, Pass;
    WalkIsPass(root);
    ReachedReset(Occupied([1], root), 1);
  }

  /**
   Over the tree alone: no two devices are ever at the default address together iff none but the last port to be
   reset keeps its device there. If the walk succeeds all occupied ports are reset, in preorder.
   */
  lemma ExclusiveTreeIff(root: Slot)
    ensures var w, ps := EnumerateBus(TreeBus(root), true), ResetPorts(root);
            && (Exclusive(w.events) <==> forall a :: 0 <= a < |ps| - 1 ==> !ps[a].manner.Sticks())
            && (w.result == Ok(()) ==> ps == Occupied([1], root))
  {
    hide EnumerateBus, Stranded, Reached, Occupied, Exclusive, Lookup;
    var bus, all, ps := TreeBus(root), Occupied([1], root), ResetPorts(root);
    var es := EnumerateBus(bus, true).events;
    BusResets(root);
    ExclusiveIff(bus, true);
    ResetsInOrder(bus, es);
    RootHolds(root);
    OccupiedInTree(root, [1], root);
    ReachedReset(all, 1);
    forall a | 0 <= a < |ps| - 1
      ensures Stranded(bus, Resets(es)[a]) <==> ps[a].manner.Sticks()
    {
      assert ps[a] == all[a];
      StrandedIffSticks(root, ps[a].path);
    }
  }

  // ---- A hub that loses one acknowledgement ----------------------------------------------------

  const WORKING: PortAnswers := PortAnswers(Some(true), true, true, true, true, Some(true), PLAIN_DEVICE)

  /** A two-port hub whose first port fails the clearing of its reset-change bit. */
  function LossyBus(path: Path): PortAnswers {
    if path == [1] then WORKING.(device := PLAIN_DEVICE.(devClass := USB_CLASS_HUB, numPorts := 2))
    else if path == [1, 1] then WORKING.(clearReset := false)
    else WORKING
  }

  /** The failed port is passed over, and the device on the second port comes up beside the first. */
  lemma TwoAtZero()
    ensures var w := EnumerateBus(LossyBus, true);
            && w.result == Ok(())
            && w.events == [Reset([1]), Addressed([1], 1), Enumerated([1], 1), Reset([1, 1]),
                            Reset([1, 2]), Addressed([1, 2], 2), Enumerated([1, 2], 2)]
            && !Exclusive(w.events)
  {
    LossyRoot();
    LossyFirst();
    LossySecond();
    LossyPorts();
    hide WalkPorts, LossyBus, EnumerateChild;
    var es := EnumerateBus(LossyBus, true).events;
    assert es[3] == Reset([1, 1]) && es[4] == Reset([1, 2]);
    assert AtZero(es, 5, [1, 1]) && AtZero(es, 5, [1, 2]) && [1, 1] != [1, 2];
  }

  lemma LossyRoot()
    ensures EnumerateChild(LossyBus, [1], 1) == Walk(Ok(()), 2, [Reset([1]), Addressed([1], 1), Enumerated([1], 1)])
    ensures var d := LossyBus([1]).device; IsHub(d) && d.hubDescriptor.None? && d.numPorts == 2
  {
  }

  lemma LossyFirst()
    ensures WalkPort(LossyBus, [1, 1], 2) == Walk(Ok(()), 2, [Reset([1, 1])])
  {
  }

  lemma LossySecond()
    ensures WalkPort(LossyBus, [1, 2], 2) == Walk(Ok(()), 3, [Reset([1, 2]), Addressed([1, 2], 2), Enumerated([1, 2], 2)])
  {
    assert Enumerate(LossyBus, [1, 2], 2) == Walk(Ok(()), 3, [Addressed([1, 2], 2), Enumerated([1, 2], 2)]);
    assert Dispatch(LossyBus, [1, 2], 3) == Walk(Ok(()), 3, []);
  }

  lemma LossyPorts()
    ensures WalkPorts(LossyBus, [1], 1, 2, 2)
            == Walk(Ok(()), 3, [Reset([1, 1]), Reset([1, 2]), Addressed([1, 2], 2), Enumerated([1, 2], 2)])
  {
    LossyFirst();
    LossySecond();
    hide WalkPort, LossyBus;
    var port: nat, nports: nat, next: nat := 1, 2, 2;
    assert [1] + [port] == [1, 1] && [1] + [port + 1] == [1, 2];
    assert WalkPorts(LossyBus, [1], port + 2, nports, 3) == Walk(Ok(()), 3, []);
    assert WalkPorts(LossyBus, [1], port + 1, nports, next).events == [Reset([1, 2]), Addressed([1, 2], 2), Enumerated([1, 2], 2)] + [];
    assert WalkPorts(LossyBus, [1], port, nports, next).events
           == [Reset([1, 1])] + [Reset([1, 2]), Addressed([1, 2], 2), Enumerated([1, 2], 2)];
  }
}
