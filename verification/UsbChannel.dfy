/**
 EP0 host channel: one transfer is retried a bounded number of times with the same packet.
 The other end is a device that follows the data-toggle rules of section 8.6 of USB 2.0, and a
 schedule that decides, attempt by attempt, what the bus delivers and what the host reads back.
 */
module UsbChannel {
  import opened Arith
  import opened UsbErrors

  const NAK_RETRIES: nat := 64
  const XACT_RETRIES: nat := 8

  /** The four causes of a halt that `xfer` looks at. */
  datatype Snapshot = Snapshot(stall: bool, xactErr: bool, nak: bool, xferCompl: bool)

  /** What one attempt gives the host: the channel never came free, never halted, or halted with a snapshot. */
  datatype Attempt = ArmTimeout | HaltTimeout | Halted(st: Snapshot)

  datatype Event = Event(attempt: Attempt, delivered: bool)

  type Schedule = nat -> Event

  /** How the host sorts an attempt, in the order it tests the bits. */
  datatype Class = NoHalt | Stalled | XactErr | Nak | NotComplete | Complete

  function ClassOf(a: Attempt): Class {
    match a
    case ArmTimeout | HaltTimeout => NoHalt
    case Halted(st) =>
      if st.stall then Stalled
      else if st.xactErr then XactErr
      else if st.nak then Nak
      else if !st.xferCompl then NotComplete
      else Complete
  }

  /**
   The bus is honest: nothing is sent while the channel is still busy, and a transfer that
   completes without an error bit did reach the device. Everything else may happen.
   */
  ghost predicate Honest(sched: Schedule) {
    forall t: nat ::
      && (sched(t).attempt.ArmTimeout? ==> !sched(t).delivered)
      && (ClassOf(sched(t).attempt) == Complete ==> sched(t).delivered)
  }

  // ---- The device ------------------------------------------------------------------------

  datatype Packet = Setup(request: seq<Byte>) | Out(data1: bool, bytes: seq<Byte>) | In(data1: bool)

  /** `accepted` is the OUT data taken since the last SETUP, `confirmed` whether a STATUS packet has come since. */
  datatype Device = Device(request: seq<Byte>, expectData1: bool, accepted: seq<Byte>, confirmed: bool)

  /** SETUP restarts the sequence at DATA1; OUT data with the wrong toggle is acknowledged and dropped; STATUS is an IN of DATA1. */
  function Receive(d: Device, p: Packet): Device {
    match p
    case Setup(request) => Device(request, true, [], false)
    case Out(data1, bytes) =>
      if data1 == d.expectData1 then d.(expectData1 := !d.expectData1, accepted := d.accepted + bytes) else d
    case In(data1) => if data1 then d.(confirmed := true) else d
  }

  function After(d: Device, e: Event, p: Packet): Device {
    if e.delivered then Receive(d, p) else d
  }

  // ---- One transfer ----------------------------------------------------------------------

  /** `Fallthrough` is the end of the retry loop, which the source declares unreachable. */
  datatype XferResult = Done | Failed(error: UsbError) | Fallthrough

  datatype Xfer = Xfer(result: XferResult, device: Device, now: nat)

  /** The retry loop from a given attempt on, with a given budget for transaction errors. */
  function XferFrom(d: Device, sched: Schedule, now: nat, p: Packet, attempt: nat, xactLeft: nat): Xfer
    requires attempt <= NAK_RETRIES + 1
    decreases NAK_RETRIES + 1 - attempt
  {
    if attempt == NAK_RETRIES + 1 then Xfer(Fallthrough, d, now)
    else
      var d' := After(d, sched(now), p);
      match ClassOf(sched(now).attempt)
      case NoHalt => Xfer(Failed(Timeout), d', now + 1)
      case Stalled => Xfer(Failed(Stall), d', now + 1)
      case XactErr =>
        if xactLeft == 0 then Xfer(Failed(Protocol("ch xfer error (XACT)")), d', now + 1)
        else XferFrom(d', sched, now + 1, p, attempt + 1, xactLeft - 1)
      case Nak =>
        if attempt == NAK_RETRIES then Xfer(Failed(Protocol("ch xfer NAK exhausted")), d', now + 1)
        else XferFrom(d', sched, now + 1, p, attempt + 1, xactLeft)
      case NotComplete => Xfer(Failed(Protocol("CHHLTD without XFERCOMPL")), d', now + 1)
      case Complete => Xfer(Done, d', now + 1)
  }

  function XferOf(d: Device, sched: Schedule, now: nat, p: Packet): Xfer {
    XferFrom(d, sched, now, p, 0, XACT_RETRIES)
  }

  // ---- What the loop does with any sequence of attempts ------------------------------------

  predicate Retried(a: Attempt) {
    ClassOf(a) == XactErr || ClassOf(a) == Nak
  }

  /** Transaction errors among the n attempts from `now` on. */
  function XactErrors(sched: Schedule, now: nat, n: nat): nat
    decreases n
  {
    if n == 0 then 0
    else (if ClassOf(sched(now).attempt) == XactErr then 1 else 0) + XactErrors(sched, now + 1, n - 1)
  }

  ghost predicate AllRetried(sched: Schedule, now: nat, n: nat) {
    forall j: nat :: now <= j < now + n ==> Retried(sched(j).attempt)
  }

  /** n attempts are retried and the next one is the last. */
  ghost predicate EndsAt(sched: Schedule, now: nat, n: nat, xactLeft: nat, last: Class) {
    AllRetried(sched, now, n) && XactErrors(sched, now, n) <= xactLeft && ClassOf(sched(now + n).attempt) == last
  }

  lemma {:induction false} RetryLoop(d: Device, sched: Schedule, now: nat, p: Packet, attempt: nat, xactLeft: nat) returns (n: nat)
    requires attempt <= NAK_RETRIES
    ensures var r := XferFrom(d, sched, now, p, attempt, xactLeft);
            && attempt + n <= NAK_RETRIES && r.now == now + n + 1
            && AllRetried(sched, now, n) && XactErrors(sched, now, n) <= xactLeft
            && (r.result == Done <==> ClassOf(sched(now + n).attempt) == Complete)
            && (r.result == Fallthrough <==>
                attempt + n == NAK_RETRIES && ClassOf(sched(now + n).attempt) == XactErr && XactErrors(sched, now, n) < xactLeft)
            && (Retried(sched(now + n).attempt) ==>
                attempt + n == NAK_RETRIES || (ClassOf(sched(now + n).attempt) == XactErr && XactErrors(sched, now, n) == xactLeft))
    decreases NAK_RETRIES - attempt
  {
    var c := ClassOf(sched(now).attempt);
    if attempt < NAK_RETRIES && (c == Nak || (c == XactErr && xactLeft > 0)) {
      var m := RetryLoop(After(d, sched(now), p), sched, now + 1, p, attempt + 1, if c == XactErr then xactLeft - 1 else xactLeft);
      n := m + 1;
    } else {
      n := 0;
      if attempt == NAK_RETRIES && c == XactErr && xactLeft > 0 {
        assert XferFrom(After(d, sched(now), p), sched, now + 1, p, attempt + 1, xactLeft - 1).result == Fallthrough;
      }
    }
  }

  /** NAK or a transaction error, and no STALL. */
  predicate TriedAgain(a: Attempt) {
    a.Halted? && !a.st.stall && (a.st.xactErr || a.st.nak)
  }

  /**
   How a transfer ends, in the bits that the controller shows: n attempts are tried again, and the next
   is the last. It decides the result: a channel that does not come free or halt times out, STALL goes
   before a transaction error, that before NAK, and only a halt without any of them is looked at further.
   */
  lemma XferEnds(d: Device, sched: Schedule, now: nat, p: Packet) returns (n: nat)
    ensures var x, last := XferOf(d, sched, now, p), sched(now + n).attempt;
            && n <= 64 && x.now == now + n + 1 && (forall j: nat :: now <= j < now + n ==> TriedAgain(sched(j).attempt))
            && x.result == if !last.Halted? then Failed(Timeout)
                           else if last.st.stall then Failed(Stall)
                           else if last.st.xactErr then
                             if XactErrors(sched, now, n) == 8 then Failed(Protocol("ch xfer error (XACT)")) else Fallthrough
                           else if last.st.nak then Failed(Protocol("ch xfer NAK exhausted"))
                           else if last.st.xferCompl then Done
                           else Failed(Protocol("CHHLTD without XFERCOMPL"))
    ensures TriedAgain(sched(now + n).attempt) ==> n == 64 || (sched(now + n).attempt.st.xactErr && XactErrors(sched, now, n) == 8)
  {
    hide XferFrom, XactErrors;
    n := RetryLoop(d, sched, now, p, 0, XACT_RETRIES);
    LastDecides(d, sched, now, p, 0, XACT_RETRIES, n);
  }

  lemma {:induction false} LastDecides(d: Device, sched: Schedule, now: nat, p: Packet, attempt: nat, xactLeft: nat, n: nat)
    requires attempt + n <= NAK_RETRIES && AllRetried(sched, now, n) && XactErrors(sched, now, n) <= xactLeft
    requires Retried(sched(now + n).attempt) ==>
               attempt + n == NAK_RETRIES || (ClassOf(sched(now + n).attempt) == XactErr && XactErrors(sched, now, n) == xactLeft)
    ensures XferFrom(d, sched, now, p, attempt, xactLeft).result
            == match ClassOf(sched(now + n).attempt)
               case NoHalt => Failed(Timeout)
               case Stalled => Failed(Stall)
               case XactErr => if XactErrors(sched, now, n) == xactLeft then Failed(Protocol("ch xfer error (XACT)")) else Fallthrough
               case Nak => Failed(Protocol("ch xfer NAK exhausted"))
               case NotComplete => Failed(Protocol("CHHLTD without XFERCOMPL"))
               case Complete => Done
    decreases n
  {
    if n > 0 {
      assert Retried(sched(now).attempt);
      var c := ClassOf(sched(now).attempt);
      LastDecides(After(d, sched(now), p), sched, now + 1, p, attempt + 1, if c == XactErr then xactLeft - 1 else xactLeft, n - 1);
    }
  }

  /** At most 65 attempts; success exactly when only retried attempts, with at most 8 transaction errors, precede a clean completion. */
  lemma XferDoneIff(d: Device, sched: Schedule, now: nat, p: Packet)
    ensures now < XferOf(d, sched, now, p).now <= now + NAK_RETRIES + 1
    ensures XferOf(d, sched, now, p).result == Done
            <==> exists n: nat :: n <= NAK_RETRIES && EndsAt(sched, now, n, XACT_RETRIES, Complete)
  {
    hide XferFrom, XactErrors, ClassOf;
    var n := RetryLoop(d, sched, now, p, 0, XACT_RETRIES);
    if XferOf(d, sched, now, p).result == Done {
      assert EndsAt(sched, now, n, XACT_RETRIES, Complete);
    }
    forall m: nat | m <= NAK_RETRIES && EndsAt(sched, now, m, XACT_RETRIES, Complete)
      ensures m == n
    {
      StopsOnce(sched, now, m, n);
    }
  }

  /** The end of the loop is reached, against the source's expectation, exactly when the 65th attempt is a transaction error with budget left. */
  lemma FallthroughIff(d: Device, sched: Schedule, now: nat, p: Packet)
    ensures XferOf(d, sched, now, p).result == Fallthrough
            <==> EndsAt(sched, now, NAK_RETRIES, XACT_RETRIES - 1, XactErr)
  {
    hide XferFrom, XactErrors, ClassOf;
    var n := RetryLoop(d, sched, now, p, 0, XACT_RETRIES);
    if EndsAt(sched, now, NAK_RETRIES, XACT_RETRIES - 1, XactErr) && n < NAK_RETRIES {
      assert Retried(sched(now + n).attempt);
      XactErrorsSplit(sched, now, n, NAK_RETRIES);
      assert false;
    }
  }

  lemma {:induction false} XactErrorsSplit(sched: Schedule, now: nat, n: nat, m: nat)
    requires n < m
    ensures XactErrors(sched, now, m)
            >= XactErrors(sched, now, n) + if ClassOf(sched(now + n).attempt) == XactErr then 1 else 0
    decreases n
  {
    if n > 0 { XactErrorsSplit(sched, now + 1, n - 1, m - 1); }
  }

  lemma StopsOnce(sched: Schedule, now: nat, m: nat, n: nat)
    requires EndsAt(sched, now, m, XACT_RETRIES, Complete)
    requires AllRetried(sched, now, n)
    requires Retried(sched(now + n).attempt) ==>
             n == NAK_RETRIES || (ClassOf(sched(now + n).attempt) == XactErr && XactErrors(sched, now, n) == XACT_RETRIES)
    requires m <= NAK_RETRIES && n <= NAK_RETRIES
    ensures m == n
  {
    hide XactErrors, ClassOf;
    if n < m {
      assert Retried(sched(now + n).attempt);
      XactErrorsSplit(sched, now, n, m);
    }
  }

  // ---- The alternating bit ------------------------------------------------------------------

  /** The device d0 once it has taken the packet. */
  ghost predicate Taken(d: Device, d0: Device, bytes: seq<Byte>) {
    d == d0.(expectData1 := !d0.expectData1, accepted := d0.accepted + bytes)
  }

  /**
   However often a packet is retried, the device takes it at most once: a completed transfer has
   been taken exactly once, a failed one at most once.
   */
  lemma {:induction false} TakenOnce(d: Device, d0: Device, sched: Schedule, now: nat, bytes: seq<Byte>, attempt: nat, xactLeft: nat)
    requires Honest(sched) && attempt <= NAK_RETRIES + 1
    requires d == d0 || Taken(d, d0, bytes)
    ensures var r := XferFrom(d, sched, now, Out(d0.expectData1, bytes), attempt, xactLeft);
            && (r.device == d0 || Taken(r.device, d0, bytes))
            && (r.result == Done ==> Taken(r.device, d0, bytes))
    decreases NAK_RETRIES + 1 - attempt
  {
    if attempt <= NAK_RETRIES {
      var d' := After(d, sched(now), Out(d0.expectData1, bytes));
      match ClassOf(sched(now).attempt)
      case XactErr =>
        if xactLeft > 0 { TakenOnce(d', d0, sched, now + 1, bytes, attempt + 1, xactLeft - 1); }
      case Nak =>
        if attempt < NAK_RETRIES { TakenOnce(d', d0, sched, now + 1, bytes, attempt + 1, xactLeft); }
      case _ =>
    }
  }

  /** SETUP and IN packets, retried or not: the first restarts the device's data, the second leaves it alone and confirms it. */
  lemma {:induction false} ControlPackets(d: Device, d0: Device, sched: Schedule, now: nat, p: Packet, attempt: nat, xactLeft: nat)
    requires Honest(sched) && attempt <= NAK_RETRIES + 1 && !p.Out?
    requires d == d0 || d == Receive(d0, p)
    ensures var r := XferFrom(d, sched, now, p, attempt, xactLeft);
            && (r.device == d0 || r.device == Receive(d0, p))
            && (r.result == Done ==> r.device == Receive(d0, p))
    decreases NAK_RETRIES + 1 - attempt
  {
    if attempt <= NAK_RETRIES {
      var d' := After(d, sched(now), p);
      match ClassOf(sched(now).attempt)
      case XactErr =>
        if xactLeft > 0 { ControlPackets(d', d0, sched, now + 1, p, attempt + 1, xactLeft - 1); }
      case Nak =>
        if attempt < NAK_RETRIES { ControlPackets(d', d0, sched, now + 1, p, attempt + 1, xactLeft); }
      case _ =>
    }
  }

  /** The device is busy 64 times, then an attempt is garbled. */
  function BusyThenGarbled(t: nat): Event {
    Event(Halted(Snapshot(false, t == NAK_RETRIES, t < NAK_RETRIES, false)), false)
  }

  /** 64 NAKs and one transaction error: the transfer ends where the source expects it never to. */
  lemma FallsThrough(d: Device, p: Packet)
    ensures XferOf(d, BusyThenGarbled, 0, p) == Xfer(Fallthrough, d, NAK_RETRIES + 1)
  {
    NothingDelivered(d, p, NAK_RETRIES);
  }

  lemma {:induction false} NothingDelivered(d: Device, p: Packet, left: nat)
    requires left <= NAK_RETRIES
    ensures XferFrom(d, BusyThenGarbled, NAK_RETRIES - left, p, NAK_RETRIES - left, XACT_RETRIES) == Xfer(Fallthrough, d, NAK_RETRIES + 1)
    decreases left
  {
    if left > 0 {
      NothingDelivered(d, p, left - 1);
    } else {
      EndOfLoop(d, p);
    }
  }

  lemma EndOfLoop(d: Device, p: Packet)
    ensures XferFrom(d, BusyThenGarbled, NAK_RETRIES + 1, p, NAK_RETRIES + 1, XACT_RETRIES - 1) == Xfer(Fallthrough, d, NAK_RETRIES + 1)
  {
  }
}
