/**
 EP0 control transfers: SETUP, an OUT data stage cut into packets with alternating DATA1/DATA0,
 and STATUS, over the retrying channel. Against a device that follows the toggle rules the data
 stage is an alternating-bit protocol.
 */
module UsbControl {
  import opened Arith
  import opened UsbChannel
  import opened UsbErrors
  import opened Dwc2

  const OFF_EP0: nat := 0
  const DMA_OFF_SMALL_IO: nat := 256

  datatype Pid = PidSetup | PidData0 | PidData1

  /** One write of HCTSIZ with its DMA address. */
  datatype Armed = Armed(pid: Pid, size: nat, dmaOff: nat)

  function NormalizeMps(b: Byte): (mps: nat)
    ensures mps in {8, 16, 32, 64} && (b in {8, 16, 32, 64} ==> mps == b) && (b !in {8, 16, 32, 64} ==> mps == 8)
  {
    if b == 8 || b == 16 || b == 32 || b == 64 then b else 8
  }

  /** The packet the controller sends for a transfer: OUT and SETUP data come from the DMA window. */
  function PacketOf(dma: seq<Byte>, a: Armed, dirIn: bool): Packet
    requires a.dmaOff + a.size <= |dma|
  {
    if dirIn then In(a.pid == PidData1)
    else if a.pid == PidSetup then Setup(dma[a.dmaOff..a.dmaOff + a.size])
    else Out(a.pid == PidData1, dma[a.dmaOff..a.dmaOff + a.size])
  }

  /** The small DMA window, the channel registers written, and the device on the bus. */
  class Controller {
    const dma: array<Byte>
    const sched: Schedule
    var device: Device
    var now: nat
    var armed: seq<Armed>

    ghost predicate Valid() {
      dma.Length == EP0_REGION_BYTES
    }

    constructor (sched: Schedule, device: Device)
      ensures Valid() && fresh(dma) && this.sched == sched && this.device == device && now == 0 && armed == []
    {
      this.sched := sched;
      this.device := device;
      now := 0;
      armed := [];
      dma := new Byte[EP0_REGION_BYTES](_ => 0);
    }

    /** One attempt: write the registers, let the bus act, read back what the host sees. */
    method Arm(a: Armed, dirIn: bool) returns (seen: Attempt)
      requires Valid() && a.dmaOff + a.size <= dma.Length
      modifies this
      ensures seen == sched(old(now)).attempt && now == old(now) + 1
      ensures device == After(old(device), sched(old(now)), PacketOf(dma[..], a, dirIn))
      ensures armed == if seen.ArmTimeout? then old(armed) else old(armed) + [a]
    {
      var e := sched(now);
      seen := e.attempt;
      if !seen.ArmTimeout? {
        armed := armed + [a];
      }
      device := After(device, e, PacketOf(dma[..], a, dirIn));
      now := now + 1;
    }

    /** The bounded retry loop. Every attempt arms the channel with the same packet. */
    method Xfer(a: Armed, dirIn: bool) returns (r: XferResult)
      requires Valid() && a.dmaOff + a.size <= dma.Length
      modifies this
      ensures XferOf(old(device), sched, old(now), PacketOf(dma[..], a, dirIn)) == UsbChannel.Xfer.Xfer(r, device, now)
      ensures old(armed) <= armed && |armed| <= |old(armed)| + NAK_RETRIES + 1
      ensures forall k :: |old(armed)| <= k < |armed| ==> armed[k] == a
    {
      var xactLeft := XACT_RETRIES;
      ghost var p := PacketOf(dma[..], a, dirIn);
      ghost var all := XferOf(device, sched, now, p);
      for attempt := 0 to NAK_RETRIES + 1
        invariant dma[..] == old(dma[..])
        invariant XferFrom(device, sched, now, p, attempt, xactLeft) == all
        invariant old(armed) <= armed && |armed| <= |old(armed)| + attempt
        invariant forall k :: |old(armed)| <= k < |armed| ==> armed[k] == a
      {
        var seen := Arm(a, dirIn);
        match seen
        case ArmTimeout | HaltTimeout =>
          return Failed(Timeout);
        case Halted(st) =>
          if st.stall {
            return Failed(Stall);
          }
          if st.xactErr {
            if xactLeft == 0 {
              return Failed(Protocol("ch xfer error (XACT)"));
            }
            xactLeft := xactLeft - 1;
          } else if st.nak {
            if attempt == NAK_RETRIES {
              return Failed(Protocol("ch xfer NAK exhausted"));
            }
          } else if !st.xferCompl {
            return Failed(Protocol("CHHLTD without XFERCOMPL"));
          } else {
            return Done;
          }
      }
      return Fallthrough;
    }

    /** Copy bytes into the DMA window. */
    method Copy(off: nat, bytes: seq<Byte>)
      requires Valid() && off + |bytes| <= dma.Length
      modifies dma
      ensures dma[off..off + |bytes|] == bytes
      ensures dma[..off] == old(dma[..off]) && dma[off + |bytes|..] == old(dma[off + |bytes|..])
    {
      forall k | 0 <= k < |bytes| {
        dma[off + k] := bytes[k];
      }
    }
  }

  // ---- A whole control write, as a function of the schedule --------------------------------

  /** `sent` is how many bytes of the data stage completed before the transfer ended. */
  datatype WriteRun = WriteRun(result: XferResult, device: Device, now: nat, sent: nat)

  /** The data stage from byte `sent` on. */
  function DataStage(d: Device, sched: Schedule, now: nat, data: seq<Byte>, mps: nat, data1: bool, sent: nat): WriteRun
    requires mps >= 1 && sent <= |data|
    decreases |data| - sent
  {
    if sent == |data| then WriteRun(Done, d, now, sent)
    else
      var end := Min(sent + mps, |data|);
      var x := XferOf(d, sched, now, Out(data1, data[sent..end]));
      if x.result == Done then DataStage(x.device, sched, x.now, data, mps, !data1, end)
      else WriteRun(x.result, x.device, x.now, sent)
  }

  function ControlWrite(d: Device, sched: Schedule, now: nat, request: seq<Byte>, data: seq<Byte>, mps: nat): WriteRun
    requires mps >= 1
  {
    if |data| > 4096 then WriteRun(Failed(Protocol("bad control_ep write data len")), d, now, 0)
    else
      var setup := XferOf(d, sched, now, Setup(request));
      if setup.result != Done then WriteRun(setup.result, setup.device, setup.now, 0)
      else
        var stage := DataStage(setup.device, sched, setup.now, data, mps, true, 0);
        if stage.result != Done then stage
        else
          var status := XferOf(stage.device, sched, stage.now, In(true));
          WriteRun(status.result, status.device, status.now, stage.sent)
  }

  /** SETUP and STATUS without a data stage. */
  function NoDataWrite(d: Device, sched: Schedule, now: nat, request: seq<Byte>): Xfer {
    var setup := XferOf(d, sched, now, Setup(request));
    if setup.result != Done then setup else XferOf(setup.device, sched, setup.now, In(true))
  }

  /** EP0 of an addressed device: its address and packet size. */
  class ControlEp {
    var dev: nat
    const mps: nat
    const bus: Controller

    ghost predicate Valid() {
      bus.Valid() && 1 <= mps <= 64
    }

    constructor (bus: Controller, b: Byte)
      requires bus.Valid()
      ensures Valid() && this.bus == bus && dev == 0 && mps == NormalizeMps(b)
    {
      this.bus := bus;
      dev := 0;
      mps := NormalizeMps(b);
    }

    method SetupStage(request: seq<Byte>) returns (r: XferResult)
      requires Valid() && |request| == 8
      modifies bus, bus.dma
      ensures XferOf(old(bus.device), bus.sched, old(bus.now), Setup(request)) == Xfer(r, bus.device, bus.now)
    {
      bus.Copy(OFF_EP0, request);
      r := bus.Xfer(Armed(PidSetup, 8, OFF_EP0), false);
    }

    method StatusStage(dirIn: bool) returns (r: XferResult)
      requires Valid()
      modifies bus
      ensures XferOf(old(bus.device), bus.sched, old(bus.now), if dirIn then In(true) else Out(true, [])) == Xfer(r, bus.device, bus.now)
    {
      assert bus.dma[..][OFF_EP0..OFF_EP0] == [];
      r := bus.Xfer(Armed(PidData1, 0, OFF_EP0), dirIn);
    }

    /** SETUP, the data in packets of at most `mps` bytes, STATUS. */
    method Write(request: seq<Byte>, data: seq<Byte>) returns (r: XferResult, ghost sent: nat)
      requires Valid() && |request| == 8
      modifies bus, bus.dma
      ensures ControlWrite(old(bus.device), bus.sched, old(bus.now), request, data, mps) == WriteRun(r, bus.device, bus.now, sent)
    {
      sent := 0;
      if |data| > 4096 {
        return Failed(Protocol("bad control_ep write data len")), 0;
      }
      r := SetupStage(request);
      if r != Done {
        return;
      }
      ghost var all := DataStage(bus.device, bus.sched, bus.now, data, mps, true, 0);
      var data1, off := true, 0;
      while off < |data|
        invariant off <= |data| && sent == off
        invariant DataStage(bus.device, bus.sched, bus.now, data, mps, data1, off) == all
        invariant r == Done
      {
        var end := Min(off + mps, |data|);
        var chunk := data[off..end];
        bus.Copy(DMA_OFF_SMALL_IO, chunk);
        assert bus.dma[..][DMA_OFF_SMALL_IO..DMA_OFF_SMALL_IO + |chunk|] == chunk;
        r := bus.Xfer(Armed(if data1 then PidData1 else PidData0, |chunk|, DMA_OFF_SMALL_IO), false);
        if r != Done {
          return;
        }
        data1 := !data1;
        off := end;
        sent := off;
      }
      r := StatusStage(true);
    }

    method WriteNoData(request: seq<Byte>) returns (r: XferResult)
      requires Valid() && |request| == 8
      modifies bus, bus.dma
      ensures NoDataWrite(old(bus.device), bus.sched, old(bus.now), request) == Xfer(r, bus.device, bus.now)
    {
      r := SetupStage(request);
      if r == Done {
        r := StatusStage(true);
      }
    }

    /** On success of SET_ADDRESS at the default address the handle moves to the new one; elsewhere nothing is sent. */
    method SetAddress(addr: nat, request: seq<Byte>) returns (r: XferResult)
      requires Valid() && |request| == 8
      modifies this, bus, bus.dma
      ensures old(dev) == 0 ==> NoDataWrite(old(bus.device), bus.sched, old(bus.now), request) == Xfer(r, bus.device, bus.now)
      ensures old(dev) != 0 ==>
                && r == Failed(Protocol("set_address on non-default address"))
                && bus.now == old(bus.now) && bus.device == old(bus.device) && bus.armed == old(bus.armed)
      ensures dev == if old(dev) == 0 && r == Done then addr else old(dev)
    {
      if dev != 0 {
        return Failed(Protocol("set_address on non-default address"));
      }
      r := WriteNoData(request);
      if r == Done {
        dev := addr;
      }
    }
  }

  // ---- Exactly once ---------------------------------------------------------------------------

  /** The alternating bit: packets before `sent` are in, in order and once; the packet a failure stopped at may be in as well. */
  lemma {:induction false} DataStageExact(d: Device, sched: Schedule, now: nat, data: seq<Byte>, mps: nat, sent: nat)
    requires Honest(sched) && mps >= 1 && sent <= |data| && d.accepted == data[..sent]
    ensures var r := DataStage(d, sched, now, data, mps, d.expectData1, sent);
            && sent <= r.sent <= |data| && r.device.request == d.request && r.device.confirmed == d.confirmed
            && (r.result == Done ==> r.sent == |data| && r.device.accepted == data)
            && (r.result != Done ==> r.sent < |data|)
            && (r.result != Done ==> (r.device.accepted == data[..r.sent] || r.device.accepted == data[..Min(r.sent + mps, |data|)]))
    decreases |data| - sent
  {
    hide XferFrom;
    if sent < |data| {
      var end := Min(sent + mps, |data|);
      TakenOnce(d, d, sched, now, data[sent..end], 0, XACT_RETRIES);
      assert data[..sent] + data[sent..end] == data[..end];
      var x := XferOf(d, sched, now, Out(d.expectData1, data[sent..end]));
      if x.result == Done {
        DataStageExact(x.device, sched, x.now, data, mps, end);
      }
    }
  }

  /** A failure stops at a packet boundary. */
  lemma {:induction false} StopsAtPacket(d: Device, sched: Schedule, now: nat, data: seq<Byte>, mps: nat, data1: bool, k: nat)
    requires mps >= 1 && k * mps <= |data|
    ensures var r := DataStage(d, sched, now, data, mps, data1, k * mps);
            r.result != Done ==> exists m: nat :: r.sent == m * mps
    decreases |data| - k * mps
  {
    hide XferFrom;
    var end := Min(k * mps + mps, |data|);
    var x := XferOf(d, sched, now, Out(data1, data[k * mps..end]));
    if x.result == Done && end < |data| {
      assert end == (k + 1) * mps;
      StopsAtPacket(x.device, sched, x.now, data, mps, !data1, k + 1);
    }
  }

  /**
   Exactly once, for the whole transfer and under every schedule: if it succeeds the device has
   accepted exactly `data` and seen the STATUS packet; if not, it was never reached, or it holds exactly the packets that
   completed, with or without the one the transfer stopped at.
   */
  lemma ControlWriteExactlyOnce(d: Device, sched: Schedule, now: nat, request: seq<Byte>, data: seq<Byte>, mps: nat)
    requires Honest(sched) && mps >= 1
    ensures var r := ControlWrite(d, sched, now, request, data, mps);
            && r.sent <= |data|
            && (r.result == Done ==> r.sent == |data| <= 4096 && r.device.request == request && r.device.accepted == data && r.device.confirmed)
            && (0 < r.sent == |data| ==> r.device.accepted == data)
            && (r.result != Done ==>
                r.device == d ||
                (r.device.request == request && (r.device.confirmed ==> r.sent == |data|) &&
                 (r.device.accepted == data[..r.sent] || r.device.accepted == data[..Min(r.sent + mps, |data|)])))
  {
    hide XferFrom;
    ControlPackets(d, d, sched, now, Setup(request), 0, XACT_RETRIES);
    var setup := XferOf(d, sched, now, Setup(request));
    if |data| <= 4096 && setup.result == Done {
      assert setup.device == Device(request, true, [], false);
      DataStageExact(setup.device, sched, setup.now, data, mps, 0);
      var stage := DataStage(setup.device, sched, setup.now, data, mps, true, 0);
      if stage.result == Done {
        ControlPackets(stage.device, stage.device, sched, stage.now, In(true), 0, XACT_RETRIES);
        assert data[..|data|] == data;
      }
    } else {
      assert data[..0] == [];
    }
  }

  /** A request without data that completes has reached the device and been confirmed; one that fails may have. */
  lemma NoDataWriteReaches(d: Device, sched: Schedule, now: nat, request: seq<Byte>)
    requires Honest(sched)
    ensures var r := NoDataWrite(d, sched, now, request);
            && (r.device == d || r.device == Device(request, true, [], r.device.confirmed))
            && (r.result == Done ==> r.device == Device(request, true, [], true))
  {
    hide XferFrom;
    ControlPackets(d, d, sched, now, Setup(request), 0, XACT_RETRIES);
    var setup := XferOf(d, sched, now, Setup(request));
    ControlPackets(setup.device, setup.device, sched, setup.now, In(true), 0, XACT_RETRIES);
  }

  // ---- The packets of a control write, one after the other ---------------------------------------

  /** How many packets of at most `mps` bytes the data takes. */
  function Chunks(length: nat, mps: nat): nat
    requires mps >= 1
  {
    (length + mps - 1) / mps
  }

  /** Packet k of the write: SETUP, the chunks with DATA1 first and toggles in turn, then STATUS, an IN of DATA1. */
  function PacketAt(request: seq<Byte>, data: seq<Byte>, mps: nat, k: nat): Packet
    requires mps >= 1 && k <= Chunks(|data|, mps) + 1
  {
    if k == 0 then Setup(request)
    else if k == Chunks(|data|, mps) + 1 then In(true)
    else
      ChunkStarts(|data|, mps, k - 1);
      Out(k % 2 == 1, data[(k - 1) * mps..Min((k - 1) * mps + mps, |data|)])
  }

  lemma ChunkStarts(length: nat, mps: nat, k: nat)
    requires mps >= 1
    ensures k < Chunks(length, mps) <==> k * mps < length
    ensures (k + 1) * mps == k * mps + mps
  {
    var n := Chunks(length, mps);
    assert length <= n * mps < length + mps;
    if k < n {
      MulMonotone(k + 1, n, mps);
    } else {
      MulMonotone(n, k, mps);
    }
  }

  function WritePackets(request: seq<Byte>, data: seq<Byte>, mps: nat): (ps: seq<Packet>)
    requires mps >= 1
    ensures |ps| == Chunks(|data|, mps) + 2 && forall k :: 0 <= k < |ps| ==> ps[k] == PacketAt(request, data, mps, k)
  {
    seq(Chunks(|data|, mps) + 2, k requires 0 <= k < Chunks(|data|, mps) + 2 => PacketAt(request, data, mps, k))
  }

  /** Packets transferred in turn up to the first that fails. */
  function Play(d: Device, sched: Schedule, now: nat, ps: seq<Packet>): Xfer
    decreases |ps|
  {
    if ps == [] then Xfer(Done, d, now)
    else
      var x := XferOf(d, sched, now, ps[0]);
      if x.result == Done then Play(x.device, sched, x.now, ps[1..]) else x
  }

  lemma PlayCons(d: Device, sched: Schedule, now: nat, p: Packet, rest: seq<Packet>)
    ensures var x := XferOf(d, sched, now, p);
            Play(d, sched, now, [p] + rest) == if x.result == Done then Play(x.device, sched, x.now, rest) else x
    ensures Play(d, sched, now, [p]) == XferOf(d, sched, now, p)
  {
    hide XferFrom;
    assert ([p] + rest)[1..] == rest && [p][1..] == [];
  }

  /** The data stage from chunk k on, and STATUS. */
  lemma {:induction false} StageIsPlay(d: Device, sched: Schedule, now: nat, request: seq<Byte>, data: seq<Byte>, mps: nat, k: nat)
    requires mps >= 1 && k <= Chunks(|data|, mps)
    ensures k * mps <= |data| || k == Chunks(|data|, mps)
    ensures var stage := DataStage(d, sched, now, data, mps, k % 2 == 0, Min(k * mps, |data|));
            Play(d, sched, now, WritePackets(request, data, mps)[k + 1..])
            == if stage.result == Done then XferOf(stage.device, sched, stage.now, In(true)) else Xfer(stage.result, stage.device, stage.now)
    decreases Chunks(|data|, mps) - k
  {
    hide XferFrom, XferOf, Play, Chunks, DataStage, WritePackets, PacketAt;
    ChunkStarts(|data|, mps, k);
    LaterPackets(request, data, mps, k);
    StageStep(d, sched, now, data, mps, k % 2 == 0, Min(k * mps, |data|));
    if k == Chunks(|data|, mps) {
      PlayCons(d, sched, now, In(true), []);
    } else {
      var p := Out(k % 2 == 0, data[k * mps..Min(k * mps + mps, |data|)]);
      PlayCons(d, sched, now, p, WritePackets(request, data, mps)[k + 2..]);
      var x := XferOf(d, sched, now, p);
      if x.result == Done {
        StageIsPlay(x.device, sched, x.now, request, data, mps, k + 1);
      }
    }
  }

  /** What is left of the packets once k chunks have been sent. */
  lemma LaterPackets(request: seq<Byte>, data: seq<Byte>, mps: nat, k: nat)
    requires mps >= 1 && k <= Chunks(|data|, mps)
    ensures var ps := WritePackets(request, data, mps);
            if k == Chunks(|data|, mps) then ps[k + 1..] == [In(true)]
            else
              && k * mps <= |data|
              && ps[k + 1..] == [Out(k % 2 == 0, data[k * mps..Min(k * mps + mps, |data|)])] + ps[k + 2..]
  {
    hide Chunks;
    ChunkStarts(|data|, mps, k);
    var ps := WritePackets(request, data, mps);
    assert ps[k + 1] == PacketAt(request, data, mps, k + 1);
  }

  lemma StageStep(d: Device, sched: Schedule, now: nat, data: seq<Byte>, mps: nat, data1: bool, sent: nat)
    requires mps >= 1 && sent <= |data|
    ensures DataStage(d, sched, now, data, mps, data1, sent)
            == if sent == |data| then WriteRun(Done, d, now, sent)
               else
                 var end := Min(sent + mps, |data|);
                 var x := XferOf(d, sched, now, Out(data1, data[sent..end]));
                 if x.result == Done then DataStage(x.device, sched, x.now, data, mps, !data1, end) else WriteRun(x.result, x.device, x.now, sent)
  {
    hide XferFrom;
  }

  /** A control write of at most 4096 bytes is its packets in turn: SETUP, all of the data, STATUS; the first failure ends it. */
  lemma ControlWriteIsPlay(d: Device, sched: Schedule, now: nat, request: seq<Byte>, data: seq<Byte>, mps: nat)
    requires mps >= 1
    ensures var r := ControlWrite(d, sched, now, request, data, mps);
            if |data| <= 4096 then Play(d, sched, now, WritePackets(request, data, mps)) == Xfer(r.result, r.device, r.now)
            else r.result == Failed(Protocol("bad control_ep write data len")) && r.device == d && r.now == now
  {
    hide XferFrom, Play, DataStage;
    if |data| <= 4096 {
      var ps := WritePackets(request, data, mps);
      assert ps == [Setup(request)] + ps[1..];
      PlayCons(d, sched, now, Setup(request), ps[1..]);
      var setup := XferOf(d, sched, now, Setup(request));
      if setup.result == Done {
        StageIsPlay(setup.device, sched, setup.now, request, data, mps, 0);
      }
    }
  }

  /** So is a request without data. */
  lemma NoDataWriteIsPlay(d: Device, sched: Schedule, now: nat, request: seq<Byte>)
    ensures NoDataWrite(d, sched, now, request) == Play(d, sched, now, [Setup(request), In(true)])
  {
    hide XferFrom, Play;
    assert [Setup(request), In(true)] == [Setup(request)] + [In(true)];
    PlayCons(d, sched, now, Setup(request), [In(true)]);
    var setup := XferOf(d, sched, now, Setup(request));
    PlayCons(setup.device, sched, setup.now, In(true), []);
  }

  /** The attempt that packet k begins with, if each packet j before it is retried stops[j] times. */
  function StartOf(now: nat, stops: seq<nat>, k: nat): nat
    requires k <= |stops|
  {
    if k == 0 then now else StartOf(now, stops, k - 1) + stops[k - 1] + 1
  }

  /** Packet k, after stops[k] retried attempts, completes cleanly. */
  ghost predicate Completes(sched: Schedule, now: nat, stops: seq<nat>, k: nat)
    requires k < |stops|
  {
    stops[k] <= NAK_RETRIES && EndsAt(sched, StartOf(now, stops, k), stops[k], XACT_RETRIES, Complete)
  }

  lemma {:induction false} StartCons(now: nat, n: nat, rest: seq<nat>, k: nat)
    requires k <= |rest|
    ensures StartOf(now, [n] + rest, k + 1) == StartOf(now + n + 1, rest, k)
  {
    if k > 0 {
      StartCons(now, n, rest, k - 1);
    }
  }

  lemma CompletesCons(sched: Schedule, now: nat, n: nat, rest: seq<nat>, k: nat)
    requires k < |rest|
    ensures Completes(sched, now, [n] + rest, k + 1) <==> Completes(sched, now + n + 1, rest, k)
  {
    hide EndsAt, StartOf;
    StartCons(now, n, rest, k);
  }

  ghost predicate AllComplete(sched: Schedule, now: nat, stops: seq<nat>) {
    forall k :: 0 <= k < |stops| ==> Completes(sched, now, stops, k)
  }

  lemma AllCompleteCons(sched: Schedule, now: nat, n: nat, rest: seq<nat>)
    ensures AllComplete(sched, now, [n] + rest)
            <==> n <= NAK_RETRIES && EndsAt(sched, now, n, XACT_RETRIES, Complete) && AllComplete(sched, now + n + 1, rest)
  {
    hide EndsAt;
    var stops, later := [n] + rest, now + n + 1;
    assert Completes(sched, now, stops, 0) <==> n <= NAK_RETRIES && EndsAt(sched, now, n, XACT_RETRIES, Complete);
    forall k | 0 <= k < |rest| ensures Completes(sched, now, stops, k + 1) <==> Completes(sched, later, rest, k) {
      CompletesCons(sched, now, n, rest, k);
    }
    if AllComplete(sched, now, stops) {
      forall k | 0 <= k < |rest| ensures Completes(sched, later, rest, k) {
        assert Completes(sched, now, stops, k + 1);
      }
    }
    if Completes(sched, now, stops, 0) && AllComplete(sched, later, rest) {
      forall k | 0 <= k < |stops| ensures Completes(sched, now, stops, k) {
        assert k > 0 ==> Completes(sched, later, rest, k - 1);
      }
    }
  }

  /** Packets are all transferred iff on the schedule each completes within 65 attempts after those before it. */
  lemma {:induction false} PlayDoneIff(d: Device, sched: Schedule, now: nat, ps: seq<Packet>)
    ensures Play(d, sched, now, ps).result == Done
            <==> exists stops: seq<nat> :: |stops| == |ps| && AllComplete(sched, now, stops)
    decreases |ps|
  {
    hide XferFrom, EndsAt, AllComplete, Play;
    if ps == [] {
      NothingToPlay(d, sched, now);
    } else {
      var p, rest := ps[0], ps[1..];
      assert ps == [p] + rest;
      PlayCons(d, sched, now, p, rest);
      var x := XferOf(d, sched, now, p);
      CompletesOnce(d, sched, now, p);
      PlayDoneIff(x.device, sched, x.now, rest);
      if x.result == Done && Play(x.device, sched, x.now, rest).result == Done {
        var stops: seq<nat> :| |stops| == |rest| && AllComplete(sched, x.now, stops);
        var n: nat :| n <= NAK_RETRIES && EndsAt(sched, now, n, XACT_RETRIES, Complete) && x.now == now + n + 1;
        AllCompleteCons(sched, now, n, stops);
        assert |[n] + stops| == |ps|;
      }
      if stops: seq<nat> :| |stops| == |ps| && AllComplete(sched, now, stops) {
        assert stops == [stops[0]] + stops[1..];
        AllCompleteCons(sched, now, stops[0], stops[1..]);
      }
    }
  }

  lemma NothingToPlay(d: Device, sched: Schedule, now: nat)
    ensures Play(d, sched, now, []) == Xfer(Done, d, now) && AllComplete(sched, now, [])
  {
  }

  /** A transfer completes iff the schedule lets it, and then it ends right there. */
  lemma CompletesOnce(d: Device, sched: Schedule, now: nat, p: Packet)
    ensures var x := XferOf(d, sched, now, p);
            && (x.result == Done <==> exists n: nat :: n <= NAK_RETRIES && EndsAt(sched, now, n, XACT_RETRIES, Complete))
            && (x.result == Done ==> forall n: nat :: n <= NAK_RETRIES && EndsAt(sched, now, n, XACT_RETRIES, Complete) ==> x.now == now + n + 1)
  {
    hide XferFrom, XactErrors, ClassOf;
    XferDoneIff(d, sched, now, p);
    var n := RetryLoop(d, sched, now, p, 0, XACT_RETRIES);
    forall m: nat | m <= NAK_RETRIES && EndsAt(sched, now, m, XACT_RETRIES, Complete)
      ensures m == n
    {
      StopsOnce(sched, now, m, n);
    }
  }

  /** A control write is Done iff the data is not too long and SETUP, every chunk and STATUS complete in turn. */
  lemma ControlWriteDoneIff(d: Device, sched: Schedule, now: nat, request: seq<Byte>, data: seq<Byte>, mps: nat)
    requires mps >= 1
    ensures ControlWrite(d, sched, now, request, data, mps).result == Done
            <==> |data| <= 4096 && exists stops: seq<nat> :: |stops| == Chunks(|data|, mps) + 2 && AllComplete(sched, now, stops)
  {
    hide XferFrom, AllComplete, Play, ControlWrite;
    ControlWriteIsPlay(d, sched, now, request, data, mps);
    PlayDoneIff(d, sched, now, WritePackets(request, data, mps));
  }

  lemma NoDataWriteDoneIff(d: Device, sched: Schedule, now: nat, request: seq<Byte>)
    ensures NoDataWrite(d, sched, now, request).result == Done
            <==> exists stops: seq<nat> :: |stops| == 2 && AllComplete(sched, now, stops)
  {
    hide XferFrom, AllComplete, Play;
    NoDataWriteIsPlay(d, sched, now, request);
    PlayDoneIff(d, sched, now, [Setup(request), In(true)]);
  }
}
