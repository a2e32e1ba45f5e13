/**
 The frame assembler at work: micro-frames land in a work area of the DMA window, payloads are
 copied behind it, and the result is the frame that FrameSpec describes. A run is over a finite
 sequence of micro-frames, after which the device falls silent.
 */
module FrameCapture {
  import opened Arith
  import opened UsbErrors
  import opened FrameSpec
  import opened Wrappers
  import opened Dwc2

  const DMA_OFF_UVC_BULK: nat := EP0_REGION_BYTES
  const DMA_BUF_TOTAL: nat := EP0_REGION_BYTES + UVC_BULK_DMA_CAP
  const ASSEMBLED_OFF: nat := DMA_OFF_UVC_BULK + UVC_WORK_AREA_BYTES
  const MAX_UFRAMES: nat := 80000

  /** The causes of a halt that the read looks at. */
  datatype Hcint = Hcint(
    stall: bool, ahbErr: bool, frmOvrn: bool, xactErr: bool, bblErr: bool, dataTglErr: bool, nyet: bool, nak: bool, xferCompl: bool)

  /** A micro-frame: the channel never halts, or halts with what came in. */
  datatype UFrame = NoHalt | Halt(st: Hcint, bytes: seq<Byte>)

  // ---- What the reads return, as functions of the micro-frames --------------------------------------

  /** The bytes a micro-frame brings, none if it counts as empty, or the error that ends the read. */
  function BytesOf(u: UFrame, size: nat): UsbResult<seq<Byte>> {
    match u
    case NoHalt => Err(Timeout)
    case Halt(st, bytes) =>
      if st.stall then Err(Stall)
      else if st.ahbErr then Err(Hardware("AHBERR on isoch"))
      else if st.frmOvrn || st.xactErr || st.bblErr || st.dataTglErr || st.nyet || st.nak then Ok([])
      else if !st.xferCompl then Ok([])
      else Ok(bytes[..Min(|bytes|, size)])
  }

  /** One micro-frame from position `pos` on, and the position after it. */
  function NextUframe(uframes: seq<UFrame>, pos: nat, mpsRaw: nat): (UsbResult<seq<Byte>>, nat) {
    if WmaxMps(mpsRaw) == 0 then (Err(Protocol("bad isoch mps_raw")), pos)
    else if pos >= |uframes| then (Err(Timeout), pos)
    else (BytesOf(uframes[pos], WmaxMps(mpsRaw)), pos + 1)
  }

  /** The first of at most `left` micro-frames that is not empty, as a read. */
  function FirstNonEmpty(uframes: seq<UFrame>, pos: nat, mpsRaw: nat, left: nat): (Read, nat)
    decreases left
  {
    if left == 0 then (ReadError(Timeout), pos)
    else
      var (r, next) := NextUframe(uframes, pos, mpsRaw);
      match r
      case Err(e) => (ReadError(e), next)
      case Ok(bytes) => if bytes == [] then FirstNonEmpty(uframes, next, mpsRaw, left - 1) else (Packet(bytes), next)
  }

  function NextRead(uframes: seq<UFrame>, pos: nat, mpsRaw: nat): (Read, nat) {
    FirstNonEmpty(uframes, pos, mpsRaw, MAX_UFRAMES)
  }

  /** The first n reads from position `pos` on, and the position after them. */
  function Reads(uframes: seq<UFrame>, pos: nat, mpsRaw: nat, n: nat): (seq<Read>, nat) {
    if n == 0 then ([], pos)
    else
      var (rs, p) := Reads(uframes, pos, mpsRaw, n - 1);
      var (r, next) := NextRead(uframes, p, mpsRaw);
      (rs + [r], next)
  }

  ghost predicate Empty(uframes: seq<UFrame>, pos: nat, mpsRaw: nat) {
    NextUframe(uframes, pos, mpsRaw) == (Ok([]), pos + 1)
  }

  /**
   A read passes over n empty micro-frames and takes the next one as it is, its bytes or its error,
   unless all it may look at are empty: then it times out.
   */
  lemma {:induction false} ReadMeans(uframes: seq<UFrame>, pos: nat, mpsRaw: nat, left: nat) returns (n: nat)
    ensures n <= left && forall k :: pos <= k < pos + n ==> Empty(uframes, k, mpsRaw)
    ensures var (r, next) := FirstNonEmpty(uframes, pos, mpsRaw, left);
            if n == left then r == ReadError(Timeout) && next == pos + n
            else
              && !Empty(uframes, pos + n, mpsRaw) && next == NextUframe(uframes, pos + n, mpsRaw).1
              && r == match NextUframe(uframes, pos + n, mpsRaw).0 case Ok(bytes) => Packet(bytes) case Err(e) => ReadError(e)
    decreases left
  {
    hide BytesOf;
    n := 0;
    if left > 0 && Empty(uframes, pos, mpsRaw) {
      var m := ReadMeans(uframes, pos + 1, mpsRaw, left - 1);
      n := m + 1;
    }
  }

  /** The reads of a capture that starts at `pos`: they end as soon as the frame is decided. */
  ghost predicate Captures(init: Option<nat>, uframes: seq<UFrame>, pos: nat, mpsRaw: nat, rs: seq<Read>, end: nat) {
    (rs, end) == Reads(uframes, pos, mpsRaw, |rs|) && EndsNow(init, rs)
  }

  class Camera {
    const buf: array<Byte>
    const uframes: seq<UFrame>
    const mpsRaw: nat
    var pos: nat
    var lastEofFid: nat

    ghost predicate Valid()
      reads this
    {
      buf.Length == DMA_BUF_TOTAL && pos <= |uframes|
    }

    constructor (uframes: seq<UFrame>, mpsRaw: nat)
      ensures Valid() && fresh(buf) && pos == 0 && lastEofFid == 0xFF
      ensures this.uframes == uframes && this.mpsRaw == mpsRaw
    {
      this.uframes := uframes;
      this.mpsRaw := mpsRaw;
      pos := 0;
      lastEofFid := 0xFF;
      buf := new Byte[DMA_BUF_TOTAL](_ => 0);
    }

    /** Everything but the first 2047 bytes of the work area is as it was. */
    twostate predicate WorkOnly()
      reads this, buf
    {
      forall k :: 0 <= k < buf.Length && !(DMA_OFF_UVC_BULK <= k < DMA_OFF_UVC_BULK + 2047) ==> buf[k] == old(buf[k])
    }

    /** Everything but the work area and the room for the assembled frame is as it was. */
    twostate predicate FrameOnly()
      reads this, buf
    {
      forall k :: 0 <= k < buf.Length
                  && !(DMA_OFF_UVC_BULK <= k < DMA_OFF_UVC_BULK + 2047) && !(ASSEMBLED_OFF <= k < ASSEMBLED_OFF + JPEG_CAP)
                  ==> buf[k] == old(buf[k])
    }

    /** One micro-frame: the number of bytes received, 0 if it brought nothing usable. */
    method ReadUframe() returns (r: UsbResult<nat>)
      requires Valid()
      modifies this`pos, buf
      ensures Valid() && old(pos) <= pos && WorkOnly() && (r.Ok? ==> old(pos) < pos)
      ensures match NextUframe(uframes, old(pos), mpsRaw)
              case (Err(e), next) => r == Err(e) && pos == next
              case (Ok(bytes), next) =>
                r == Ok(|bytes|) && |bytes| <= 2047 && pos == next && buf[DMA_OFF_UVC_BULK..DMA_OFF_UVC_BULK + |bytes|] == bytes
    {
      var transferSize := WmaxMps(mpsRaw);
      if transferSize == 0 {
        return Err(Protocol("bad isoch mps_raw"));
      }
      if pos == |uframes| {
        return Err(Timeout);
      }
      var u := uframes[pos];
      pos := pos + 1;
      if u.NoHalt? {
        return Err(Timeout);
      }
      var n := if |u.bytes| <= transferSize then |u.bytes| else transferSize;
      forall k | 0 <= k < n {
        buf[DMA_OFF_UVC_BULK + k] := u.bytes[k];
      }
      assert buf[DMA_OFF_UVC_BULK..DMA_OFF_UVC_BULK + n] == u.bytes[..n];
      if u.st.stall {
        return Err(Stall);
      }
      if u.st.ahbErr {
        return Err(Hardware("AHBERR on isoch"));
      }
      if u.st.frmOvrn || u.st.xactErr || u.st.bblErr || u.st.dataTglErr || u.st.nyet || u.st.nak {
        return Ok(0);
      }
      if !u.st.xferCompl {
        return Ok(0);
      }
      var remainingBytes := transferSize - n;
      return Ok(transferSize - remainingBytes);
    }

    /** The next micro-frame with data, as a packet in the work area; empty ones are passed over. */
    method ReadPayload() returns (r: Read)
      requires Valid()
      modifies this`pos, buf
      ensures Valid() && old(pos) <= pos && WorkOnly()
      ensures (r, pos) == NextRead(uframes, old(pos), mpsRaw)
      ensures r.Packet? ==> old(pos) < pos && 1 <= |r.bytes| <= 2047 && buf[DMA_OFF_UVC_BULK..DMA_OFF_UVC_BULK + |r.bytes|] == r.bytes
    {
      hide NextUframe;
      for i := 0 to MAX_UFRAMES
        invariant Valid() && old(pos) <= pos && WorkOnly()
        invariant FirstNonEmpty(uframes, pos, mpsRaw, MAX_UFRAMES - i) == NextRead(uframes, old(pos), mpsRaw)
      {
        var actual := ReadUframe();
        if actual.Err? {
          return ReadError(actual.error);
        }
        if actual.value > 0 {
          return Packet(buf[DMA_OFF_UVC_BULK..DMA_OFF_UVC_BULK + actual.value]);
        }
      }
      r := ReadError(Timeout);
    }

    method DmaWriteAt(off: nat, src: seq<Byte>) returns (r: UsbResult<()>)
      requires Valid()
      modifies buf
      ensures r == if off + |src| > DMA_BUF_TOTAL then Err(Protocol("dma write out of buf")) else Ok(())
      ensures r.Ok? ==> buf[off..off + |src|] == src
      ensures forall k :: 0 <= k < buf.Length && !(r.Ok? && off <= k < off + |src|) ==> buf[k] == old(buf[k])
    {
      if off + |src| > DMA_BUF_TOTAL {
        return Err(Protocol("dma write out of buf"));
      }
      forall k | 0 <= k < |src| {
        buf[off + k] := src[k];
      }
      return Ok(());
    }

    /** The assembled bytes so far. */
    ghost function Jpeg(len: nat): seq<Byte>
      requires Valid() && len <= JPEG_CAP
      reads this, buf
    {
      buf[ASSEMBLED_OFF..ASSEMBLED_OFF + len]
    }

    method TailIsEoi(jpegLen: nat) returns (b: bool)
      requires Valid() && 2 <= jpegLen <= JPEG_CAP
      ensures b == EndsEoi(Jpeg(jpegLen))
    {
      var off := ASSEMBLED_OFF + (jpegLen - 2);
      b := buf[off] == 0xFF && buf[off + 1] == 0xD9;
    }

    /** Append the payload of a packet, which lies in the work area, to the assembled bytes. */
    method AppendPacket(p: Read, jpegLen: nat, sawData: bool) returns (r: UsbResult<nat>, saw: bool)
      requires Valid() && jpegLen <= JPEG_CAP && Legal(p)
      requires (sawData <==> Jpeg(jpegLen) != []) && (sawData ==> jpegLen >= 2)
      modifies buf
      ensures forall k :: 0 <= k < buf.Length && !(r.Ok? && ASSEMBLED_OFF + jpegLen <= k < ASSEMBLED_OFF + r.value) ==> buf[k] == old(buf[k])
      ensures match Append(old(Jpeg(jpegLen)), Payload(p))
              case None => r == Err(Hardware("video assemble overflow"))
              case Some(jpeg) => r.Ok? && r.value == |jpeg| <= JPEG_CAP && Jpeg(r.value) == jpeg && (saw <==> jpeg != []) && (saw ==> r.value >= 2)
    {
      hide Payload, Legal;
      var payload := Payload(p);
      saw := sawData;
      if payload == [] {
        return Ok(jpegLen), saw;
      }
      if !sawData && !StartsSoi(payload) {
        return Ok(jpegLen), saw;
      }
      if jpegLen + |payload| > JPEG_CAP {
        return Err(Hardware("video assemble overflow")), saw;
      }
      ghost var before := Jpeg(jpegLen);
      var w := DmaWriteAt(ASSEMBLED_OFF + jpegLen, payload);
      assert Jpeg(jpegLen + |payload|)[..jpegLen] == before;
      assert Jpeg(jpegLen + |payload|) == before + payload;
      return Ok(jpegLen + |payload|), true;
    }

    /** Append, then see whether the packet ends the frame: the frame's length, an error, or neither yet. */
    method TakePacket(p: Read, frameFid: nat, ghost fid: nat, jpegLen: nat, sawData: bool, ghost restarts: nat)
      returns (ended: bool, r: UsbResult<nat>, saw: bool)
      requires Valid() && jpegLen <= JPEG_CAP && Legal(p)
      requires (sawData <==> Jpeg(jpegLen) != []) && (sawData ==> jpegLen >= 2)
      modifies buf, this`lastEofFid
      ensures Valid() && FrameOnly()
      ensures match Take(frameFid, fid, old(Jpeg(jpegLen)), restarts, p)
              case Gathering(f, i, jpeg, n) =>
                !ended && f == frameFid && i == fid && n == restarts && r.Ok? && r.value == |jpeg| <= JPEG_CAP && Jpeg(r.value) == jpeg && (saw <==> jpeg != []) && (saw ==> r.value >= 2)
                && lastEofFid == old(lastEofFid)
              case Finished(jpeg, stored, _, _) =>
                ended && r.Ok? && r.value == |jpeg| <= JPEG_CAP && Jpeg(r.value) == jpeg && lastEofFid == stored
              case Broken(e) => ended && r == Err(e) && lastEofFid == old(lastEofFid)
              case Waiting(_) => false
    {
      r, saw := AppendPacket(p, jpegLen, sawData);
      if r.Err? {
        return true, r, saw;
      }
      if !Eof(p) {
        return false, r, saw;
      }
      if saw {
        var complete := TailIsEoi(r.value);
        if complete {
          lastEofFid := frameFid;
          return true, r, saw;
        }
      }
      return true, Err(Timeout), saw;
    }

    /** Wait for the FID to turn: the packet that turned it, or the error that ended the wait, and the reads before. */
    method WaitForTurn(initFid: Option<nat>) returns (p: Read, ghost prior: seq<Read>)
      requires Valid()
      modifies this`pos, buf
      ensures Valid() && WorkOnly()
      ensures (prior + [p], pos) == Reads(uframes, old(pos), mpsRaw, |prior| + 1)
      ensures Run(initFid, prior).Waiting?
      ensures p.ReadError? || (Legal(p) && Run(initFid, prior).prev.Some? && Run(initFid, prior).prev.value != Fid(p))
    {
      hide Take, NextRead, Reads, Run;
      prior := [];
      var prevFid := initFid;
      NothingRead(initFid, uframes, pos, mpsRaw);
      ReadSnoc(uframes, pos, mpsRaw, 0);
      p := ReadPayload();
      while !(Legal(p) && prevFid.Some? && prevFid.value != Fid(p))
        invariant Valid() && WorkOnly()
        invariant (prior + [p], pos) == Reads(uframes, old(pos), mpsRaw, |prior| + 1)
        invariant Run(initFid, prior) == Waiting(prevFid)
        decreases |uframes| - pos, if p.Packet? then 1 else 0
      {
        if p.ReadError? {
          return;
        }
        RunSnoc(initFid, prior, p);
        if Legal(p) && prevFid.None? {
          prevFid := Some(Fid(p));
        }
        prior := prior + [p];
        ReadSnoc(uframes, old(pos), mpsRaw, |prior|);
        p := ReadPayload();
      }
    }

    /** Wait for the FID to turn, gather one frame, check its end. */
    method TryFrame(initFid: Option<nat>) returns (r: UsbResult<nat>, ghost rs: seq<Read>)
      requires Valid()
      modifies this`pos, this`lastEofFid, buf
      ensures Valid() && FrameOnly()
      ensures (rs, pos) == Reads(uframes, old(pos), mpsRaw, |rs|) && EndsNow(initFid, rs)
      ensures match Run(initFid, rs)
              case Finished(jpeg, stored, _, _) =>
                r.Ok? && r.value == |jpeg| <= JPEG_CAP && Jpeg(r.value) == jpeg && lastEofFid == stored
              case Broken(e) => r == Err(e) && lastEofFid == old(lastEofFid)
              case _ => false
    {
      hide Take, Run, Legal, Fid, EndsEoi, NextRead, Reads, EndsNow;
      var p, prior := WaitForTurn(initFid);
      rs := prior + [p];
      RunGoesOn(initFid, prior, p);
      if p.ReadError? {
        return Err(p.error), rs;
      }
      var frameFid := Fid(p);
      var fid := frameFid;
      ghost var restarts := 0;
      var ended, saw;
      assert Jpeg(0) == [];
      ended, r, saw := TakePacket(p, frameFid, fid, 0, false, restarts);
      if ended {
        return;
      }
      var jpegLen: nat := r.value;

      while true
        invariant Valid() && FrameOnly() && lastEofFid == old(lastEofFid)
        invariant jpegLen <= JPEG_CAP && (rs, pos) == Reads(uframes, old(pos), mpsRaw, |rs|)
        invariant Run(initFid, rs) == Gathering(frameFid, fid, Jpeg(jpegLen), restarts)
        invariant (saw <==> Jpeg(jpegLen) != []) && (saw ==> jpegLen >= 2)
        decreases |uframes| - pos
      {
        ReadSnoc(uframes, old(pos), mpsRaw, |rs|);
        ghost var next;
        ended, r, fid, saw, restarts, next := GatherOne(frameFid, fid, jpegLen, saw, restarts);
        RunGoesOn(initFid, rs, next);
        rs := rs + [next];
        if ended {
          return;
        }
        jpegLen := r.value;
      }
    }

    /** Read one packet and take it into the frame, which it may end. */
    method GatherOne(frameFid: nat, fid0: nat, jpegLen0: nat, saw0: bool, ghost restarts0: nat)
      returns (ended: bool, r: UsbResult<nat>, fid: nat, saw: bool, ghost restarts: nat, ghost next: Read)
      requires Valid() && jpegLen0 <= JPEG_CAP
      requires (saw0 <==> Jpeg(jpegLen0) != []) && (saw0 ==> jpegLen0 >= 2)
      modifies this`pos, this`lastEofFid, buf
      ensures Valid() && FrameOnly() && (next, pos) == NextRead(uframes, old(pos), mpsRaw)
      ensures match Step(Gathering(frameFid, fid0, old(Jpeg(jpegLen0)), restarts0), next)
              case Gathering(f, i, jpeg, n) =>
                !ended && f == frameFid && i == fid && n == restarts && r.Ok? && r.value == |jpeg| <= JPEG_CAP
                && Jpeg(r.value) == jpeg && (saw <==> jpeg != []) && (saw ==> r.value >= 2)
                && lastEofFid == old(lastEofFid) && old(pos) < pos
              case Finished(jpeg, stored, _, _) =>
                ended && r.Ok? && r.value == |jpeg| <= JPEG_CAP && Jpeg(r.value) == jpeg && lastEofFid == stored
              case Broken(e) => ended && r == Err(e) && lastEofFid == old(lastEofFid)
              case Waiting(_) => false
    {
      hide Take, Append, NextRead;
      var jpegLen := jpegLen0;
      ghost var jpeg := Jpeg(jpegLen);
      fid, saw, restarts := fid0, saw0, restarts0;
      var p := ReadPayload();
      next := p;
      assert Jpeg(jpegLen) == jpeg;
      if p.ReadError? {
        return true, Err(p.error), fid, saw, restarts, p;
      }
      if !Legal(p) {
        return false, Ok(jpegLen), fid, saw, restarts, p;
      }
      if Fid(p) != fid {
        if saw {
          var complete := TailIsEoi(jpegLen);
          if complete {
            lastEofFid := frameFid;
            return true, Ok(jpegLen), fid, saw, restarts, p;
          }
        }
        jpegLen, fid, saw, restarts := 0, Fid(p), false, restarts + 1;
        assert Jpeg(0) == [];
      }
      ended, r, saw := TakePacket(p, frameFid, fid, jpegLen, saw, restarts);
    }

    /** At most four tries; but a timeout ends the capture, and nothing else lets it go on. */
    method CaptureFrame() returns (r: UsbResult<nat>, ghost rs: seq<Read>)
      requires Valid()
      modifies this`pos, this`lastEofFid, buf
      ensures Valid() && FrameOnly()
      ensures var init := if old(lastEofFid) <= 1 then Some(old(lastEofFid)) else None;
              && Captures(init, uframes, old(pos), mpsRaw, rs, pos)
              && match Run(init, rs)
                 case Finished(jpeg, stored, _, _) =>
                   r.Ok? && r.value == |jpeg| <= JPEG_CAP && Jpeg(r.value) == jpeg && lastEofFid == stored
                 case Broken(e) => r == Err(e) && lastEofFid == old(lastEofFid)
                 case _ => false
    {
      hide Run, Reads, EndsNow;
      var initFid := if lastEofFid <= 1 then Some(lastEofFid) else None;
      for i := 0 to 4
        invariant i == 0 && pos == old(pos) && Valid() && FrameOnly() && lastEofFid == old(lastEofFid)
      {
        r, rs := TryFrame(initFid);
        match r
        case Ok(_) =>
          return;
        case Err(e) =>
          if e == Timeout {
            break;
          }
          return;
      }
      r := Err(Timeout);
    }
  }

  lemma NothingRead(init: Option<nat>, uframes: seq<UFrame>, from: nat, mpsRaw: nat)
    ensures Run(init, []) == Waiting(init) && Reads(uframes, from, mpsRaw, 0) == ([], from)
  {
  }

  lemma ReadSnoc(uframes: seq<UFrame>, from: nat, mpsRaw: nat, n: nat)
    ensures var (rs, p) := Reads(uframes, from, mpsRaw, n);
            var (r, next) := NextRead(uframes, p, mpsRaw);
            Reads(uframes, from, mpsRaw, n + 1) == (rs + [r], next)
    ensures Reads(uframes, from, mpsRaw, 0) == ([], from)
  {
    hide NextRead;
  }

  /** A run that goes on by one read ends with it or not at all. */
  lemma RunGoesOn(init: Option<nat>, prior: seq<Read>, p: Read)
    requires !Ended(Run(init, prior))
    ensures Run(init, prior + [p]) == Step(Run(init, prior), p)
    ensures Ended(Run(init, prior + [p])) ==> EndsNow(init, prior + [p])
  {
    hide Step;
    assert (prior + [p])[..|prior|] == prior;
  }
}
