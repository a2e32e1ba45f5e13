/**
 What a frame is, over a sequence of packet reads: the state machine of the assembler as a
 fold, and what a finished frame says about the packets it was made of.
 */
module FrameSpec {
  import opened Arith
  import opened UsbErrors
  import opened Wrappers

  const UVC_BULK_DMA_CAP: nat := 384 * 1024
  const UVC_WORK_AREA_BYTES: nat := 4096
  const JPEG_CAP: nat := UVC_BULK_DMA_CAP - UVC_WORK_AREA_BYTES

  /** One result of reading a payload: a non-empty packet, or an error. */
  datatype Read = Packet(bytes: seq<Byte>) | ReadError(error: UsbError)

  // ---- Packets -----------------------------------------------------------------------------

  /** The header length is at least 2 and within the packet. */
  predicate Legal(r: Read) {
    r.Packet? && |r.bytes| >= 1 && 2 <= r.bytes[0] <= |r.bytes|
  }

  function Fid(r: Read): (f: nat)
    requires Legal(r)
    ensures f < 2
  {
    r.bytes[1] % 2
  }

  predicate Eof(r: Read)
    requires Legal(r)
  {
    r.bytes[1] / 2 % 2 == 1
  }

  function Payload(r: Read): seq<Byte>
    requires Legal(r)
  {
    r.bytes[r.bytes[0]..]
  }

  function BitOf(b: bool): nat {
    if b then 1 else 0
  }

  /** A payload header after section 2.4.3.3 of UVC 1.5: its length, FID in bit 0, EOF in bit 1, then what else it holds. */
  function PrintPacket(fid: bool, eof: bool, flags: nat, more: seq<Byte>, payload: seq<Byte>): Read
    requires flags < 64 && |more| < 254
  {
    Packet([2 + |more|, 4 * flags + 2 * BitOf(eof) + BitOf(fid)] + more + payload)
  }

  /** Every packet printed so is legal and reads as printed, with or without a payload. */
  lemma PacketRoundTrip(fid: bool, eof: bool, flags: nat, more: seq<Byte>, payload: seq<Byte>)
    requires flags < 64 && |more| < 254
    ensures var r := PrintPacket(fid, eof, flags, more, payload);
            Legal(r) && Fid(r) == BitOf(fid) && (Eof(r) <==> eof) && Payload(r) == payload
  {
    var r := PrintPacket(fid, eof, flags, more, payload);
    assert r.bytes == ([2 + |more|, 4 * flags + 2 * BitOf(eof) + BitOf(fid)] + more) + payload;
  }

  /** And nothing else is legal. */
  lemma LegalIsPrinted(r: Read) returns (fid: bool, eof: bool, flags: nat, more: seq<Byte>, payload: seq<Byte>)
    requires Legal(r)
    ensures flags < 64 && |more| < 254 && r == PrintPacket(fid, eof, flags, more, payload)
  {
    var n, info := r.bytes[0], r.bytes[1];
    fid, eof, flags := info % 2 == 1, info / 2 % 2 == 1, info / 4;
    more, payload := r.bytes[2..n], r.bytes[n..];
    InfoByte(info);
    hide BitOf;
    assert r.bytes[..2] == [n, info] && r.bytes == r.bytes[..2] + more + payload;
  }

  lemma InfoByte(info: Byte)
    ensures 4 * (info / 4) + 2 * BitOf(info / 2 % 2 == 1) + BitOf(info % 2 == 1) == info
  {
  }

  predicate StartsSoi(s: seq<Byte>) {
    |s| >= 2 && s[0] == 0xFF && s[1] == 0xD8
  }

  predicate EndsEoi(s: seq<Byte>) {
    |s| >= 2 && s[|s| - 2] == 0xFF && s[|s| - 1] == 0xD9
  }

  // ---- The assembler, one read at a time -----------------------------------------------------

  /**
   `frame` is the FID that ended the wait, `fid` the FID being gathered, `restarts` how many
   fragments were thrown away since the wait.
   */
  datatype State =
    | Waiting(prev: Option<nat>)
    | Gathering(frame: nat, fid: nat, jpeg: seq<Byte>, restarts: nat)
    | Finished(jpeg: seq<Byte>, stored: nat, fid: nat, restarts: nat)
    | Broken(error: UsbError)

  /** A payload is taken once a payload has begun with SOI; it must fit. */
  function Append(jpeg: seq<Byte>, payload: seq<Byte>): Option<seq<Byte>> {
    if payload == [] || (jpeg == [] && !StartsSoi(payload)) then Some(jpeg)
    else if |jpeg| + |payload| > JPEG_CAP then None
    else Some(jpeg + payload)
  }

  /** Take packet r into a frame that so far holds `jpeg`. */
  function Take(frame: nat, fid: nat, jpeg: seq<Byte>, restarts: nat, r: Read): State
    requires Legal(r)
  {
    match Append(jpeg, Payload(r))
    case None => Broken(Hardware("video assemble overflow"))
    case Some(jpeg') =>
      if !Eof(r) then Gathering(frame, fid, jpeg', restarts)
      else if EndsEoi(jpeg') then Finished(jpeg', frame, fid, restarts)
      else Broken(Timeout)
  }

  function Step(s: State, r: Read): State {
    match s
    case Finished(_, _, _, _) | Broken(_) => s
    case Waiting(prev) =>
      if r.ReadError? then Broken(r.error)
      else if !Legal(r) then s
      else if prev == None then Waiting(Some(Fid(r)))
      else if prev.value != Fid(r) then Take(Fid(r), Fid(r), [], 0, r)
      else s
    case Gathering(frame, fid, jpeg, restarts) =>
      if r.ReadError? then Broken(r.error)
      else if !Legal(r) then s
      else if Fid(r) == fid then Take(frame, fid, jpeg, restarts, r)
      else if EndsEoi(jpeg) then Finished(jpeg, frame, fid, restarts)
      else Take(frame, Fid(r), [], restarts + 1, r)
  }

  function Run(init: Option<nat>, rs: seq<Read>): State {
    if rs == [] then Waiting(init) else Step(Run(init, rs[..|rs| - 1]), rs[|rs| - 1])
  }

  predicate Ended(s: State) {
    s.Finished? || s.Broken?
  }

  // ---- What a frame is made of ----------------------------------------------------------------

  function PayloadOf(r: Read): seq<Byte> {
    if Legal(r) then Payload(r) else []
  }

  /** All payloads of a run, one after the other. */
  function Concat(run: seq<Read>): seq<Byte> {
    if run == [] then [] else PayloadOf(run[0]) + Concat(run[1..])
  }

  /** The payloads of a run from the first one that begins with SOI. */
  function FromSoi(run: seq<Read>): seq<Byte> {
    if run == [] then []
    else if StartsSoi(PayloadOf(run[0])) then Concat(run)
    else FromSoi(run[1..])
  }

  ghost predicate SameFid(run: seq<Read>, fid: nat) {
    forall k :: 0 <= k < |run| && Legal(run[k]) ==> Fid(run[k]) == fid
  }

  ghost predicate NoEof(run: seq<Read>) {
    forall k :: 0 <= k < |run| && Legal(run[k]) ==> !Eof(run[k])
  }

  ghost predicate NoErrors(run: seq<Read>) {
    forall k :: 0 <= k < |run| ==> run[k].Packet?
  }

  /** The FID of the last legal packet, or else the one known beforehand. */
  function LastFid(init: Option<nat>, rs: seq<Read>): Option<nat> {
    if rs == [] then init
    else if Legal(rs[|rs| - 1]) then Some(Fid(rs[|rs| - 1]))
    else LastFid(init, rs[..|rs| - 1])
  }

  /** `rs[lo..hi]` is the whole of one frame's packets up to hi: it begins where the FID turned to `fid` and keeps it. */
  ghost predicate FrameRun(init: Option<nat>, rs: seq<Read>, lo: nat, hi: nat, fid: nat) {
    && lo < hi <= |rs| && Legal(rs[lo]) && NoErrors(rs)
    && SameFid(rs[lo..hi], fid)
    && LastFid(init, rs[..lo]).Some? && LastFid(init, rs[..lo]).value != fid
  }

  // ---- Proofs -----------------------------------------------------------------------------------

  lemma {:induction false} ConcatSnoc(run: seq<Read>, r: Read)
    ensures Concat(run + [r]) == Concat(run) + PayloadOf(r)
  {
    hide PayloadOf;
    if run == [] {
      assert [r][1..] == [];
    } else {
      ConcatSnoc(run[1..], r);
      assert (run + [r])[1..] == run[1..] + [r];
    }
  }

  lemma {:induction false} FromSoiSnoc(run: seq<Read>, r: Read)
    ensures FromSoi(run) != [] ==> FromSoi(run + [r]) == FromSoi(run) + PayloadOf(r)
    ensures FromSoi(run) == [] ==> FromSoi(run + [r]) == if StartsSoi(PayloadOf(r)) then PayloadOf(r) else []
    ensures FromSoi(run) == [] || StartsSoi(FromSoi(run))
  {
    if run == [] {
      assert ([] + [r])[1..] == [];
      assert Concat([r]) == PayloadOf(r) + Concat([]);
    } else {
      assert (run + [r])[1..] == run[1..] + [r];
      FromSoiSnoc(run[1..], r);
      ConcatSnoc(run, r);
    }
  }

  /** What is known while a frame that began at `lo` is being gathered. */
  ghost predicate GatherInv(init: Option<nat>, rs: seq<Read>, lo: nat, s: State) {
    && s.Gathering? && FrameRun(init, rs, lo, |rs|, s.fid)
    && NoEof(rs[lo..]) && s.jpeg == FromSoi(rs[lo..]) && |s.jpeg| <= JPEG_CAP
    && LastFid(init, rs) == Some(s.fid)
    && s.frame < 2 && s.fid < 2 && (s.frame == s.fid <==> s.restarts % 2 == 0)
  }

  /** A packet that opens a run after the FID turned. */
  lemma RunOpens(init: Option<nat>, before: seq<Read>, r: Read, frame: nat, restarts: nat)
    requires NoErrors(before) && Legal(r) && LastFid(init, before).Some? && LastFid(init, before).value != Fid(r)
    requires frame < 2 && (frame == Fid(r) <==> restarts % 2 == 0)
    ensures var s := Take(frame, Fid(r), [], restarts, r);
            s.Gathering? ==> GatherInv(init, before + [r], |before|, s)
  {
    hide Fid, Eof, Payload, LastFid, Take, FromSoi;
    var rs := before + [r];
    assert rs[..|rs| - 1] == before && rs[|before|..] == [r] && rs[..|before|] == before;
    assert rs[|before|..|rs|] == [r] && [] + [r] == [r];
    EmptyRun();
    TakeMeans(frame, Fid(r), [], restarts, r);
    LastFidSnoc(init, before, r);
  }

  /** What is in the frame after one more packet of its run. */
  lemma TakeMeans(frame: nat, fid: nat, run: seq<Read>, restarts: nat, r: Read)
    requires Legal(r) && |FromSoi(run)| <= JPEG_CAP
    ensures match Take(frame, fid, FromSoi(run), restarts, r)
            case Gathering(f, i, jpeg, n) =>
              f == frame && i == fid && n == restarts && !Eof(r) && jpeg == FromSoi(run + [r]) && |jpeg| <= JPEG_CAP
            case Finished(jpeg, f, i, n) =>
              f == frame && i == fid && n == restarts && Eof(r) && jpeg == FromSoi(run + [r]) && |jpeg| <= JPEG_CAP && EndsEoi(jpeg)
            case Broken(_) => true
            case Waiting(_) => false
  {
    FromSoiSnoc(run, r);
  }

  /** A run that goes on by one read. */
  lemma RunGrows(init: Option<nat>, before: seq<Read>, lo: nat, fid: nat, r: Read)
    requires FrameRun(init, before, lo, |before|, fid) && r.Packet? && (Legal(r) ==> Fid(r) == fid)
    ensures FrameRun(init, before + [r], lo, |before| + 1, fid)
    ensures (before + [r])[lo..] == before[lo..] + [r]
    ensures NoEof(before[lo..]) && (Legal(r) ==> !Eof(r)) ==> NoEof((before + [r])[lo..])
  {
    var rs := before + [r];
    assert rs[lo..] == before[lo..] + [r] && rs[..lo] == before[..lo];
    assert rs[lo..|before| + 1] == rs[lo..] && before[lo..|before|] == before[lo..];
  }

  lemma LastFidSnoc(init: Option<nat>, before: seq<Read>, r: Read)
    ensures LastFid(init, before + [r]) == if Legal(r) then Some(Fid(r)) else LastFid(init, before)
  {
    assert (before + [r])[..|before|] == before;
  }

  /** A packet of the same frame, or an illegal one. */
  lemma RunExtends(init: Option<nat>, before: seq<Read>, lo: nat, s: State, r: Read)
    requires GatherInv(init, before, lo, s) && r.Packet? && (Legal(r) ==> Fid(r) == s.fid)
    ensures var s' := Step(s, r);
            s'.Gathering? ==> GatherInv(init, before + [r], lo, s')
  {
    hide Legal, Fid, Eof, FromSoi, LastFid, Take;
    RunGrows(init, before, lo, s.fid, r);
    LastFidSnoc(init, before, r);
    assert (before + [r])[lo..|before + [r]|] == (before + [r])[lo..];
    if Legal(r) {
      TakeMeans(s.frame, s.fid, before[lo..], s.restarts, r);
    } else {
      IllegalAddsNothing(before[lo..], r);
    }
  }

  lemma IllegalAddsNothing(run: seq<Read>, r: Read)
    requires !Legal(r)
    ensures FromSoi(run + [r]) == FromSoi(run)
  {
    FromSoiSnoc(run, r);
  }

  /** The invariant of the fold. */
  lemma {:induction false} GatheringMeans(init: Option<nat>, rs: seq<Read>) returns (lo: nat)
    requires Run(init, rs).Gathering?
    ensures GatherInv(init, rs, lo, Run(init, rs))
    decreases |rs|
  {
    hide FromSoi, GatherInv;
    var before, r := rs[..|rs| - 1], rs[|rs| - 1];
    var s0 := Run(init, before);
    assert rs == before + [r];
    if s0.Waiting? {
      WaitingMeans(init, before);
      lo := |before|;
      RunOpens(init, before, r, Fid(r), 0);
    } else {
      lo := GatheringMeans(init, before);
      if !Legal(r) || Fid(r) == s0.fid {
        RunExtends(init, before, lo, s0, r);
      } else {
        BeforeTurn(init, before, lo, s0, r);
        lo := |before|;
        RunOpens(init, before, r, s0.frame, s0.restarts + 1);
      }
    }
  }

  lemma BeforeTurn(init: Option<nat>, before: seq<Read>, lo: nat, s: State, r: Read)
    requires GatherInv(init, before, lo, s) && Legal(r) && Fid(r) != s.fid
    ensures NoErrors(before) && LastFid(init, before).Some? && LastFid(init, before).value != Fid(r)
    ensures s.frame < 2 && (s.frame == Fid(r) <==> (s.restarts + 1) % 2 == 0)
  {
  }

  lemma {:induction false} WaitingMeans(init: Option<nat>, rs: seq<Read>)
    requires Run(init, rs).Waiting?
    ensures NoErrors(rs) && LastFid(init, rs) == Run(init, rs).prev
    decreases |rs|
  {
    if rs != [] { WaitingMeans(init, rs[..|rs| - 1]); }
  }

  // ---- Theorems -----------------------------------------------------------------------------------

  /** Every read before the last one left the assembler still running. */
  ghost predicate EndsNow(init: Option<nat>, rs: seq<Read>) {
    rs != [] && Ended(Run(init, rs)) && !Ended(Run(init, rs[..|rs| - 1]))
  }

  /** How a frame's packets come to an end: an EOF packet, which belongs to it, or the FID turning. */
  ghost predicate FrameEnd(rs: seq<Read>, hi: nat, fid: nat)
    requires 0 < hi <= |rs|
  {
    || (hi == |rs| && Legal(rs[hi - 1]) && Eof(rs[hi - 1]))
    || (hi == |rs| - 1 && Legal(rs[hi]) && Fid(rs[hi]) != fid)
  }

  /**
   A finished frame is one whole run of packets with one FID, from the turn of the FID to its end:
   the payloads from the first that begins with SOI, no EOF before the end, SOI first, EOI last.
   */
  lemma FrameMeans(init: Option<nat>, rs: seq<Read>) returns (lo: nat, hi: nat)
    requires EndsNow(init, rs) && Run(init, rs).Finished?
    ensures FrameIs(init, rs, lo, hi, Run(init, rs))
  {
    hide FromSoi, LastFid, FrameIs, GatherInv;
    var before, r := rs[..|rs| - 1], rs[|rs| - 1];
    var s0 := Run(init, before);
    assert rs == before + [r];
    if s0.Waiting? {
      WaitingMeans(init, before);
      lo, hi := |before|, |rs|;
      OnePacketFrame(init, before, r, Fid(r), 0);
    } else {
      lo := GatheringMeans(init, before);
      if Fid(r) == s0.fid {
        hi := |rs|;
        LastPacketFrame(init, before, lo, s0, r);
      } else if EndsEoi(s0.jpeg) {
        hi := |before|;
        TurnedFrame(init, before, lo, s0, r);
      } else {
        BeforeTurn(init, before, lo, s0, r);
        lo, hi := |before|, |rs|;
        OnePacketFrame(init, before, r, s0.frame, s0.restarts + 1);
      }
    }
  }

  /** The contents of a finished frame, whichever way it ended. */
  ghost predicate FrameIs(init: Option<nat>, rs: seq<Read>, lo: nat, hi: nat, s: State) {
    && s.Finished? && FrameRun(init, rs, lo, hi, s.fid) && NoEof(rs[lo..hi - 1])
    && FrameEnd(rs, hi, s.fid)
    && s.jpeg == FromSoi(rs[lo..hi])
    && StartsSoi(s.jpeg) && EndsEoi(s.jpeg) && 4 <= |s.jpeg| <= JPEG_CAP
    && (s.stored == s.fid <==> s.restarts % 2 == 0)
  }

  lemma EmptyRun()
    ensures FromSoi([]) == []
  {
  }

  lemma OnePacketFrame(init: Option<nat>, before: seq<Read>, r: Read, frame: nat, restarts: nat)
    requires NoErrors(before) && Legal(r) && LastFid(init, before).Some? && LastFid(init, before).value != Fid(r)
    requires frame == Fid(r) <==> restarts % 2 == 0
    ensures var s := Take(frame, Fid(r), [], restarts, r);
            s.Finished? ==> FrameIs(init, before + [r], |before|, |before| + 1, s)
  {
    hide Fid, Eof, FromSoi, Take, LastFid;
    var rs := before + [r];
    EmptyRun();
    TakeMeans(frame, Fid(r), [], restarts, r);
    assert [] + [r] == [r];
    FromSoiSnoc([r], r);
    assert rs[|before|..|rs|] == [r] && rs[..|before|] == before && rs[|before|..|before|] == [];
  }

  lemma LastPacketFrame(init: Option<nat>, before: seq<Read>, lo: nat, s: State, r: Read)
    requires GatherInv(init, before, lo, s) && Legal(r) && Fid(r) == s.fid
    ensures var s' := Take(s.frame, s.fid, s.jpeg, s.restarts, r);
            s'.Finished? ==> FrameIs(init, before + [r], lo, |before| + 1, s')
  {
    hide Fid, Eof, FromSoi, LastFid, Take;
    TakeMeans(s.frame, s.fid, before[lo..], s.restarts, r);
    FromSoiSnoc(before[lo..] + [r], r);
    RunGrows(init, before, lo, s.fid, r);
    var rs := before + [r];
    assert rs[lo..|rs|] == rs[lo..] && rs[lo..|rs| - 1] == before[lo..];
  }

  lemma TurnedFrame(init: Option<nat>, before: seq<Read>, lo: nat, s: State, r: Read)
    requires GatherInv(init, before, lo, s) && Legal(r) && Fid(r) != s.fid && EndsEoi(s.jpeg)
    ensures FrameIs(init, before + [r], lo, |before|, Finished(s.jpeg, s.frame, s.fid, s.restarts))
  {
    hide Fid, Eof, FromSoi, LastFid;
    FromSoiSnoc(before[lo..], r);
    var rs := before + [r];
    assert rs[lo..|before|] == before[lo..] == before[lo..|before|] && rs[..lo] == before[..lo];
    assert rs[lo..|before| - 1] == before[lo..][..|before| - 1 - lo];
  }

  // ---- A clean frame is captured --------------------------------------------------------------------

  /** Packets of one FID, EOF on the last and only there, the first payload beginning with SOI, EOI at the end, 380 KiB at most. */
  ghost predicate CleanFrame(frame: seq<Read>, fid: nat) {
    && frame != [] && (forall k :: 0 <= k < |frame| ==> Legal(frame[k]))
    && SameFid(frame, fid) && NoEof(frame[..|frame| - 1]) && Eof(frame[|frame| - 1])
    && StartsSoi(Payload(frame[0])) && EndsEoi(Concat(frame)) && |Concat(frame)| <= 389120
  }

  lemma {:induction false} ConcatShorter(run: seq<Read>, n: nat)
    requires n <= |run|
    ensures |Concat(run[..n])| <= |Concat(run)|
    decreases |run| - n
  {
    if n == |run| {
      assert run[..n] == run;
    } else {
      ConcatSnoc(run[..n], run[n]);
      assert run[..n] + [run[n]] == run[..n + 1];
      ConcatShorter(run, n + 1);
    }
  }

  lemma RunSnoc(init: Option<nat>, rs: seq<Read>, r: Read)
    ensures Run(init, rs + [r]) == Step(Run(init, rs), r)
  {
    assert (rs + [r])[..|rs|] == rs;
  }

  lemma CleanGrows(frame: seq<Read>, fid: nat, n: nat)
    requires CleanFrame(frame, fid) && 1 <= n <= |frame|
    ensures Legal(frame[n - 1]) && Fid(frame[n - 1]) == fid && (Eof(frame[n - 1]) <==> n == |frame|)
    ensures Concat(frame[..n]) == Concat(frame[..n - 1]) + Payload(frame[n - 1]) && |Concat(frame[..n])| <= JPEG_CAP
  {
    hide Fid, Eof, Payload, Concat, Legal;
    ConcatShorter(frame, n);
    ConcatSnoc(frame[..n - 1], frame[n - 1]);
    assert frame[..n - 1] + [frame[n - 1]] == frame[..n];
    assert n < |frame| ==> frame[..|frame| - 1][n - 1] == frame[n - 1];
  }

  /** The n-th packet of a clean frame, on top of the n-1 before it. */
  lemma TakeClean(frame: seq<Read>, fid: nat, n: nat)
    requires CleanFrame(frame, fid) && 1 <= n <= |frame|
    requires n == 1 || StartsSoi(Concat(frame[..n - 1]))
    ensures Take(fid, fid, Concat(frame[..n - 1]), 0, frame[n - 1])
            == if n < |frame| then Gathering(fid, fid, Concat(frame[..n]), 0) else Finished(Concat(frame), fid, fid, 0)
    ensures StartsSoi(Concat(frame[..n])) && Fid(frame[n - 1]) == fid
  {
    hide Fid, Eof, Payload, Concat, Legal, SameFid, NoEof;
    CleanGrows(frame, fid, n);
    NoPayloads();
    assert frame[..0] == [] && frame[..|frame|] == frame;
    TakeFits(fid, Concat(frame[..n - 1]), frame[n - 1]);
  }

  lemma TakeFits(fid: nat, jpeg: seq<Byte>, r: Read)
    requires Legal(r) && |jpeg + Payload(r)| <= JPEG_CAP
    requires if jpeg == [] then StartsSoi(Payload(r)) else StartsSoi(jpeg)
    requires Eof(r) ==> EndsEoi(jpeg + Payload(r))
    ensures Take(fid, fid, jpeg, 0, r)
            == if Eof(r) then Finished(jpeg + Payload(r), fid, fid, 0) else Gathering(fid, fid, jpeg + Payload(r), 0)
    ensures StartsSoi(jpeg + Payload(r))
  {
    hide Eof, Payload, Legal;
    assert [] + Payload(r) == Payload(r) && jpeg + [] == jpeg;
  }

  lemma NoPayloads()
    ensures Concat([]) == []
  {
  }

  /** Part-way through a clean frame the assembler holds exactly the payloads so far. */
  lemma {:induction false} CleanPrefix(init: Option<nat>, before: seq<Read>, frame: seq<Read>, fid: nat, n: nat)
    requires Run(init, before).Waiting? && LastFid(init, before).Some? && LastFid(init, before).value != fid
    requires CleanFrame(frame, fid) && 1 <= n <= |frame|
    ensures Run(init, before + frame[..n])
            == if n < |frame| then Gathering(fid, fid, Concat(frame[..n]), 0) else Finished(Concat(frame), fid, fid, 0)
    ensures StartsSoi(Concat(frame[..n]))
    decreases n
  {
    hide LastFid, Concat, Run, Take;
    WaitingMeans(init, before);
    RunSnoc(init, before + frame[..n - 1], frame[n - 1]);
    assert (before + frame[..n - 1]) + [frame[n - 1]] == before + frame[..n];
    if n == 1 {
      NoPayloads();
      assert before + frame[..0] == before && frame[..0] == [];
    } else {
      CleanPrefix(init, before, frame, fid, n - 1);
    }
    TakeClean(frame, fid, n);
  }

  /** Whatever came before, a clean frame after a turn of the FID is captured whole. */
  lemma CleanFrameCaptured(init: Option<nat>, before: seq<Read>, frame: seq<Read>, fid: nat)
    requires Run(init, before).Waiting? && LastFid(init, before).Some? && LastFid(init, before).value != fid
    requires CleanFrame(frame, fid)
    ensures Run(init, before + frame) == Finished(Concat(frame), fid, fid, 0)
  {
    CleanPrefix(init, before, frame, fid, |frame|);
    assert frame[..|frame|] == frame;
  }
}
