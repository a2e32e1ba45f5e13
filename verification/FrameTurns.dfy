/**
 The FID across frames: what a finished capture stores, when that is not the FID of its frame, and
 what a frame that ends with the turn of the FID costs the next one.
 */
module FrameTurns {
  import opened Arith
  import opened FrameSpec
  import opened UsbErrors
  import opened Wrappers

  /** Packet k has another FID than the last legal packet before it. */
  predicate TurnAt(init: Option<nat>, rs: seq<Read>, k: nat)
    requires k < |rs|
  {
    var last := LastFid(init, rs[..k]);
    Legal(rs[k]) && last.Some? && last.value != Fid(rs[k])
  }

  /** How often the FID turns. */
  function Turns(init: Option<nat>, rs: seq<Read>): nat {
    if rs == [] then 0 else Turns(init, rs[..|rs| - 1]) + if TurnAt(init, rs, |rs| - 1) then 1 else 0
  }

  /** The packet that ends the wait for a turn. */
  ghost predicate FirstTurn(init: Option<nat>, rs: seq<Read>, w: nat) {
    w < |rs| && TurnAt(init, rs, w) && Turns(init, rs[..w]) == 0
  }

  lemma TurnsSnoc(init: Option<nat>, rs: seq<Read>, r: Read)
    ensures Turns(init, rs + [r]) == Turns(init, rs) + if TurnAt(init, rs + [r], |rs|) then 1 else 0
    ensures forall w :: FirstTurn(init, rs, w) ==> FirstTurn(init, rs + [r], w)
  {
    hide LastFid;
    assert (rs + [r])[..|rs|] == rs;
    forall w: nat | FirstTurn(init, rs, w) ensures FirstTurn(init, rs + [r], w) {
      assert (rs + [r])[..w] == rs[..w];
    }
  }

  /** While waiting no turn has been seen; while gathering, one more than there were restarts. */
  lemma {:induction false} TurnsCounted(init: Option<nat>, rs: seq<Read>) returns (w: nat)
    ensures Run(init, rs).Waiting? ==> Turns(init, rs) == 0
    ensures var s := Run(init, rs);
            s.Gathering? ==> Turns(init, rs) == s.restarts + 1 && FirstTurn(init, rs, w) && s.frame == Fid(rs[w])
    decreases |rs|
  {
    hide LastFid, Fid, Legal, TurnAt;
    w := 0;
    if rs != [] {
      var before, r := rs[..|rs| - 1], rs[|rs| - 1];
      assert before + [r] == rs;
      w := TurnsCounted(init, before);
      TurnsSnoc(init, before, r);
      var s0 := Run(init, before);
      if s0.Waiting? {
        WaitingMeans(init, before);
        TurnOf(init, before, r);
        if Run(init, rs).Gathering? {
          w := |before|;
        }
      } else if s0.Gathering? {
        var lo := GatheringMeans(init, before);
        TurnOf(init, before, r);
      }
    }
  }

  lemma TurnOf(init: Option<nat>, before: seq<Read>, r: Read)
    ensures TurnAt(init, before + [r], |before|)
            <==> Legal(r) && LastFid(init, before).Some? && LastFid(init, before).value != Fid(r)
    ensures (before + [r])[..|before|] == before
  {
    assert (before + [r])[..|before|] == before;
  }

  /** The last step of a capture that finishes: where its FID, restarts and stored FID come from. */
  lemma LastStep(init: Option<nat>, before: seq<Read>, r: Read)
    requires Run(init, before + [r]).Finished? && !Ended(Run(init, before))
    ensures Legal(r)
    ensures var s0, s := Run(init, before), Run(init, before + [r]);
            if s0.Waiting? then
              s0.prev.Some? && s0.prev.value != Fid(r) && s.stored == s.fid == Fid(r) && s.restarts == 0
            else
              && s.stored == s0.frame
              && (|| (s.fid == s0.fid && s.restarts == s0.restarts)
                  || (s.fid == Fid(r) != s0.fid && s.restarts == s0.restarts + 1))
  {
    hide Fid, Legal, Append;
    RunSnoc(init, before, r);
  }

  lemma {:induction false} TurnsMonotone(init: Option<nat>, rs: seq<Read>, j: nat, k: nat)
    requires j < k <= |rs| && TurnAt(init, rs, j)
    ensures Turns(init, rs[..k]) > 0
    decreases k
  {
    hide LastFid;
    var upTo := rs[..k];
    assert upTo[..k - 1] == rs[..k - 1];
    if j < k - 1 {
      TurnsMonotone(init, rs, j, k - 1);
    } else {
      assert upTo[..j] == rs[..j];
    }
  }

  /**
   What is stored is the FID of the packet that ended the wait. It is stale, not the finished frame's,
   iff the FID has turned an even number of times up to the end of the frame.
   */
  lemma StaleIff(init: Option<nat>, rs: seq<Read>) returns (w: nat, lo: nat, hi: nat)
    requires EndsNow(init, rs) && Run(init, rs).Finished?
    ensures var s := Run(init, rs);
            && FrameIs(init, rs, lo, hi, s) && FirstTurn(init, rs, w) && w <= lo && s.stored == Fid(rs[w])
            && (s.stored != s.fid <==> Turns(init, rs[..hi]) % 2 == 0)
  {
    hide LastFid, Fid, Legal, TurnAt, FromSoi, Run, FrameIs, GatherInv;
    lo, hi := FrameMeans(init, rs);
    StoredByParity(init, rs, lo, hi);
    var before, r := rs[..|rs| - 1], rs[|rs| - 1];
    assert before + [r] == rs && rs[..|rs|] == rs;
    LastStep(init, before, r);
    w := TurnsCounted(init, before);
    TurnsSnoc(init, before, r);
    TurnOf(init, before, r);
    if Run(init, before).Waiting? {
      WaitingMeans(init, before);
      w := |before|;
      FirstNow(init, before, r);
    } else {
      SameOrTurned(init, before, r);
    }
    FrameHeadTurns(init, rs, lo, hi);
    if lo < w {
      TurnsMonotone(init, rs, lo, w);
      NoneBefore(init, rs, w);
    }
    LastOfFrame(init, rs, lo, hi);
  }

  lemma StoredByParity(init: Option<nat>, rs: seq<Read>, lo: nat, hi: nat)
    requires FrameIs(init, rs, lo, hi, Run(init, rs))
    ensures var s := Run(init, rs); s.stored == s.fid <==> s.restarts % 2 == 0
  {
  }

  /** While gathering, the last legal packet is of the frame being gathered. */
  lemma SameOrTurned(init: Option<nat>, before: seq<Read>, r: Read)
    requires Run(init, before).Gathering?
    ensures TurnAt(init, before + [r], |before|) <==> Legal(r) && Run(init, before).fid != Fid(r)
  {
    hide Run, LastFid, Fid, Legal, FromSoi;
    var lo := GatheringMeans(init, before);
    TurnOf(init, before, r);
  }

  lemma FirstNow(init: Option<nat>, before: seq<Read>, r: Read)
    requires TurnAt(init, before + [r], |before|) && Turns(init, before) == 0
    ensures FirstTurn(init, before + [r], |before|)
  {
    assert (before + [r])[..|before|] == before;
  }

  lemma NoneBefore(init: Option<nat>, rs: seq<Read>, w: nat)
    requires FirstTurn(init, rs, w)
    ensures Turns(init, rs[..w]) == 0
  {
  }

  lemma FrameHeadTurns(init: Option<nat>, rs: seq<Read>, lo: nat, hi: nat)
    requires Run(init, rs).Finished? && FrameIs(init, rs, lo, hi, Run(init, rs))
    ensures lo < |rs| && TurnAt(init, rs, lo)
  {
    hide LastFid, Run;
    assert rs[lo..hi][0] == rs[lo];
  }

  /** The last packet is the frame's own iff it has the frame's FID. */
  lemma LastOfFrame(init: Option<nat>, rs: seq<Read>, lo: nat, hi: nat)
    requires Run(init, rs).Finished? && FrameIs(init, rs, lo, hi, Run(init, rs)) && Legal(rs[|rs| - 1])
    ensures if Fid(rs[|rs| - 1]) == Run(init, rs).fid then hi == |rs| else hi == |rs| - 1
  {
    hide LastFid, Run;
    if hi == |rs| {
      assert rs[lo..hi][hi - 1 - lo] == rs[hi - 1];
    }
  }

  /** One dropped fragment is enough: here a fragment without EOI comes before the frame. */
  lemma StoredFidCanBeStale()
    ensures var fragment, frame := Packet([2, 1, 0xFF, 0xD8]), Packet([2, 2, 0xFF, 0xD8, 0xFF, 0xD9]);
            && Run(Some(0), [fragment, frame]) == Finished([0xFF, 0xD8, 0xFF, 0xD9], 1, 0, 1)
            && Turns(Some(0), [fragment, frame]) == 2
  {
    hide Step;
    var fragment, frame := Packet([2, 1, 0xFF, 0xD8]), Packet([2, 2, 0xFF, 0xD8, 0xFF, 0xD9]);
    RunSnoc(Some(0), [], fragment);
    RunSnoc(Some(0), [fragment], frame);
    FragmentTaken(fragment);
    FrameTaken(frame);
    assert [] + [fragment] == [fragment] && [fragment] + [frame] == [fragment, frame];
    TurnsSnoc(Some(0), [], fragment);
    TurnsSnoc(Some(0), [fragment], frame);
    TurnOf(Some(0), [], fragment);
    TurnOf(Some(0), [fragment], frame);
    LastFidSnoc(Some(0), [], fragment);
  }

  lemma FragmentTaken(fragment: Read)
    requires fragment == Packet([2, 1, 0xFF, 0xD8])
    ensures Step(Waiting(Some(0)), fragment) == Gathering(1, 1, [0xFF, 0xD8], 0)
  {
    assert Payload(fragment) == [0xFF, 0xD8] && [] + Payload(fragment) == [0xFF, 0xD8];
  }

  lemma FrameTaken(frame: Read)
    requires frame == Packet([2, 2, 0xFF, 0xD8, 0xFF, 0xD9])
    ensures Step(Gathering(1, 1, [0xFF, 0xD8], 0), frame) == Finished([0xFF, 0xD8, 0xFF, 0xD9], 1, 0, 1)
  {
    hide Append, EndsEoi;
    var payload := Payload(frame);
    assert payload == [0xFF, 0xD8, 0xFF, 0xD9];
    WholeFrame(payload);
  }

  lemma WholeFrame(payload: seq<Byte>)
    requires payload == [0xFF, 0xD8, 0xFF, 0xD9]
    ensures Append([], payload) == Some(payload) && EndsEoi(payload) && !EndsEoi([0xFF, 0xD8])
  {
    assert [] + payload == payload;
  }

  // ---- The price of ending with a turn ---------------------------------------------------------------

  /** The rest of a frame whose first packet is gone: same FID, EOF on the last only, and no payload that begins with SOI. */
  ghost predicate Headless(tail: seq<Read>, fid: nat) {
    && tail != [] && SameFid(tail, fid) && NoEof(tail[..|tail| - 1])
    && (forall k :: 0 <= k < |tail| ==> Legal(tail[k]) && !StartsSoi(Payload(tail[k])))
    && Eof(tail[|tail| - 1])
  }

  lemma NothingTaken(fid: nat, r: Read)
    requires Legal(r) && Fid(r) == fid && !StartsSoi(Payload(r))
    ensures Take(fid, fid, [], 0, r) == if Eof(r) then Broken(Timeout) else Gathering(fid, fid, [], 0)
  {
    hide Payload, StartsSoi;
  }

  lemma PacketOfTail(tail: seq<Read>, fid: nat, n: nat)
    requires Headless(tail, fid) && 1 <= n <= |tail|
    ensures var r := tail[n - 1]; Legal(r) && Fid(r) == fid && !StartsSoi(Payload(r)) && (Eof(r) <==> n == |tail|)
    ensures tail[..n] == tail[..n - 1] + [tail[n - 1]]
  {
    hide Legal, Fid, Payload, Eof, StartsSoi;
    assert n < |tail| ==> tail[..|tail| - 1][n - 1] == tail[n - 1];
  }

  lemma {:induction false} HeadlessNothingKept(tail: seq<Read>, fid: nat, stored: nat, n: nat)
    requires Headless(tail, fid) && stored != fid && 1 <= n <= |tail|
    ensures Run(Some(stored), tail[..n]) == if n < |tail| then Gathering(fid, fid, [], 0) else Broken(Timeout)
    decreases n
  {
    hide Fid, Payload, Eof, StartsSoi, Take, Headless, Run;
    var r := tail[n - 1];
    PacketOfTail(tail, fid, n);
    RunSnoc(Some(stored), tail[..n - 1], r);
    NothingTaken(fid, r);
    if n > 1 {
      HeadlessNothingKept(tail, fid, stored, n - 1);
    } else {
      NoneRead(stored);
    }
  }

  lemma NoneRead(stored: nat)
    ensures Run(Some(stored), []) == Waiting(Some(stored)) && LastFid(Some(stored), []) == Some(stored)
  {
  }

  /**
   A frame that ends with the turn of the FID has consumed the first packet of the next one. The next
   capture turns at once, finds no SOI in what is left and times out; with a stale FID it waits on.
   */
  lemma TurnCostsNextFrame(init: Option<nat>, rs: seq<Read>, tail: seq<Read>) returns (w: nat, lo: nat, hi: nat)
    requires EndsNow(init, rs) && Run(init, rs).Finished? && Legal(rs[|rs| - 1])
    requires var s, g := Run(init, rs), Fid(rs[|rs| - 1]); g != s.fid && Headless(tail, g)
    ensures var s := Run(init, rs);
            && hi == |rs| - 1 && FrameIs(init, rs, lo, hi, s) && FirstTurn(init, rs, w)
            && Run(Some(s.stored), tail) == if Turns(init, rs[..hi]) % 2 == 1 then Broken(Timeout) else Waiting(Some(s.stored))
  {
    hide Run, FirstTurn, Turns, LastFid, Fid, Legal, FrameIs, Headless;
    w, lo, hi := StaleIff(init, rs);
    LastOfFrame(init, rs, lo, hi);
    var s := Run(init, rs);
    var g := Fid(rs[|rs| - 1]);
    if s.stored == s.fid {
      TailTimesOut(tail, g, s.stored);
    } else {
      FidOfFrame(init, rs, lo, hi);
      assert s.stored == g;
      TailSkipped(tail, g, |tail|);
      assert tail[..|tail|] == tail;
    }
  }

  lemma FidOfFrame(init: Option<nat>, rs: seq<Read>, lo: nat, hi: nat)
    requires FrameIs(init, rs, lo, hi, Run(init, rs))
    ensures Run(init, rs).fid < 2
  {
    hide Run, LastFid;
    assert rs[lo..hi][0] == rs[lo];
  }

  lemma {:induction false} TailSkipped(tail: seq<Read>, fid: nat, n: nat)
    requires Headless(tail, fid) && n <= |tail|
    ensures Run(Some(fid), tail[..n]) == Waiting(Some(fid))
    decreases n
  {
    hide Fid, Payload, Eof, StartsSoi, Take, Headless, Run;
    if n == 0 {
      NoneRead(fid);
    } else {
      PacketOfTail(tail, fid, n);
      TailSkipped(tail, fid, n - 1);
      RunSnoc(Some(fid), tail[..n - 1], tail[n - 1]);
    }
  }

  lemma TailTimesOut(tail: seq<Read>, fid: nat, stored: nat)
    requires Headless(tail, fid) && stored != fid
    ensures Run(Some(stored), tail) == Broken(Timeout)
  {
    hide Run;
    HeadlessNothingKept(tail, fid, stored, |tail|);
    assert tail[..|tail|] == tail;
  }

  /** A frame without EOF, ended by the first packet of the next: the next, though complete on the wire, times out. */
  lemma SecondFrameLost()
    ensures var a, b1, b2 := Packet([2, 1, 0xFF, 0xD8, 0xFF, 0xD9]), Packet([2, 0, 0xFF, 0xD8]), Packet([2, 2, 0xFF, 0xD9]);
            && Run(Some(0), [a, b1]) == Finished([0xFF, 0xD8, 0xFF, 0xD9], 1, 1, 0)
            && Run(Some(1), [b2]) == Broken(Timeout)
  {
    hide Step;
    var a, b1, b2 := Packet([2, 1, 0xFF, 0xD8, 0xFF, 0xD9]), Packet([2, 0, 0xFF, 0xD8]), Packet([2, 2, 0xFF, 0xD9]);
    RunSnoc(Some(0), [], a);
    RunSnoc(Some(0), [a], b1);
    RunSnoc(Some(1), [], b2);
    assert [] + [a] == [a] && [a] + [b1] == [a, b1] && [] + [b2] == [b2];
    WholeTaken(a);
    TurnEnds(b1);
    TailOnly(b2);
  }

  lemma WholeTaken(a: Read)
    requires a == Packet([2, 1, 0xFF, 0xD8, 0xFF, 0xD9])
    ensures Step(Waiting(Some(0)), a) == Gathering(1, 1, [0xFF, 0xD8, 0xFF, 0xD9], 0)
  {
    hide Append;
    assert Payload(a) == [0xFF, 0xD8, 0xFF, 0xD9];
    WholeFrame(Payload(a));
  }

  lemma TurnEnds(b1: Read)
    requires b1 == Packet([2, 0, 0xFF, 0xD8])
    ensures Step(Gathering(1, 1, [0xFF, 0xD8, 0xFF, 0xD9], 0), b1) == Finished([0xFF, 0xD8, 0xFF, 0xD9], 1, 1, 0)
  {
  }

  lemma TailOnly(b2: Read)
    requires b2 == Packet([2, 2, 0xFF, 0xD9])
    ensures Step(Waiting(Some(1)), b2) == Broken(Timeout)
  {
    assert Payload(b2) == [0xFF, 0xD9];
  }

  // ---- When the next frame is captured whole -----------------------------------------------------------

  /** The packet that finished the capture has another FID than its frame: it is the first of the next one. */
  predicate EndsByTurn(init: Option<nat>, rs: seq<Read>) {
    var s := Run(init, rs);
    rs != [] && s.Finished? && Legal(rs[|rs| - 1]) && Fid(rs[|rs| - 1]) != s.fid
  }

  /** The frame after a capture, as it was on the wire: `more` is what the next capture reads of it. */
  function OnTheWire(init: Option<nat>, rs: seq<Read>, more: seq<Read>): seq<Read> {
    if EndsByTurn(init, rs) then [rs[|rs| - 1]] + more else more
  }

  function Held(s: State): seq<Byte> {
    if s.Gathering? || s.Finished? then s.jpeg else []
  }

  lemma StepHolds(s: State, r: Read)
    ensures |Held(Step(s, r))| <= |Held(s)| + |PayloadOf(r)|
  {
    hide Fid, Eof, EndsEoi, StartsSoi;
  }

  lemma NothingHeld(init: Option<nat>)
    ensures Held(Run(init, [])) == []
  {
  }

  /** No capture holds more than the payloads it has read. */
  lemma {:induction false} HeldWasRead(init: Option<nat>, rs: seq<Read>)
    ensures |Held(Run(init, rs))| <= |Concat(rs)|
    decreases |rs|
  {
    hide Step, Held, Concat, PayloadOf;
    if rs == [] {
      NothingHeld(init);
    } else {
      var before, r := rs[..|rs| - 1], rs[|rs| - 1];
      assert before + [r] == rs;
      HeldWasRead(init, before);
      ConcatSnoc(before, r);
      StepHolds(Run(init, before), r);
    }
  }

  /** Packets of the stored FID do not end the wait. */
  lemma {:induction false} StoredFidSkipped(frame: seq<Read>, fid: nat)
    requires SameFid(frame, fid) && forall k :: 0 <= k < |frame| ==> Legal(frame[k])
    ensures Run(Some(fid), frame) == Waiting(Some(fid))
    decreases |frame|
  {
    hide Run, Take;
    if frame != [] {
      var before, r := frame[..|frame| - 1], frame[|frame| - 1];
      StoredFidSkipped(before, fid);
      RunSnoc(Some(fid), before, r);
      assert before + [r] == frame;
    } else {
      NoneRead(fid);
    }
  }

  /** With its first packet gone a frame cannot be captured whole, whatever its other packets hold. */
  lemma HeadGone(init: Option<nat>, first: Read, more: seq<Read>)
    requires Legal(first) && StartsSoi(Payload(first))
    ensures Held(Run(init, more)) != Concat([first] + more)
  {
    hide Legal, Held, Run;
    HeldWasRead(init, more);
    assert ([first] + more)[1..] == more;
  }

  /**
   After a capture that finished, the next clean frame on the wire is captured whole iff the last one did
   not end with a turn of the FID, and the FID of the next is not the one stored: it differs from that of
   the last iff the FID has turned an odd number of times.
   */
  lemma NextFrameCapturedIff(init: Option<nat>, rs: seq<Read>, more: seq<Read>, fid: nat)
    requires EndsNow(init, rs) && Run(init, rs).Finished?
    requires CleanFrame(OnTheWire(init, rs, more), fid)
    ensures var s, next, frame := Run(init, rs), Run(Some(Run(init, rs).stored), more), Concat(OnTheWire(init, rs, more));
            && (next.Finished? && next.jpeg == frame
                <==> !EndsByTurn(init, rs) && (fid != s.fid <==> Turns(init, rs) % 2 == 1))
            && (next.Finished? && next.jpeg == frame ==> next == Finished(frame, fid, fid, 0))
  {
    hide Run, Turns, LastFid, Fid, Legal, FrameIs, FirstTurn, CleanFrame, Concat;
    var s := Run(init, rs);
    var w, lo, hi := StaleIff(init, rs);
    LastIsLegal(init, rs);
    LastOfFrame(init, rs, lo, hi);
    FidOfFrame(init, rs, lo, hi);
    StoredIsFid(init, rs, w);
    FirstOfClean(OnTheWire(init, rs, more), fid);
    if EndsByTurn(init, rs) {
      HeadGone(Some(s.stored), rs[|rs| - 1], more);
    } else {
      assert rs[..|rs|] == rs;
      if s.stored == fid {
        CleanIsLegal(more, fid);
        StoredFidSkipped(more, fid);
      } else {
        NoneRead(s.stored);
        CleanFrameCaptured(Some(s.stored), [], more, fid);
        assert [] + more == more;
      }
    }
  }

  lemma LastIsLegal(init: Option<nat>, rs: seq<Read>)
    requires EndsNow(init, rs) && Run(init, rs).Finished?
    ensures Legal(rs[|rs| - 1])
  {
    hide Run;
    var before, r := rs[..|rs| - 1], rs[|rs| - 1];
    assert before + [r] == rs;
    LastStep(init, before, r);
  }

  lemma StoredIsFid(init: Option<nat>, rs: seq<Read>, w: nat)
    requires FirstTurn(init, rs, w)
    ensures Legal(rs[w]) && Fid(rs[w]) < 2
  {
  }

  lemma FirstOfClean(frame: seq<Read>, fid: nat)
    requires CleanFrame(frame, fid)
    ensures Legal(frame[0]) && StartsSoi(Payload(frame[0])) && Fid(frame[0]) == fid < 2
  {
  }

  lemma CleanIsLegal(frame: seq<Read>, fid: nat)
    requires CleanFrame(frame, fid)
    ensures SameFid(frame, fid) && forall k :: 0 <= k < |frame| ==> Legal(frame[k])
  {
  }
}
