/**
 Starting the stream: PROBE what is wanted, read back what the camera offers, choose the alternate
 setting that carries it, and COMMIT to no more than that setting can carry.
 */
module UvcStream {
  import opened Arith
  import opened UsbErrors
  import opened UvcDescriptor
  import opened Wrappers
  import opened Dwc2

  const PROBE_COMMIT_LEN: nat := 34
  const PAYLOAD_AT: nat := 22

  type Alt = (nat, nat)

  type Control = s: seq<Byte> | |s| == 34 witness Repeat(34, 0)

  /** What the camera answers to the five requests; the first and the third failing is ignored. */
  datatype Answers = Answers(probe: UsbResult<()>, current: Control, getCurrent: UsbResult<()>, commit: UsbResult<()>, setInterface: UsbResult<()>)

  datatype Request = SetInterface(alt: nat) | Probe(payload: Control) | GetMax | GetCurrent | Commit(payload: Control)

  // ---- Little-endian fields -------------------------------------------------------------------------

  function ToLe(v: nat, n: nat): (s: seq<Byte>)
    ensures |s| == n
  {
    if n == 0 then [] else [v % 0x100] + ToLe(v / 0x100, n - 1)
  }

  lemma LeOfToLe(v: nat)
    requires v < WORD32
    ensures Le(ToLe(v, 4)) == v
  {
    var b := v / 0x100;
    var c := b / 0x100;
    var d := c / 0x100;
    assert d < 0x100 && ToLe(d, 1)[1..] == [] && Le(ToLe(d, 1)) == d;
    assert ToLe(c, 2)[1..] == ToLe(d, 1) && Le(ToLe(c, 2)) == c;
    assert ToLe(b, 3)[1..] == ToLe(c, 2) && Le(ToLe(b, 3)) == b;
    assert ToLe(v, 4)[1..] == ToLe(b, 3);
  }

  /** s with the four bytes from `at` on replaced by v. */
  function Put(s: seq<Byte>, at: nat, v: nat): (r: seq<Byte>)
    requires at + 4 <= |s| && v < WORD32
    ensures |r| == |s| && Le(r[at..at + 4]) == v
    ensures r[..at] == s[..at] && r[at + 4..] == s[at + 4..]
  {
    LeOfToLe(v);
    var r := s[..at] + ToLe(v, 4) + s[at + 4..];
    assert r[at..at + 4] == ToLe(v, 4);
    r
  }

  // ---- The alternate setting ----------------------------------------------------------------------------

  function Bandwidth(): Alt -> int {
    (a: Alt) => WmaxMps(a.1)
  }

  function Narrowness(): Alt -> int {
    (a: Alt) => -(WmaxMps(a.1) as int)
  }

  function Covering(alts: seq<Alt>, need: nat): seq<Alt> {
    if alts == [] then []
    else Covering(alts[..|alts| - 1], need) + if WmaxMps(alts[|alts| - 1].1) >= need then [alts[|alts| - 1]] else []
  }

  /** The first narrowest setting that covers the need, or the first widest; the present one without a need. */
  function Reselected(present: Alt, alts: seq<Alt>, need: nat): Alt {
    if alts == [] || need == 0 then present
    else
      var fit := Best(Covering(alts, need), Narrowness());
      if fit.Some? then fit.value else Best(alts, Bandwidth()).value
  }

  /** Settings that cover the need before those that do not; the narrowest of the former, the widest of the latter. */
  function Preference(need: nat): Alt -> int {
    (a: Alt) => if WmaxMps(a.1) >= need then 0x1000 - WmaxMps(a.1) else WmaxMps(a.1)
  }

  lemma SmallPayload(mpsRaw: nat)
    ensures WmaxMps(mpsRaw) < 0x800
  {
  }

  /** The two running choices of the loop amount to one order of preference. */
  lemma {:induction false} OneOrder(alts: seq<Alt>, need: nat)
    ensures var fit := Best(Covering(alts, need), Narrowness());
            && (if fit.Some? then fit else Best(alts, Bandwidth())) == Best(alts, Preference(need))
            && (fit.Some? ==> WmaxMps(fit.value.1) >= need)
            && (fit.None? && alts != [] ==> WmaxMps(Best(alts, Bandwidth()).value.1) < need)
  {
    hide Best, Covering, WmaxMps;
    if alts == [] {
      NoAlts(need);
    } else {
      var init, a := alts[..|alts| - 1], alts[|alts| - 1];
      OneOrder(init, need);
      OneMoreAlternate(init, a, need);
      BestSnoc(init, a, Preference(need));
      SmallPayload(a.1);
      assert init + [a] == alts;
      assert Preference(need)(a) == if WmaxMps(a.1) >= need then 0x1000 - WmaxMps(a.1) else WmaxMps(a.1);
    }
  }

  /**
   The setting chosen is the first that covers the need with the least bandwidth that does; if none
   does, the first with the most bandwidth.
   */
  lemma ReselectedMeans(present: Alt, alts: seq<Alt>, need: nat) returns (i: nat)
    requires alts != [] && need > 0
    ensures var a := Reselected(present, alts, need);
            && i < |alts| && alts[i] == a
            && (WmaxMps(a.1) >= need <==> exists b :: b in alts && WmaxMps(b.1) >= need)
            && (forall j :: 0 <= j < |alts| && WmaxMps(alts[j].1) >= need ==>
                  WmaxMps(a.1) <= WmaxMps(alts[j].1) && (j < i ==> WmaxMps(a.1) < WmaxMps(alts[j].1)))
            && (WmaxMps(a.1) < need ==> forall j :: 0 <= j < |alts| ==>
                  WmaxMps(alts[j].1) <= WmaxMps(a.1) && (j < i ==> WmaxMps(alts[j].1) < WmaxMps(a.1)))
  {
    hide Best, Covering;
    OneOrder(alts, need);
    i := BestIs(alts, Preference(need));
    assert forall j :: 0 <= j < |alts| ==> Preference(need)(alts[j]) <= Preference(need)(alts[i]);
    assert forall j :: 0 <= j < i ==> Preference(need)(alts[j]) < Preference(need)(alts[i]);
  }

  // ---- The negotiation ------------------------------------------------------------------------------------

  function Offer(current: Control): nat {
    U32(current, PAYLOAD_AT).value
  }

  /** The offer, cut to the bandwidth of the setting unless that is zero. */
  function Agreed(offer: nat, alt: Alt): nat {
    if 0 < WmaxMps(alt.1) < offer then WmaxMps(alt.1) else offer
  }

  function Max(a: nat, b: nat): nat {
    if a >= b then a else b
  }

  /** Room for a frame at one byte a pixel, two if uncompressed, at least 640x480. */
  function FrameEstimate(f: FramePick): nat {
    var area := Max(f.w, 640) * Max(f.h, 480);
    var bytes := if f.isMjpeg then area else 2 * area;
    if bytes < WORD32 then bytes else WORD32 - 1
  }

  /** The PROBE block states format, frame, interval, frame size and payload size; all else is zero. */
  ghost predicate Asks(payload: seq<Byte>, frame: FramePick, mpsRaw: nat) {
    && |payload| == PROBE_COMMIT_LEN
    && payload[..4] == [1, 0, frame.fmtIx % 0x100, frame.frameIx % 0x100] && Le(payload[4..8]) == frame.ival
    && payload[8..18] == Repeat(10, 0) && Le(payload[18..22]) == FrameEstimate(frame)
    && Le(payload[PAYLOAD_AT..26]) == WmaxMps(mpsRaw) && payload[26..] == Repeat(8, 0)
  }

  class UvcStreamSelection {
    const alts: seq<Alt>
    const frame: FramePick
    var altSetting: nat
    var mpsRaw: nat
    var negotiated: nat

    /** A frame as it is parsed: byte-wide indices, 16-bit sides, 32-bit interval. */
    ghost predicate Valid()
      reads this
    {
      frame.fmtIx < 0x100 && frame.frameIx < 0x100 && frame.w < 0x1_0000 && frame.h < 0x1_0000 && frame.ival < WORD32
    }

    constructor (sel: Selection)
      ensures alts == sel.alts && frame == sel.frame
      ensures altSetting == sel.altSetting && mpsRaw == sel.mpsRaw && negotiated == 0
    {
      alts, frame := sel.alts, sel.frame;
      altSetting, mpsRaw, negotiated := sel.altSetting, sel.mpsRaw, 0;
    }

    method ReselectIsochAltForPayload()
      modifies `altSetting, `mpsRaw
      ensures (altSetting, mpsRaw) == Reselected(old((altSetting, mpsRaw)), alts, negotiated)
    {
      hide Best, Covering, WmaxMps;
      if alts == [] || negotiated == 0 {
        return;
      }
      var need := negotiated;
      var bestFit: Option<Alt>, bestMax: Option<Alt> := None, None;
      NoAlts(need);
      for k := 0 to |alts|
        invariant bestFit == Best(Covering(alts[..k], need), Narrowness()) && bestMax == Best(alts[..k], Bandwidth())
      {
        OneMoreAlternate(alts[..k], alts[k], need);
        assert alts[..k + 1] == alts[..k] + [alts[k]];
        var total := WmaxMps(alts[k].1);
        if total >= need {
          bestFit := if bestFit.None? || WmaxMps(bestFit.value.1) > total then Some(alts[k]) else bestFit;
        }
        bestMax := if bestMax.None? || WmaxMps(bestMax.value.1) < total then Some(alts[k]) else bestMax;
      }
      assert alts[..|alts|] == alts;
      var pick := if bestFit.Some? then bestFit.value else bestMax.value;
      if pick.0 != altSetting || pick.1 != mpsRaw {
        altSetting, mpsRaw := pick.0, pick.1;
      }
    }

    method BuildProbeCommitPayload() returns (payload: Control)
      requires Valid()
      ensures Asks(payload, frame, mpsRaw)
    {
      hide Le, ToLe;
      var estimate := FrameEstimate(frame);
      var buf := Repeat(PROBE_COMMIT_LEN, 0);
      buf := buf[0 := 1];
      buf := buf[2 := frame.fmtIx];
      buf := buf[3 := frame.frameIx];
      var b1 := Put(buf, 4, frame.ival);
      var b2 := Put(b1, 18, estimate);
      var b3 := Put(b2, PAYLOAD_AT, WmaxMps(mpsRaw));
      ProbeFields(buf, b1, b2, b3);
      payload := b3;
    }

    /** PROBE, read back, choose the setting, COMMIT, switch; the first hard failure ends it. */
    method StartStream(bus: Answers) returns (r: UsbResult<()>, sent: seq<Request>)
      requires Valid()
      modifies this
      ensures r == if bus.probe.Err? then bus.probe else if bus.getCurrent.Err? then bus.getCurrent
                   else if bus.commit.Err? then bus.commit else bus.setInterface
      ensures |sent| >= 2 && sent[0] == SetInterface(0) && sent[1].Probe? && Asks(sent[1].payload, frame, old(mpsRaw))
      ensures !bus.probe.Ok? || !bus.getCurrent.Ok? ==>
                altSetting == old(altSetting) && mpsRaw == old(mpsRaw) && negotiated == old(negotiated) && forall q :: q in sent ==> !q.Commit?
      ensures bus.probe.Ok? && bus.getCurrent.Ok? ==>
                && (altSetting, mpsRaw) == Reselected(old((altSetting, mpsRaw)), alts, Offer(bus.current))
                && negotiated == Agreed(Offer(bus.current), (altSetting, mpsRaw))
                && sent == [SetInterface(0), sent[1], GetMax, GetCurrent, Commit(Put(bus.current, PAYLOAD_AT, negotiated))]
                           + if bus.commit.Ok? then [SetInterface(altSetting)] else []
    {
      hide Reselected, WmaxMps, Le, Asks;
      var first := BuildProbeCommitPayload();
      sent := [SetInterface(0), Probe(first)];
      if bus.probe.Err? {
        return bus.probe, sent;
      }
      sent := sent + [GetMax, GetCurrent];
      if bus.getCurrent.Err? {
        return bus.getCurrent, sent;
      }
      var probe := bus.current;
      negotiated := U32(probe, PAYLOAD_AT).value;
      ReselectIsochAltForPayload();
      PutBack(probe);
      var altMps := WmaxMps(mpsRaw);
      if altMps > 0 && altMps < negotiated {
        negotiated := altMps;
        probe := Put(probe, PAYLOAD_AT, altMps);
      }
      sent := sent + [Commit(probe)];
      if bus.commit.Err? {
        return bus.commit, sent;
      }
      sent := sent + [SetInterface(altSetting)];
      r := bus.setInterface;
    }
  }

  lemma NoAlts(need: nat)
    ensures Covering([], need) == [] && Best<Alt>([], Narrowness()) == None
    ensures Best<Alt>([], Bandwidth()) == None && Best<Alt>([], Preference(need)) == None
  {
  }

  lemma CoveringSnoc(alts: seq<Alt>, a: Alt, need: nat)
    ensures Covering(alts + [a], need) == if WmaxMps(a.1) >= need then Covering(alts, need) + [a] else Covering(alts, need)
  {
    hide WmaxMps;
    assert (alts + [a])[..|alts|] == alts;
    assert Covering(alts, need) + [] == Covering(alts, need);
  }

  lemma OneMoreAlternate(alts: seq<Alt>, a: Alt, need: nat)
    ensures var fit := Best(Covering(alts, need), Narrowness());
            Best(Covering(alts + [a], need), Narrowness())
            == if WmaxMps(a.1) < need then fit else if fit.None? || WmaxMps(fit.value.1) > WmaxMps(a.1) then Some(a) else fit
    ensures var widest := Best(alts, Bandwidth());
            Best(alts + [a], Bandwidth()) == if widest.None? || WmaxMps(widest.value.1) < WmaxMps(a.1) then Some(a) else widest
  {
    hide WmaxMps, Best, Covering;
    CoveringSnoc(alts, a, need);
    BestSnoc(Covering(alts, need), a, Narrowness());
    BestSnoc(alts, a, Bandwidth());
    assert Bandwidth()(a) == WmaxMps(a.1) && Narrowness()(a) == -(WmaxMps(a.1) as int);
  }

  /** The fields that an earlier Put wrote are still there after the later ones. */
  lemma ProbeFields(b0: seq<Byte>, b1: seq<Byte>, b2: seq<Byte>, b3: seq<Byte>)
    requires |b0| == |b1| == |b2| == |b3| == PROBE_COMMIT_LEN
    requires b1[..4] == b0[..4] && b1[8..] == b0[8..]
    requires b2[..18] == b1[..18] && b2[22..] == b1[22..]
    requires b3[..22] == b2[..22] && b3[26..] == b2[26..]
    ensures b3[..4] == b0[..4] && b3[4..8] == b1[4..8] && b3[8..18] == b0[8..18] && b3[18..22] == b2[18..22] && b3[26..] == b0[26..]
  {
    assert b3[..22][4..8] == b2[..18][4..8] == b1[4..8] && b3[..22][18..22] == b2[18..22];
    assert b3[8..18] == b3[..22][8..18] == b2[..22][8..18] == b2[..18][8..18] == b1[..18][8..18];
    assert b1[..18][8..18] == b1[8..][..10] == b0[8..][..10] == b0[8..18];
    assert b3[26..] == b2[22..][4..] == b1[8..][18..] == b0[8..][18..];
  }

  /** Writing back the value that is there changes nothing. */
  lemma PutBack(s: Control)
    ensures Put(s, PAYLOAD_AT, Offer(s)) == s
  {
    ToLeOfLe(s[PAYLOAD_AT..PAYLOAD_AT + 4]);
  }

  lemma {:induction false} ToLeOfLe(s: seq<Byte>)
    ensures ToLe(Le(s), |s|) == s
  {
    if s != [] {
      ToLeOfLe(s[1..]);
      assert Le(s) % 0x100 == s[0] && Le(s) / 0x100 == Le(s[1..]);
    }
  }

  /**
   A COMMIT asks for no more than its setting carries, and changes nothing else of the camera's offer;
   when some setting covers the offer, the offer stands.
   */
  lemma CommitFits(present: Alt, alts: seq<Alt>, current: Control)
    ensures var alt := Reselected(present, alts, Offer(current));
            var agreed := Agreed(Offer(current), alt);
            var commit := Put(current, PAYLOAD_AT, agreed);
            && Le(commit[PAYLOAD_AT..26]) == agreed <= Offer(current)
            && commit[..PAYLOAD_AT] == current[..PAYLOAD_AT] && commit[26..] == current[26..]
            && (WmaxMps(alt.1) > 0 ==> agreed <= WmaxMps(alt.1) && (agreed == WmaxMps(alt.1) || agreed == Offer(current)))
            && (WmaxMps(alt.1) == 0 ==> agreed == Offer(current))
            && ((exists b :: b in alts && WmaxMps(b.1) >= Offer(current)) ==> agreed == Offer(current) || Offer(current) == 0)
  {
    hide WmaxMps, Le, Reselected;
    if alts != [] && Offer(current) > 0 {
      var i := ReselectedMeans(present, alts, Offer(current));
    }
  }

  /**
   The frame size asked for: one byte a pixel, two if uncompressed, counting no side as less than 640 by 480,
   and the largest 32-bit number where that does not fit.
   */
  lemma EstimateCovers(f: FramePick)
    ensures var e, n, x, y := FrameEstimate(f), if f.isMjpeg then 1 else 2, if f.w < 640 then 640 else f.w, if f.h < 480 then 480 else f.h;
            && e <= 0xFFFF_FFFF && (e == n * (x * y) || (e == 0xFFFF_FFFF && n * (x * y) > e))
            && (f.w < 0x1_0000 && f.h < 0x1_0000 && f.isMjpeg ==> e >= f.w * f.h)
  {
    if f.w < 0x1_0000 && f.h < 0x1_0000 {
      var x: nat, y: nat := if f.w < 640 then 640 else f.w, if f.h < 480 then 480 else f.h;
      MulMonotone(f.w, x, f.h);
      MulMonotone(f.h, y, x);
      MulMonotone(x, 0xFFFF, y);
      MulMonotone(y, 0xFFFF, 0xFFFF);
    }
  }
}
