/** What the selection amounts to: which interval, which frame and which endpoint a caller ends up with. */
module UvcMeaning {
  import opened Arith
  import opened UvcDescriptor
  import opened Wrappers

  // ---- Intervals ----------------------------------------------------------------------------------

  lemma {:induction false} NonZeroHas(vs: seq<nat>, v: nat)
    ensures v in NonZero(vs) <==> v in vs && v > 0
  {
    if vs != [] {
      NonZeroHas(vs[..|vs| - 1], v);
      assert vs == vs[..|vs| - 1] + [vs[|vs| - 1]];
    }
  }

  /** Whatever is supported, something offered is at least as near. */
  lemma OfferedNearer(d: seq<Byte>, dflt: nat, ivalType: nat, pref: nat, v: nat) returns (u: nat)
    requires !IntervalPanics(d, ivalType, pref) && pref > 0 && Supports(d, dflt, ivalType, v)
    ensures u in Offered(d, dflt, ivalType, pref) && u > 0 && Distance(u, pref) <= Distance(v, pref)
  {
    hide Listed;
    if v == dflt || ivalType > 0 {
      u := v;
    } else {
      u := Clamp(pref, Range(d).value.0, Range(d).value.1);
      assert Offered(d, dflt, ivalType, pref)[0] == u;
    }
  }

  /** No supported interval is nearer to the preference than the one chosen, which is supported itself. */
  lemma IntervalIsNearest(d: seq<Byte>, dflt: nat, ivalType: nat, pref: nat)
    requires pref > 0 && !IntervalPanics(d, ivalType, pref)
    ensures var r := ChosenInterval(d, dflt, ivalType, pref);
            && (r == 0 <==> forall v :: !Supports(d, dflt, ivalType, v))
            && (r > 0 ==> Supports(d, dflt, ivalType, r)
                          && forall v :: Supports(d, dflt, ivalType, v) ==> Distance(r, pref) <= Distance(v, pref))
  {
    var offered, r := Offered(d, dflt, ivalType, pref), ChosenInterval(d, dflt, ivalType, pref);
    BestOffer(offered, pref);
    assert r > 0 ==> Supports(d, dflt, ivalType, r);
    forall v | Supports(d, dflt, ivalType, v) ensures r > 0 && Distance(r, pref) <= Distance(v, pref) {
      var u := OfferedNearer(d, dflt, ivalType, pref, v);
    }
  }

  lemma BestOffer(offered: seq<nat>, pref: nat)
    ensures match Best(NonZero(offered), Nearness(pref))
            case None => forall u :: u in offered ==> u == 0
            case Some(r) => r > 0 && r in offered && forall u :: u in offered && u > 0 ==> Distance(r, pref) <= Distance(u, pref)
  {
    hide Best, NonZero;
    forall v: nat ensures v in NonZero(offered) <==> v in offered && v > 0 {
      NonZeroHas(offered, v);
    }
    if NonZero(offered) != [] {
      var i := BestIs(NonZero(offered), Nearness(pref));
      var r := NonZero(offered)[i];
      assert r in NonZero(offered);
      forall u | u in offered && u > 0 ensures Distance(r, pref) <= Distance(u, pref) {
        assert u in NonZero(offered);
        assert Nearness(pref)(u) <= Nearness(pref)(r);
      }
    }
  }

  lemma {:induction false} LeastOfList(vs: seq<nat>, dflt: nat)
    ensures var r := LeastListed(vs, dflt);
            r <= dflt && (r == dflt || (r > 0 && r in vs)) && forall v :: v in vs && v > 0 ==> r <= v
  {
    if vs != [] {
      LeastOfList(vs[..|vs| - 1], dflt);
      assert vs == vs[..|vs| - 1] + [vs[|vs| - 1]];
    }
  }

  /**
   The interval of a frame: the supported one nearest to the preference, if any; without a preference
   the beginning of the range, or the least of the list and the default.
   */
  lemma FrameInterval(d: seq<Byte>, st: nat, fmtIx: nat, pref: nat)
    requires ParseFrame(d, st, fmtIx, pref).Pick?
    ensures var ival, dflt, t := ParseFrame(d, st, fmtIx, pref).frame.ival, U32(d, 21).value, d[25];
            && (pref > 0 ==>
                  if exists v :: Supports(d, dflt, t, v) then
                    Supports(d, dflt, t, ival) && forall v :: Supports(d, dflt, t, v) ==> Distance(ival, pref) <= Distance(v, pref)
                  else ival == if t == 0 && |d| >= 38 then U32(d, 26).value else 0)
            && (pref == 0 && t > 0 ==>
                  ival <= dflt && (ival == dflt || ival in Listed(d, t)) && forall v :: v in Listed(d, t) && v > 0 ==> ival <= v)
            && (pref == 0 && t == 0 ==> ival == if |d| >= 38 && U32(d, 26).value > 0 then U32(d, 26).value else dflt)
  {
    hide ChosenInterval, IntervalPanics, Listed, Supports, U32;
    var dflt, t: nat := U32(d, 21).value, d[25];
    LeastOfList(Listed(d, t), dflt);
    if pref > 0 {
      IntervalIsNearest(d, dflt, t, pref);
      if ChosenInterval(d, dflt, t, pref) == 0 {
        NothingSupported(d, dflt, t);
      }
    } else {
      NoPreference(d, dflt, t);
    }
  }

  lemma NoPreference(d: seq<Byte>, dflt: nat, ivalType: nat)
    ensures ChosenInterval(d, dflt, ivalType, 0) == 0
  {
  }

  /** Where nothing is supported the least interval is 0, but for a range without an end. */
  lemma NothingSupported(d: seq<Byte>, dflt: nat, ivalType: nat)
    requires forall v :: !Supports(d, dflt, ivalType, v)
    ensures dflt == 0 && MinInterval(d, dflt, ivalType) == if ivalType == 0 && |d| >= 38 then U32(d, 26).value else 0
  {
    hide Listed;
    LeastOfList(Listed(d, ivalType), dflt);
    assert dflt > 0 ==> Supports(d, dflt, ivalType, dflt);
  }

  /** A frame descriptor of 38 bytes: 640x480, a default of 333333 ticks, and a range from 2 down to 1. */
  function ReversedRange(): (d: Descriptor)
    ensures |d| == 38 && d[1] == CS_INTERFACE && d[2] == VS_FRAME_MJPEG && d[25] == 0
    ensures d[26..30] == [2, 0, 0, 0] && d[30..34] == [1, 0, 0, 0]
  {
    [38, 0x24, 7, 1, 0, 128, 2, 224, 1] + Repeat(12, 0) + [21, 22, 5, 0, 0] + [2, 0, 0, 0] + [1, 0, 0, 0] + [0, 0, 0, 0]
  }

  /** With any preference for an interval, a frame like that in a streaming interface stops the firmware. */
  lemma ReversedRangePanics(prefs: Prefs)
    requires ToTicks(prefs.interval) > 0
    ensures Select([[9, 4, 1, 0, 1, 14, 2, 0, 0], ReversedRange()], prefs, ToTicks(prefs.interval)) == Panicked
  {
    hide ReversedRange;
    var ifc: Descriptor, d := [9, 4, 1, 0, 1, 14, 2, 0, 0], ReversedRange();
    assert [ifc, d][..1] == [ifc] && [ifc][..0] == [];
    assert ContextAfter([ifc]) == Next(ContextAfter([]), ifc);
    assert ContextAfter([ifc]).Streaming();
    LeOfFour(d[26..30]);
    LeOfFour(d[30..34]);
    assert Range(d) == Some((2, 1));
    assert FrameIn(ContextAfter([ifc]), d, ToTicks(prefs.interval)).Panic?;
  }

  lemma LeOfFour(bytes: seq<Byte>)
    requires |bytes| == 4 && bytes[1] == bytes[2] == bytes[3] == 0
    ensures Le(bytes) == bytes[0]
  {
    assert bytes[1..][1..] == bytes[2..] && bytes[2..][1..] == bytes[3..] && bytes[3..][1..] == [];
    assert Le(bytes[3..]) == 0;
    assert Le(bytes[2..]) == 0;
    assert Le(bytes[1..]) == 0;
  }

  // ---- The whole selection ---------------------------------------------------------------------------

  lemma {:induction false} MjpegHas(ps: seq<FramePick>, isMjpeg: bool, p: FramePick)
    ensures p in Mjpeg(ps, isMjpeg) <==> p in ps && p.isMjpeg == isMjpeg
  {
    if ps != [] {
      MjpegHas(ps[..|ps| - 1], isMjpeg, p);
      assert ps == ps[..|ps| - 1] + [ps[|ps| - 1]];
    }
  }

  /**
   A stream is selected iff nothing panics and there are a frame and an endpoint. Its frame is MJPEG iff
   any listed frame is, and first in rank among its kind; its endpoint is the first of the greatest payload.
   */
  lemma SelectMeans(ds: seq<Descriptor>, prefs: Prefs, pref: nat) returns (f: nat, e: nat)
    ensures var r := Select(ds, prefs, pref);
            && (r.Selected? <==> !Panics(ds, pref) && Endpoints(ds) != [] && Frames(ds, pref) != [])
            && (r.Panicked? <==> Panics(ds, pref))
            && (r.Selected? ==>
                  && (r.sel.frame.isMjpeg <==> exists p :: p in Frames(ds, pref) && p.isMjpeg)
                  && IsFirstBest(Mjpeg(Frames(ds, pref), r.sel.frame.isMjpeg), RankBy(prefs), r.sel.frame, f)
                  && IsFirstBest(Endpoints(ds), Payload(), Candidate(r.sel.altSetting, r.sel.epNum, r.sel.mpsRaw, r.sel.vsInterface), e))
  {
    hide Best, Mjpeg, Frames, Endpoints, Panics, FirstAlts;
    var frames := Frames(ds, pref);
    forall p, m ensures p in Mjpeg(frames, m) <==> p in frames && p.isMjpeg == m {
      MjpegHas(frames, m, p);
    }
    f, e := 0, 0;
    if frames != [] {
      assert frames[0] in Mjpeg(frames, frames[0].isMjpeg);
    }
    assert Mjpeg(frames, true) != [] ==> Mjpeg(frames, true)[0] in frames;
    assert Mjpeg(frames, false) != [] ==> Mjpeg(frames, false)[0] in frames;
    if Endpoints(ds) != [] {
      e := BestIs(Endpoints(ds), Payload());
      if Mjpeg(frames, true) != [] {
        f := BestIs(Mjpeg(frames, true), RankBy(prefs));
        assert Mjpeg(frames, true)[f] in Mjpeg(frames, true);
      } else if frames != [] {
        f := BestIs(Mjpeg(frames, false), RankBy(prefs));
        assert Mjpeg(frames, false)[f] in Mjpeg(frames, false);
      }
    }
  }

  // ---- The chain ----------------------------------------------------------------------------------------

  function Concat(ds: seq<Descriptor>): seq<Byte> {
    if ds == [] then [] else ds[0] + Concat(ds[1..])
  }

  /** The walk cuts the configuration into consecutive pieces and stops only where no whole descriptor begins. */
  lemma {:induction false} ChainTiles(cfg: seq<Byte>, i: nat, end: nat) returns (stop: nat)
    requires i <= end <= |cfg|
    ensures i <= stop <= end && Concat(Chain(cfg, i, end)) == cfg[i..stop]
    ensures stop + 2 > end || cfg[stop] < 2 || stop + cfg[stop] > end
    decreases end - i
  {
    hide Concat;
    if i + 2 <= end && cfg[i] >= 2 && i + cfg[i] <= end {
      var next := i + cfg[i];
      stop := ChainTiles(cfg, next, end);
      ConcatCons(cfg[i..next], Chain(cfg, next, end));
      assert cfg[i..next] + cfg[next..stop] == cfg[i..stop];
    } else {
      stop := i;
      ConcatCons([0, 0], []);
    }
  }

  lemma {:induction false} ChainLengths(cfg: seq<Byte>, i: nat, end: nat, k: nat)
    requires end <= |cfg| && k < |Chain(cfg, i, end)|
    ensures |Chain(cfg, i, end)[k]| == Chain(cfg, i, end)[k][0]
    decreases k
  {
    if k > 0 {
      ChainLengths(cfg, i + cfg[i], end, k - 1);
    }
  }

  lemma ConcatCons(d: Descriptor, ds: seq<Descriptor>)
    ensures Concat([d] + ds) == d + Concat(ds) && Concat([]) == []
  {
    assert ([d] + ds)[1..] == ds;
  }
}
