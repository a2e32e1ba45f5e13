/** The descriptor walk as it runs: loops over one configuration buffer, each proved to select what UvcDescriptor says. */
module UvcParser {
  import opened Arith
  import opened UsbErrors
  import opened UvcDescriptor
  import opened Wrappers
  import opened Dwc2

  /** A view of one descriptor within the configuration; reads outside its own length give None. */
  datatype Desc = Desc(buf: seq<Byte>, base: nat, len: nat) {
    ghost predicate Valid() {
      len >= 2 && base + len <= |buf|
    }

    ghost function Bytes(): Descriptor
      requires Valid()
    {
      buf[base..base + len]
    }

    function Ty(): (r: Byte)
      requires Valid()
      ensures r == Bytes()[1]
    {
      buf[base + 1]
    }

    function Byte(off: nat): (r: Option<nat>)
      requires Valid()
      ensures r == U8(Bytes(), off)
    {
      if off < len then Some(buf[base + off]) else None
    }

    function Short(off: nat): (r: Option<nat>)
      requires Valid()
      ensures r == U16(Bytes(), off)
    {
      if off + 2 <= len then
        assert Bytes()[off..off + 2] == buf[base + off..base + off + 2];
        Some(Le(buf[base + off..base + off + 2]))
      else None
    }

    function Word(off: nat): (r: Option<nat>)
      requires Valid()
      ensures r == U32(Bytes(), off)
    {
      if off + 4 <= len then
        assert Bytes()[off..off + 4] == buf[base + off..base + off + 4];
        Some(Le(buf[base + off..base + off + 4]))
      else None
    }
  }

  function NewDesc(buf: seq<Byte>, base: nat, end: nat): (r: Option<Desc>)
    requires end <= |buf|
    ensures r.Some? ==> r.value == Desc(buf, base, r.value.len) && r.value.Valid() && base + r.value.len <= end
    ensures base + 2 <= end ==>
              (r.Some? <==> Chain(buf, base, end) != [])
              && (r.Some? ==> Chain(buf, base, end) == [r.value.Bytes()] + Chain(buf, base + r.value.len, end))
  {
    if base >= |buf| || buf[base] < 2 || base + buf[base] > end then None else Some(Desc(buf, base, buf[base]))
  }

  // ---- Frame intervals -------------------------------------------------------------------------------

  /** The offer v against the best so far; zero is no offer. */
  function Nearer(v: nat, best: Option<nat>, pref: nat): Option<nat> {
    if v == 0 then best
    else
      match best
      case None => Some(v)
      case Some(b) => if Distance(v, pref) < Distance(b, pref) then Some(v) else Some(b)
  }

  lemma NearerExtends(vs: seq<nat>, v: nat, pref: nat)
    ensures Best(NonZero(vs + [v]), Nearness(pref)) == Nearer(v, Best(NonZero(vs), Nearness(pref)), pref)
  {
    assert (vs + [v])[..|vs|] == vs;
    var kept := NonZero(vs);
    assert (kept + [v])[..|kept|] == kept && kept + [] == kept;
  }

  lemma {:induction false} ListedStops(d: seq<Byte>, k: nat, n: nat)
    requires k <= n && U32(d, 26 + 4 * k).None?
    ensures Listed(d, n) == Listed(d, k)
  {
    if k < n {
      ListedStops(d, k, n - 1);
    }
  }

  /** The interval nearest to the preference; None stands for the panic of an empty range. */
  method ChooseFrameInterval(d: Desc, dflt: nat, ivalType: nat, pref: nat) returns (r: Option<nat>)
    requires d.Valid()
    ensures r == if IntervalPanics(d.Bytes(), ivalType, pref) then None else Some(ChosenInterval(d.Bytes(), dflt, ivalType, pref))
  {
    hide Best, NonZero, Nearness, U32, Nearer;
    if pref == 0 {
      return Some(0);
    }
    var best: Option<nat> := None;
    ghost var offered: seq<nat> := [];
    assert Best(NonZero([]), Nearness(pref)) == None by { NothingOffered(pref); }
    if ivalType == 0 {
      if d.len >= 38 {
        var lo, hi := d.Word(26).value, d.Word(30).value;
        if lo > 0 && hi > 0 {
          if lo > hi {
            return None;
          }
          NearerExtends(offered, Clamp(pref, lo, hi), pref);
          best := Nearer(Clamp(pref, lo, hi), best, pref);
          offered := offered + [Clamp(pref, lo, hi)];
        }
      }
    } else {
      var k := 0;
      while k < ivalType
        invariant k <= ivalType && offered == Listed(d.Bytes(), k)
        invariant best == Best(NonZero(offered), Nearness(pref))
      {
        var ival := d.Word(26 + 4 * k);
        if ival.None? {
          ListedStops(d.Bytes(), k, ivalType);
          break;
        }
        NearerExtends(offered, ival.value, pref);
        best := Nearer(ival.value, best, pref);
        offered := offered + [ival.value];
        k := k + 1;
      }
      assert offered == Listed(d.Bytes(), ivalType);
    }
    NearerExtends(offered, dflt, pref);
    best := Nearer(dflt, best, pref);
    assert ivalType == 0 ==> offered == if Range(d.Bytes()).Some? then [Clamp(pref, Range(d.Bytes()).value.0, Range(d.Bytes()).value.1)] else [];
    assert offered + [dflt] == Offered(d.Bytes(), dflt, ivalType, pref);
    r := Some(if best.Some? then best.value else 0);
  }

  lemma NothingOffered(pref: nat)
    ensures Best(NonZero([]), Nearness(pref)) == None
  {
  }

  method MinimumInterval(d: Desc, dflt: nat, ivalType: nat) returns (least: nat)
    requires d.Valid()
    ensures least == MinInterval(d.Bytes(), dflt, ivalType)
  {
    hide U32;
    least := dflt;
    if ivalType == 0 && d.len >= 38 {
      var dwMin := d.Word(26);
      if dwMin.Some? && dwMin.value > 0 {
        least := dwMin.value;
      }
    } else if ivalType > 0 {
      var k := 0;
      while k < ivalType
        invariant k <= ivalType && least == LeastListed(Listed(d.Bytes(), k), dflt)
      {
        var ival := d.Word(26 + 4 * k);
        if ival.None? {
          ListedStops(d.Bytes(), k, ivalType);
          break;
        }
        var vs := Listed(d.Bytes(), k);
        assert (vs + [ival.value])[..|vs|] == vs;
        if ival.value > 0 && ival.value < least {
          least := ival.value;
        }
        k := k + 1;
      }
    }
  }

  method ParseVsFrame(d: Desc, st: nat, fmtIx: nat, pref: nat) returns (r: Parsed)
    requires d.Valid()
    ensures r == ParseFrame(d.Bytes(), st, fmtIx, pref)
  {
    hide ChosenInterval, MinInterval, IntervalPanics, U16;
    if !(st == VS_FRAME_MJPEG || st == VS_FRAME_UNCOMPRESSED) {
      return Skip;
    }
    var frameIx, w, h, dflt, ivalType := d.Byte(3), d.Short(5), d.Short(7), d.Word(21), d.Byte(25);
    if frameIx.None? || w.None? || h.None? || dflt.None? || ivalType.None? {
      return Skip;
    }
    var least := MinimumInterval(d, dflt.value, ivalType.value);
    var chosen := ChooseFrameInterval(d, dflt.value, ivalType.value, pref);
    if chosen.None? {
      return Panic;
    }
    var ival := if chosen.value > 0 then chosen.value else if least > 0 then least else dflt.value;
    r := Pick(FramePick(fmtIx, frameIx.value, w.value, h.value, ival, st == VS_FRAME_MJPEG));
  }

  // ---- Endpoints ---------------------------------------------------------------------------------------

  class IsochCandidates {
    var best: Option<Candidate>
    var alts: seq<(nat, nat)>
    var count: nat

    ghost predicate Holds(cs: seq<Candidate>)
      reads this
    {
      && best == Best(cs, Payload()) && |alts| == MAX_ALTS
      && count == (if |cs| <= MAX_ALTS then |cs| else MAX_ALTS) && alts[..count] == FirstAlts(cs)
    }

    constructor ()
      ensures Holds([])
    {
      best := None;
      alts := Repeat(MAX_ALTS, (0, 0));
      count := 0;
    }

    /** One endpoint descriptor: an isochronous IN endpoint competes, and its alt is noted while there is room. */
    method Consider(d: Desc, curAlt: nat, curIfc: nat, ghost cs: seq<Candidate>)
      requires d.Valid() && Holds(cs)
      modifies this
      ensures Holds(cs + OneOrNone(EndpointOf(d.Bytes(), curAlt, curIfc)))
    {
      hide Best, FirstAlts, U16, WmaxMps;
      assert cs + [] == cs;
      var epAddr, attr, mpsRaw := d.Byte(2), d.Byte(3), d.Short(4);
      if epAddr.None? || attr.None? || mpsRaw.None? {
        return;
      }
      if epAddr.value < 0x80 {
        return;
      }
      if attr.value % 4 == ENDPOINT_ATTR_ISOCH {
        var tak := Candidate(curAlt, epAddr.value % 16, mpsRaw.value, curIfc);
        OneMoreCandidate(cs, tak);
        best := if best.None? || WmaxMps(mpsRaw.value) > WmaxMps(best.value.mpsRaw) then Some(tak) else best;
        if count < MAX_ALTS {
          assert alts[count := (curAlt, mpsRaw.value)][..count + 1] == alts[..count] + [(curAlt, mpsRaw.value)];
          alts := alts[count := (curAlt, mpsRaw.value)];
          count := count + 1;
        }
      }
    }
  }

  lemma OneMoreCandidate(cs: seq<Candidate>, c: Candidate)
    ensures var b := Best(cs, Payload());
            Best(cs + [c], Payload()) == if b.None? || WmaxMps(c.mpsRaw) > WmaxMps(b.value.mpsRaw) then Some(c) else b
    ensures FirstAlts(cs + [c]) == FirstAlts(cs) + if |cs| < MAX_ALTS then [(c.alt, c.mpsRaw)] else []
  {
    hide WmaxMps, FirstAlts;
    assert (cs + [c])[..|cs|] == cs;
    assert Payload()(c) == WmaxMps(c.mpsRaw);
    OneMoreAlt(cs, c);
  }

  lemma OneMoreAlt(cs: seq<Candidate>, c: Candidate)
    ensures FirstAlts(cs + [c]) == FirstAlts(cs) + if |cs| < MAX_ALTS then [(c.alt, c.mpsRaw)] else []
  {
    if |cs| >= MAX_ALTS {
      assert (cs + [c])[..MAX_ALTS] == cs[..MAX_ALTS];
    }
  }

  // ---- The walk -----------------------------------------------------------------------------------------

  /** What the walk remembers of the frames so far. */
  ghost predicate Remembers(mjpeg: Option<FramePick>, uncompressed: Option<FramePick>, frames: seq<FramePick>, prefs: Prefs) {
    mjpeg == Best(Mjpeg(frames, true), RankBy(prefs)) && uncompressed == Best(Mjpeg(frames, false), RankBy(prefs))
  }

  lemma OneMoreFrame(frames: seq<FramePick>, p: FramePick, prefs: Prefs)
    ensures var prev := Best(Mjpeg(frames, p.isMjpeg), RankBy(prefs));
            Best(Mjpeg(frames + [p], p.isMjpeg), RankBy(prefs))
            == if prev.None? || FrameRank(p, prefs) > FrameRank(prev.value, prefs) then Some(p) else prev
    ensures Mjpeg(frames + [p], !p.isMjpeg) == Mjpeg(frames, !p.isMjpeg)
  {
    hide FrameRank;
    assert (frames + [p])[..|frames|] == frames;
    var kept := Mjpeg(frames, p.isMjpeg);
    assert (kept + [p])[..|kept|] == kept;
  }

  lemma OneMore(ds: seq<Descriptor>, d: Descriptor, pref: nat)
    ensures ContextAfter(ds + [d]) == Next(ContextAfter(ds), d)
    ensures Frames(ds + [d], pref) == Frames(ds, pref) + Picked(FrameIn(ContextAfter(ds), d, pref))
    ensures Panics(ds + [d], pref) == (Panics(ds, pref) || FrameIn(ContextAfter(ds), d, pref).Panic?)
    ensures Endpoints(ds + [d]) == Endpoints(ds) + OneOrNone(EndpointIn(ContextAfter(ds), d))
  {
    hide Next, FrameIn, EndpointIn;
    assert (ds + [d])[..|ds|] == ds;
  }

  /** Once one frame has panicked, the descriptors after it make no difference. */
  lemma {:induction false} PanicStays(ds: seq<Descriptor>, rest: seq<Descriptor>, pref: nat)
    requires Panics(ds, pref)
    ensures Panics(ds + rest, pref)
  {
    if rest == [] {
      assert ds + rest == ds;
    } else {
      var init := rest[..|rest| - 1];
      PanicStays(ds, init, pref);
      assert (ds + rest)[..|ds + rest| - 1] == ds + init;
    }
  }

  method ParseUvcVideoStream(cfg: seq<Byte>, cfgTotal: nat, prefs: Prefs) returns (r: Outcome)
    ensures r == ParseVideoStream(cfg, cfgTotal, prefs)
  {
    var len := if cfgTotal <= |cfg| then cfgTotal else |cfg|;
    if len < 12 {
      return Failed(Protocol("cfg too short"));
    }
    var i := cfg[0];
    if i >= len {
      return Failed(Protocol("bad cfg bLength"));
    }
    r := WalkDescriptors(cfg, i, len, prefs, prefs.interval / 100 % WORD32);
  }

  method WalkDescriptors(cfg: seq<Byte>, from: nat, len: nat, prefs: Prefs, prefTicks: nat) returns (r: Outcome)
    requires from <= len <= |cfg|
    ensures r == Select(Chain(cfg, from, len), prefs, prefTicks)
  {
    hide Chain, Next, FrameIn, EndpointIn, ContextAfter, Frames, Panics, Endpoints, Best, Mjpeg, FirstAlts, FrameRank;
    var i := from;
    var c := Context(0, 0, 0, 0, 0);
    var isoch := new IsochCandidates();
    var mjpeg: Option<FramePick>, uncompressed: Option<FramePick> := None, None;
    ghost var ds: seq<Descriptor> := [];
    NothingYet(prefTicks, prefs);
    while i + 2 <= len
      invariant i <= len && Chain(cfg, from, len) == ds + Chain(cfg, i, len)
      invariant c == ContextAfter(ds) && !Panics(ds, prefTicks)
      invariant isoch.Holds(Endpoints(ds)) && Remembers(mjpeg, uncompressed, Frames(ds, prefTicks), prefs)
      decreases len - i
    {
      var view := NewDesc(cfg, i, len);
      if view.None? {
        break;
      }
      var d := view.value;
      OneMore(ds, d.Bytes(), prefTicks);
      var parsed := OneDescriptor(d, c, prefTicks, isoch, Endpoints(ds));
      if parsed.1.Panic? {
        PanicStays(ds + [d.Bytes()], Chain(cfg, i + d.len, len), prefTicks);
        assert ds + [d.Bytes()] + Chain(cfg, i + d.len, len) == ds + Chain(cfg, i, len);
        return Panicked;
      }
      c := parsed.0;
      assert parsed.1.Skip? ==> Frames(ds, prefTicks) + Picked(parsed.1) == Frames(ds, prefTicks);
      if parsed.1.Pick? {
        var pick := parsed.1.frame;
        OneMoreFrame(Frames(ds, prefTicks), pick, prefs);
        var prev := if pick.isMjpeg then mjpeg else uncompressed;
        var beats := prev.None? || FrameRank(pick, prefs) > FrameRank(prev.value, prefs);
        if beats {
          if pick.isMjpeg {
            mjpeg := Some(pick);
          } else {
            uncompressed := Some(pick);
          }
        }
      }
      ds := ds + [d.Bytes()];
      i := i + d.len;
    }
    assert Chain(cfg, i, len) == [] by { ChainEnds(cfg, i, len); }
    assert Chain(cfg, from, len) == ds;
    if isoch.best.None? {
      return Failed(NotImplemented);
    }
    var pick := if mjpeg.Some? then mjpeg else uncompressed;
    if pick.None? {
      return Failed(Protocol("no VS format/frame"));
    }
    var e := isoch.best.value;
    r := Selected(Selection(e.ifc, e.alt, e.ep, e.mpsRaw, pick.value, isoch.alts[..isoch.count]));
  }

  lemma NothingYet(pref: nat, prefs: Prefs)
    ensures ContextAfter([]) == Context(0, 0, 0, 0, 0) && Frames([], pref) == [] && !Panics([], pref) && Endpoints([]) == []
    ensures Remembers(None, None, [], prefs)
  {
  }

  lemma ChainEnds(cfg: seq<Byte>, i: nat, end: nat)
    requires end <= |cfg| && (end < i + 2 || NewDesc(cfg, i, end).None?)
    ensures Chain(cfg, i, end) == []
  {
  }

  /** One descriptor in its context: an interface, a format or frame, or an endpoint. */
  method OneDescriptor(d: Desc, c: Context, pref: nat, isoch: IsochCandidates, ghost cs: seq<Candidate>) returns (r: (Context, Parsed))
    requires d.Valid() && isoch.Holds(cs)
    modifies isoch
    ensures r == (Next(c, d.Bytes()), FrameIn(c, d.Bytes(), pref))
    ensures isoch.Holds(cs + OneOrNone(EndpointIn(c, d.Bytes())))
  {
    hide EndpointOf, ParseFrame;
    assert cs + [] == cs;
    var ty := d.Ty();
    var next := c;
    var parsed := Skip;
    if ty == USB_DT_INTERFACE && d.len >= 9 {
      next := c.(num := d.Byte(2).value, alt := d.Byte(3).value, cls := d.Byte(5).value, sub := d.Byte(6).value);
    } else if ty == CS_INTERFACE && c.Streaming() {
      var st := if d.Byte(2).Some? then d.Byte(2).value else 0;
      if st == VS_FORMAT_MJPEG || st == VS_FORMAT_UNCOMPRESSED {
        if d.Byte(3).Some? {
          next := c.(fmtIx := d.Byte(3).value);
        }
      }
      parsed := ParseVsFrame(d, st, next.fmtIx, pref);
      if d.len < 3 {
        NoSubtype(d.Bytes(), next.fmtIx, pref);
      }
    } else if ty == USB_DT_ENDPOINT && c.Streaming() {
      isoch.Consider(d, c.alt, c.num, cs);
    }
    r := (next, parsed);
  }

  lemma NoSubtype(d: Descriptor, fmtIx: nat, pref: nat)
    ensures ParseFrame(d, 0, fmtIx, pref) == Skip
  {
  }
}
