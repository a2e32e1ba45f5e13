/**
 What a UVC configuration descriptor offers, as functions of its chain of descriptors: the frames
 and isochronous endpoints it lists, and the stream that follows from the caller's preferences.
 */
module UvcDescriptor {
  import opened Arith
  import opened UsbErrors
  import opened Wrappers
  import opened Dwc2

  const USB_DT_INTERFACE: nat := 4
  const USB_DT_ENDPOINT: nat := 5
  const USB_CLASS_VIDEO: nat := 0x0E
  const CS_INTERFACE: nat := 0x24
  const VS_FORMAT_UNCOMPRESSED: nat := 0x04
  const VS_FRAME_UNCOMPRESSED: nat := 0x05
  const VS_FORMAT_MJPEG: nat := 0x06
  const VS_FRAME_MJPEG: nat := 0x07
  const USB_SUBCLASS_VIDEO_STREAMING: nat := 0x02
  const ENDPOINT_ATTR_ISOCH: nat := 1
  const MAX_ALTS: nat := 8
  const EXACT_RANK: int := 2_000_000
  const MAX_I32: nat := 0x7FFF_FFFF

  // ---- The first best of a list ----------------------------------------------------------------

  /** The first element with the greatest key. */
  function Best<T>(xs: seq<T>, key: T -> int): (r: Option<T>)
    ensures r.None? <==> xs == []
  {
    if xs == [] then None
    else
      var last := xs[|xs| - 1];
      match Best(xs[..|xs| - 1], key)
      case None => Some(last)
      case Some(b) => if key(last) > key(b) then Some(last) else Some(b)
  }

  lemma BestSnoc<T>(xs: seq<T>, x: T, key: T -> int)
    ensures var b := Best(xs, key);
            Best(xs + [x], key) == if b.None? || key(x) > key(b.value) then Some(x) else b
  {
    assert (xs + [x])[..|xs|] == xs;
  }

  ghost predicate IsFirstBest<T(!new)>(xs: seq<T>, key: T -> int, b: T, i: nat) {
    && i < |xs| && xs[i] == b
    && (forall j :: 0 <= j < |xs| ==> key(xs[j]) <= key(b))
    && (forall j :: 0 <= j < i ==> key(xs[j]) < key(b))
  }

  /** Best finds the first element that no other beats. */
  lemma {:induction false} BestIs<T(!new)>(xs: seq<T>, key: T -> int) returns (i: nat)
    requires xs != []
    ensures IsFirstBest(xs, key, Best(xs, key).value, i)
  {
    var init, last := xs[..|xs| - 1], xs[|xs| - 1];
    if init == [] {
      i := 0;
    } else {
      i := BestIs(init, key);
      assert forall j :: 0 <= j < |init| ==> xs[j] == init[j];
      if key(last) > key(Best(init, key).value) {
        i := |init|;
      }
    }
  }

  // ---- Fields --------------------------------------------------------------------------------------

  /** Bytes as a number, the least significant first. */
  function Le(bytes: seq<Byte>): nat {
    if bytes == [] then 0 else bytes[0] as nat + 0x100 * Le(bytes[1..])
  }

  lemma {:induction false} LeBound(bytes: seq<Byte>)
    requires |bytes| == 4
    ensures Le(bytes) < WORD32
  {
    assert bytes[3..][1..] == bytes[4..] && bytes[2..][1..] == bytes[3..] && bytes[1..][1..] == bytes[2..];
    assert Le(bytes[3..]) < 0x100;
    assert Le(bytes[2..]) < 0x1_0000;
    assert Le(bytes[1..]) < 0x100_0000;
  }

  function U8(d: seq<Byte>, off: nat): Option<nat> {
    if off < |d| then Some(d[off]) else None
  }

  function U16(d: seq<Byte>, off: nat): Option<nat> {
    if off + 2 <= |d| then Some(Le(d[off..off + 2])) else None
  }

  function U32(d: seq<Byte>, off: nat): (r: Option<nat>)
    ensures r.Some? <==> off + 4 <= |d|
    ensures r.Some? ==> r.value < WORD32
  {
    if off + 4 <= |d| then LeBound(d[off..off + 4]); Some(Le(d[off..off + 4])) else None
  }

  // ---- Frame intervals, in ticks of 100 ns ---------------------------------------------------------

  function Clamp(v: nat, lo: nat, hi: nat): nat {
    if v < lo then lo else if v > hi then hi else v
  }

  function Distance(v: nat, pref: nat): nat {
    if v >= pref then v - pref else pref - v
  }

  /** The n intervals listed from offset 26 on that the descriptor has room for. */
  function Listed(d: seq<Byte>, n: nat): (r: seq<nat>)
    ensures |r| <= n
  {
    if n == 0 then []
    else
      var init := Listed(d, n - 1);
      match U32(d, 26 + 4 * (n - 1))
      case Some(v) => init + [v]
      case None => init
  }

  /** A continuous range that both ends bound, from a descriptor long enough to hold one. */
  function Range(d: seq<Byte>): Option<(nat, nat)> {
    if |d| >= 38 && U32(d, 26).value > 0 && U32(d, 30).value > 0 then Some((U32(d, 26).value, U32(d, 30).value)) else None
  }

  /** Clamping to a range that ends before it begins panics. */
  predicate IntervalPanics(d: seq<Byte>, ivalType: nat, pref: nat) {
    pref > 0 && ivalType == 0 && Range(d).Some? && Range(d).value.0 > Range(d).value.1
  }

  function Offered(d: seq<Byte>, dflt: nat, ivalType: nat, pref: nat): seq<nat> {
    (if ivalType > 0 then Listed(d, ivalType)
     else if Range(d).Some? then [Clamp(pref, Range(d).value.0, Range(d).value.1)] else []) + [dflt]
  }

  function NonZero(vs: seq<nat>): seq<nat> {
    if vs == [] then []
    else NonZero(vs[..|vs| - 1]) + if vs[|vs| - 1] == 0 then [] else [vs[|vs| - 1]]
  }

  function Nearness(pref: nat): nat -> int {
    (v: nat) => -(Distance(v, pref) as int)
  }

  /** The nearest offer, 0 without a preference or an offer. */
  function ChosenInterval(d: seq<Byte>, dflt: nat, ivalType: nat, pref: nat): nat {
    if pref == 0 then 0
    else
      var best := Best(NonZero(Offered(d, dflt, ivalType, pref)), Nearness(pref));
      if best.Some? then best.value else 0
  }

  /** The least positive interval listed, or the default when that is not larger. */
  function LeastListed(vs: seq<nat>, dflt: nat): nat {
    if vs == [] then dflt
    else
      var least := LeastListed(vs[..|vs| - 1], dflt);
      if 0 < vs[|vs| - 1] < least then vs[|vs| - 1] else least
  }

  function MinInterval(d: seq<Byte>, dflt: nat, ivalType: nat): nat {
    if ivalType > 0 then LeastListed(Listed(d, ivalType), dflt)
    else if |d| >= 38 && U32(d, 26).value > 0 then U32(d, 26).value
    else dflt
  }

  /** What the descriptor supports: its default, and its list or range. */
  ghost predicate Supports(d: seq<Byte>, dflt: nat, ivalType: nat, v: nat) {
    v > 0 &&
    (|| v == dflt
     || (ivalType > 0 && v in Listed(d, ivalType))
     || (ivalType == 0 && Range(d).Some? && Range(d).value.0 <= v <= Range(d).value.1))
  }

  // ---- Frames ------------------------------------------------------------------------------------------

  datatype FramePick = FramePick(fmtIx: nat, frameIx: nat, w: nat, h: nat, ival: nat, isMjpeg: bool)

  datatype Parsed = Skip | Pick(frame: FramePick) | Panic

  datatype Prefs = Prefs(w: nat, h: nat, interval: nat)

  /** One VS_FRAME descriptor; other subtypes, and descriptors too short, are skipped. */
  function ParseFrame(d: seq<Byte>, st: nat, fmtIx: nat, pref: nat): Parsed {
    if !(st == VS_FRAME_MJPEG || st == VS_FRAME_UNCOMPRESSED) || |d| < 26 then Skip
    else
      var dflt, ivalType := U32(d, 21).value, d[25];
      if IntervalPanics(d, ivalType, pref) then Panic
      else
        var chosen, least := ChosenInterval(d, dflt, ivalType, pref), MinInterval(d, dflt, ivalType);
        var ival := if chosen > 0 then chosen else if least > 0 then least else dflt;
        Pick(FramePick(fmtIx, d[3], U16(d, 5).value, U16(d, 7).value, ival, st == VS_FRAME_MJPEG))
  }

  /** The 32-bit two's-complement value of x. */
  function Wrap32(x: int): (r: int)
    ensures -(MAX_I32 as int) - 1 <= r <= MAX_I32
    ensures -(MAX_I32 as int) - 1 <= x <= MAX_I32 ==> r == x
  {
    (x + MAX_I32 + 1) % WORD32 - MAX_I32 - 1
  }

  function SaturatingArea(w: nat, h: nat): nat {
    if w * h <= MAX_I32 then w * h else MAX_I32
  }

  function FrameRank(p: FramePick, prefs: Prefs): int {
    var area := Wrap32(p.w * p.h);
    if p.w == prefs.w && p.h == prefs.h then EXACT_RANK
    else
      var prefArea := SaturatingArea(prefs.w, prefs.h);
      if area <= prefArea then Wrap32(prefArea - area) else Wrap32(-Wrap32(area - prefArea))
  }

  function RankBy(prefs: Prefs): FramePick -> int {
    (p: FramePick) => FrameRank(p, prefs)
  }

  function Mjpeg(ps: seq<FramePick>, isMjpeg: bool): seq<FramePick> {
    if ps == [] then []
    else Mjpeg(ps[..|ps| - 1], isMjpeg) + if ps[|ps| - 1].isMjpeg == isMjpeg then [ps[|ps| - 1]] else []
  }

  // ---- Endpoints ---------------------------------------------------------------------------------------

  datatype Candidate = Candidate(alt: nat, ep: nat, mpsRaw: nat, ifc: nat)

  function Payload(): Candidate -> int {
    (c: Candidate) => WmaxMps(c.mpsRaw)
  }

  /** An isochronous IN endpoint, if the descriptor is one and is long enough. */
  function EndpointOf(d: seq<Byte>, alt: nat, ifc: nat): Option<Candidate> {
    if |d| >= 6 && d[2] >= 0x80 && d[3] % 4 == ENDPOINT_ATTR_ISOCH then Some(Candidate(alt, d[2] % 16, U16(d, 4).value, ifc)) else None
  }

  function Alts(cs: seq<Candidate>): (r: seq<(nat, nat)>)
    ensures |r| == |cs| && forall k :: 0 <= k < |r| ==> r[k] == (cs[k].alt, cs[k].mpsRaw)
  {
    seq(|cs|, k requires 0 <= k < |cs| => (cs[k].alt, cs[k].mpsRaw))
  }

  // ---- The chain ---------------------------------------------------------------------------------------

  /** A descriptor holds at least its length and its type. */
  type Descriptor = d: seq<Byte> | |d| >= 2 witness [2, 0]

  /** The descriptors from i on, up to one that is too short to be one or passes `end`. */
  function Chain(cfg: seq<Byte>, i: nat, end: nat): seq<Descriptor>
    requires end <= |cfg|
    decreases end - i
  {
    if i + 2 <= end && cfg[i] >= 2 && i + cfg[i] <= end then [cfg[i..i + cfg[i]]] + Chain(cfg, i + cfg[i], end)
    else []
  }

  /** The interface, and the format within it, that a descriptor stands under. */
  datatype Context = Context(cls: nat, sub: nat, num: nat, alt: nat, fmtIx: nat) {
    predicate Streaming() {
      cls == USB_CLASS_VIDEO && sub == USB_SUBCLASS_VIDEO_STREAMING
    }
  }

  function Next(c: Context, d: seq<Byte>): Context
    requires |d| >= 2
  {
    if d[1] == USB_DT_INTERFACE && |d| >= 9 then c.(num := d[2], alt := d[3], cls := d[5], sub := d[6])
    else if d[1] == CS_INTERFACE && c.Streaming() && |d| >= 4 && (d[2] == VS_FORMAT_MJPEG || d[2] == VS_FORMAT_UNCOMPRESSED)
    then c.(fmtIx := d[3])
    else c
  }

  function ContextAfter(ds: seq<Descriptor>): Context {
    if ds == [] then Context(0, 0, 0, 0, 0) else Next(ContextAfter(ds[..|ds| - 1]), ds[|ds| - 1])
  }

  function FrameIn(c: Context, d: Descriptor, pref: nat): Parsed {
    if d[1] == CS_INTERFACE && c.Streaming() && |d| >= 3 then ParseFrame(d, d[2], Next(c, d).fmtIx, pref) else Skip
  }

  function EndpointIn(c: Context, d: Descriptor): Option<Candidate> {
    if d[1] == USB_DT_ENDPOINT && c.Streaming() then EndpointOf(d, c.alt, c.num) else None
  }

  function Picked(p: Parsed): seq<FramePick> {
    if p.Pick? then [p.frame] else []
  }

  /** The frames listed, in order, and whether parsing one of them panics. */
  function Frames(ds: seq<Descriptor>, pref: nat): seq<FramePick> {
    if ds == [] then []
    else Frames(ds[..|ds| - 1], pref) + Picked(FrameIn(ContextAfter(ds[..|ds| - 1]), ds[|ds| - 1], pref))
  }

  predicate Panics(ds: seq<Descriptor>, pref: nat) {
    ds != [] && (Panics(ds[..|ds| - 1], pref) || FrameIn(ContextAfter(ds[..|ds| - 1]), ds[|ds| - 1], pref).Panic?)
  }

  function OneOrNone<T>(o: Option<T>): seq<T> {
    if o.Some? then [o.value] else []
  }

  function Endpoints(ds: seq<Descriptor>): seq<Candidate> {
    if ds == [] then []
    else Endpoints(ds[..|ds| - 1]) + OneOrNone(EndpointIn(ContextAfter(ds[..|ds| - 1]), ds[|ds| - 1]))
  }

  // ---- The selection -------------------------------------------------------------------------------------

  datatype Selection = Selection(
    vsInterface: nat, altSetting: nat, epNum: nat, mpsRaw: nat, frame: FramePick, alts: seq<(nat, nat)>)

  datatype Outcome = Selected(sel: Selection) | Failed(error: UsbError) | Panicked

  /** The first eight, with what is kept of each. */
  function FirstAlts(cs: seq<Candidate>): (r: seq<(nat, nat)>)
    ensures |r| == (if |cs| <= 8 then |cs| else 8) && forall k :: 0 <= k < |r| ==> r[k] == (cs[k].alt, cs[k].mpsRaw)
  {
    Alts(if |cs| <= MAX_ALTS then cs else cs[..MAX_ALTS])
  }

  /** MJPEG before uncompressed, the best rank within; the endpoint of the greatest payload. */
  function Select(ds: seq<Descriptor>, prefs: Prefs, pref: nat): Outcome {
    var endpoint := Best(Endpoints(ds), Payload());
    var mjpeg := Best(Mjpeg(Frames(ds, pref), true), RankBy(prefs));
    var uncompressed := Best(Mjpeg(Frames(ds, pref), false), RankBy(prefs));
    if Panics(ds, pref) then Panicked
    else if endpoint.None? then Failed(NotImplemented)
    else if mjpeg.None? && uncompressed.None? then Failed(Protocol("no VS format/frame"))
    else
      var e := endpoint.value;
      Selected(Selection(e.ifc, e.alt, e.ep, e.mpsRaw, if mjpeg.Some? then mjpeg.value else uncompressed.value, FirstAlts(Endpoints(ds))))
  }

  /** Durations are nanoseconds; the tick count keeps its low 32 bits. */
  function ToTicks(duration: nat): nat {
    duration / 100 % WORD32
  }

  function ParseVideoStream(cfg: seq<Byte>, total: nat, prefs: Prefs): Outcome {
    var len := if total <= |cfg| then total else |cfg|;
    if len < 12 then Failed(Protocol("cfg too short"))
    else if cfg[0] >= len then Failed(Protocol("bad cfg bLength"))
    else Select(Chain(cfg, cfg[0], len), prefs, ToTicks(prefs.interval))
  }
}
