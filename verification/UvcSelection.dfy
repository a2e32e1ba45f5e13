/**
 The selection in the bytes of the descriptors: which of them list frames and endpoints, what they say, and what
 is selected from them.
 */
module UvcSelection {
  import opened Arith
  import opened Dwc2
  import opened UvcDescriptor
  import opened UvcMeaning
  import opened UsbErrors
  import opened Wrappers

  // ---- Descriptors in their places -------------------------------------------------------------------

  predicate IsInterface(d: Descriptor) {
    d[1] == 4 && |d| >= 9
  }

  /** Descriptor i is the last interface descriptor before k. */
  ghost predicate Under(ds: seq<Descriptor>, k: nat, i: nat) {
    i < k <= |ds| && IsInterface(ds[i]) && forall j :: i < j < k ==> !IsInterface(ds[j])
  }

  /** Descriptor k stands under a video-streaming interface: class 14, subclass 2. */
  ghost predicate InStreaming(ds: seq<Descriptor>, k: nat) {
    exists i: nat :: Under(ds, k, i) && ds[i][5] == 14 && ds[i][6] == 2
  }

  ghost predicate IsFormat(ds: seq<Descriptor>, j: nat) {
    j < |ds| && ds[j][1] == 0x24 && |ds[j]| >= 4 && (ds[j][2] == 4 || ds[j][2] == 6) && InStreaming(ds, j)
  }

  /** Descriptor j is the last format descriptor before k. */
  ghost predicate FormatBefore(ds: seq<Descriptor>, k: nat, j: nat) {
    j < k <= |ds| && IsFormat(ds, j) && forall m :: j < m < k ==> !IsFormat(ds, m)
  }

  /** Byte 3 of the last format descriptor, 0 if there is none. */
  ghost predicate FormatIndex(ds: seq<Descriptor>, k: nat, ix: nat) {
    if exists j: nat :: j < k && IsFormat(ds, j) then exists j: nat :: FormatBefore(ds, k, j) && ix == ds[j][3] else ix == 0
  }

  ghost predicate IsFrame(ds: seq<Descriptor>, k: nat) {
    k < |ds| && ds[k][1] == 0x24 && |ds[k]| >= 26 && (ds[k][2] == 5 || ds[k][2] == 7) && InStreaming(ds, k)
  }

  ghost predicate IsMjpegFrame(ds: seq<Descriptor>, k: nat) {
    IsFrame(ds, k) && ds[k][2] == 7
  }

  /** What frame descriptor k says: 7 is MJPEG, then the frame's index, width and height. */
  ghost predicate FrameFrom(ds: seq<Descriptor>, k: nat, p: FramePick) {
    && IsFrame(ds, k) && (p.isMjpeg <==> ds[k][2] == 7) && p.frameIx == ds[k][3] && FormatIndex(ds, k, p.fmtIx)
    && (var a, b, c, d := ds[k][5] as nat, ds[k][6] as nat, ds[k][7] as nat, ds[k][8] as nat;
        p.w == a + 256 * b && p.h == c + 256 * d)
  }

  /** An isochronous IN endpoint of a streaming interface. */
  ghost predicate IsEndpoint(ds: seq<Descriptor>, k: nat) {
    k < |ds| && ds[k][1] == 5 && |ds[k]| >= 6 && ds[k][2] >= 0x80 && ds[k][3] % 4 == 1 && InStreaming(ds, k)
  }

  /** What endpoint descriptor k says, and the interface it stands under. */
  ghost predicate EndpointFrom(ds: seq<Descriptor>, k: nat, c: Candidate) {
    && IsEndpoint(ds, k) && c.ep == ds[k][2] % 16
    && (var low, high := ds[k][4] as nat, ds[k][5] as nat; c.mpsRaw == low + 256 * high)
    && exists i: nat :: Under(ds, k, i) && c.ifc == ds[i][2] && c.alt == ds[i][3]
  }

  // ---- The context ---------------------------------------------------------------------------------------

  ghost predicate ContextIs(ds: seq<Descriptor>, k: nat, c: Context) {
    && (c.Streaming() <==> InStreaming(ds, k))
    && (forall i: nat :: Under(ds, k, i) ==> c.num == ds[i][2] && c.alt == ds[i][3] && c.cls == ds[i][5] && c.sub == ds[i][6])
    && FormatIndex(ds, k, c.fmtIx)
  }

  lemma UnderOne(ds: seq<Descriptor>, k: nat, i: nat, j: nat)
    requires Under(ds, k, i) && Under(ds, k, j)
    ensures i == j
  {
  }

  lemma UnderStep(ds: seq<Descriptor>, k: nat, i: nat)
    requires k < |ds|
    ensures Under(ds, k + 1, i) <==> if IsInterface(ds[k]) then i == k else Under(ds, k, i)
  {
    if Under(ds, k + 1, i) && !IsInterface(ds[k]) {
      assert i != k;
    }
  }

  lemma StreamingStep(ds: seq<Descriptor>, k: nat)
    requires k < |ds|
    ensures InStreaming(ds, k + 1) <==> if IsInterface(ds[k]) then ds[k][5] == 14 && ds[k][6] == 2 else InStreaming(ds, k)
  {
    forall i: nat ensures Under(ds, k + 1, i) <==> if IsInterface(ds[k]) then i == k else Under(ds, k, i) {
      UnderStep(ds, k, i);
    }
    UnderStep(ds, k, k);
    if InStreaming(ds, k) && !IsInterface(ds[k]) {
      var i: nat :| Under(ds, k, i) && ds[i][5] == 14 && ds[i][6] == 2;
      assert Under(ds, k + 1, i);
    }
  }

  lemma FormatStep(ds: seq<Descriptor>, k: nat, ix: nat)
    requires k < |ds|
    ensures FormatIndex(ds, k + 1, ix) <==> if IsFormat(ds, k) then ix == ds[k][3] else FormatIndex(ds, k, ix)
  {
    hide IsFormat;
    if IsFormat(ds, k) {
      assert FormatBefore(ds, k + 1, k);
    } else {
      assert forall j: nat :: FormatBefore(ds, k + 1, j) <==> FormatBefore(ds, k, j);
    }
  }

  lemma {:induction false} ContextAt(ds: seq<Descriptor>, k: nat)
    requires k <= |ds|
    ensures ContextIs(ds, k, ContextAfter(ds[..k]))
  {
    hide ContextIs;
    if k == 0 {
      assert ds[..0] == [];
      NoContext(ds);
    } else {
      ContextAt(ds, k - 1);
      assert ds[..k][..k - 1] == ds[..k - 1];
      ContextStep(ds, k - 1, ContextAfter(ds[..k - 1]));
    }
  }

  lemma NoContext(ds: seq<Descriptor>)
    ensures ContextIs(ds, 0, ContextAfter([]))
  {
  }

  lemma ContextStep(ds: seq<Descriptor>, k: nat, c: Context)
    requires k < |ds| && ContextIs(ds, k, c)
    ensures ContextIs(ds, k + 1, Next(c, ds[k]))
  {
    hide InStreaming, FormatIndex;
    var c' := Next(c, ds[k]);
    StreamingStep(ds, k);
    FormatStep(ds, k, c'.fmtIx);
    forall i: nat | Under(ds, k + 1, i)
      ensures c'.num == ds[i][2] && c'.alt == ds[i][3] && c'.cls == ds[i][5] && c'.sub == ds[i][6]
    {
      UnderStep(ds, k, i);
    }
  }

  // ---- Intervals ----------------------------------------------------------------------------------------

  /** Four bytes, the least significant first. */
  function Long(d: Descriptor, off: nat): nat
    requires off + 4 <= |d|
  {
    var a, b, c, e := d[off] as nat, d[off + 1] as nat, d[off + 2] as nat, d[off + 3] as nat;
    a + 0x100 * b + 0x1_0000 * c + 0x100_0000 * e
  }

  /** One of the intervals listed from byte 26 on, as many as byte 25 says and the descriptor has room for. */
  ghost predicate ListedAt(d: Descriptor, n: nat, k: nat, v: nat) {
    k < n && 30 + 4 * k <= |d| && v == Long(d, 26 + 4 * k)
  }

  /** The intervals of a frame descriptor: its default, and a list or a range with both ends. */
  ghost predicate SupportedBy(d: Descriptor, v: nat)
    requires |d| >= 26
  {
    && v > 0
    && (|| v == Long(d, 21)
        || (d[25] > 0 && exists k: nat :: ListedAt(d, d[25], k, v))
        || (d[25] == 0 && |d| >= 38 && Long(d, 26) > 0 && Long(d, 26) <= v <= Long(d, 30)))
  }

  lemma LeOfLong(d: Descriptor, off: nat)
    requires off + 4 <= |d|
    ensures U32(d, off) == Some(Long(d, off))
  {
    var s := d[off..off + 4];
    assert s[1..][1..] == s[2..] && s[2..][1..] == s[3..] && s[3..][1..] == [];
    assert Le(s[3..]) == s[3];
    assert Le(s[2..]) == s[2] as nat + 0x100 * Le(s[3..]);
    assert Le(s[1..]) == s[1] as nat + 0x100 * Le(s[2..]);
  }

  lemma ListedStep(d: Descriptor, n: nat)
    requires n > 0
    ensures Listed(d, n) == Listed(d, n - 1) + if 30 + 4 * (n - 1) <= |d| then [Long(d, 26 + 4 * (n - 1))] else []
  {
    hide Long;
    if 30 + 4 * (n - 1) <= |d| {
      LeOfLong(d, 26 + 4 * (n - 1));
    }
  }

  lemma {:induction false} ListedBytes(d: Descriptor, n: nat, v: nat)
    ensures v in Listed(d, n) <==> exists k: nat :: ListedAt(d, n, k, v)
  {
    hide Long, U32;
    if n > 0 {
      ListedBytes(d, n - 1, v);
      ListedStep(d, n);
      var fewer := n - 1;
      if k: nat :| ListedAt(d, fewer, k, v) {
        assert ListedAt(d, n, k, v);
      }
      if k: nat :| ListedAt(d, n, k, v) {
        assert k == n - 1 || ListedAt(d, n - 1, k, v);
      }
      assert 30 + 4 * (n - 1) <= |d| ==> ListedAt(d, n, n - 1, Long(d, 26 + 4 * (n - 1)));
    }
  }

  lemma SupportsBytes(d: Descriptor, v: nat)
    requires |d| >= 26
    ensures Supports(d, U32(d, 21).value, d[25], v) <==> SupportedBy(d, v)
  {
    hide Long, U32, Listed, ListedAt;
    LeOfLong(d, 21);
    ListedBytes(d, d[25], v);
    if |d| >= 38 {
      LeOfLong(d, 26);
      LeOfLong(d, 30);
    }
  }

  function Apart(a: nat, b: nat): nat {
    if a >= b then a - b else b - a
  }

  /** With a preference, the interval is a supported one and none is nearer, if there are any. */
  ghost predicate IntervalRight(d: Descriptor, pref: nat, ival: nat)
    requires |d| >= 26
  {
    pref > 0 && (exists v: nat :: SupportedBy(d, v)) ==>
      SupportedBy(d, ival) && forall v: nat :: SupportedBy(d, v) ==> Apart(ival, pref) <= Apart(v, pref)
  }

  lemma PickedInterval(d: Descriptor, st: nat, fmtIx: nat, pref: nat)
    requires ParseFrame(d, st, fmtIx, pref).Pick?
    ensures |d| >= 26 && IntervalRight(d, pref, ParseFrame(d, st, fmtIx, pref).frame.ival)
  {
    assert |d| >= 26;
    FrameInterval(d, st, fmtIx, pref);
    hide ParseFrame, SupportedBy, Supports, U32;
    forall v: nat ensures Supports(d, U32(d, 21).value, d[25], v) <==> SupportedBy(d, v) {
      SupportsBytes(d, v);
    }
  }

  // ---- Frames and endpoints --------------------------------------------------------------------------

  lemma LeOfTwo(bytes: seq<Byte>)
    requires |bytes| == 2
    ensures var low, high := bytes[0] as nat, bytes[1] as nat; Le(bytes) == low + 256 * high
  {
    assert bytes[1..][1..] == [];
    assert Le(bytes[1..]) == bytes[1];
  }

  /** Descriptor k lists the frame p, with an interval after the preference. */
  ghost predicate Lists(ds: seq<Descriptor>, k: nat, pref: nat, p: FramePick) {
    FrameFrom(ds, k, p) && IntervalRight(ds[k], pref, p.ival)
  }

  /** Descriptor k is taken for a frame iff it is one, and then for what it says. */
  lemma FrameAt(ds: seq<Descriptor>, k: nat, pref: nat)
    requires k < |ds|
    ensures var r := FrameIn(ContextAfter(ds[..k]), ds[k], pref);
            && (r.Skip? <==> !IsFrame(ds, k))
            && (r.Pick? ==> Lists(ds, k, pref, r.frame))
            && (r.Panic? <==> IsFrame(ds, k) && IntervalPanics(ds[k], ds[k][25], pref))
  {
    hide ContextAfter, InStreaming, FormatIndex, Le, ChosenInterval, MinInterval, IntervalPanics, IntervalRight;
    ContextAt(ds, k);
    if IsFrame(ds, k) {
      LeOfTwo(ds[k][5..7]);
      LeOfTwo(ds[k][7..9]);
      var c := ContextAfter(ds[..k]);
      if FrameIn(c, ds[k], pref).Pick? {
        PickedInterval(ds[k], ds[k][2], Next(c, ds[k]).fmtIx, pref);
      }
    }
  }

  lemma EndpointAt(ds: seq<Descriptor>, k: nat)
    requires k < |ds|
    ensures var r := EndpointIn(ContextAfter(ds[..k]), ds[k]);
            (r.Some? <==> IsEndpoint(ds, k)) && (r.Some? ==> EndpointFrom(ds, k, r.value))
  {
    hide ContextAfter, FormatIndex, Le;
    ContextAt(ds, k);
    if IsEndpoint(ds, k) {
      LeOfTwo(ds[k][4..6]);
    }
  }

  /** Every frame listed comes from a frame descriptor, and every frame descriptor lists one. */
  lemma {:induction false} FramesListed(ds: seq<Descriptor>, pref: nat, n: nat)
    requires n <= |ds|
    ensures forall p :: p in Frames(ds[..n], pref) ==> exists k: nat :: k < n && Lists(ds, k, pref, p)
    ensures !Panics(ds[..n], pref) ==> forall k: nat :: k < n && IsFrame(ds, k) ==> exists p :: p in Frames(ds[..n], pref) && Lists(ds, k, pref, p)
    ensures Panics(ds[..n], pref) <==> exists k: nat :: k < n && IsFrame(ds, k) && IntervalPanics(ds[k], ds[k][25], pref)
  {
    hide ContextAfter, FrameIn, Lists, IntervalPanics, IsFrame;
    if n > 0 {
      FramesListed(ds, pref, n - 1);
      assert ds[..n][..n - 1] == ds[..n - 1];
      FrameAt(ds, n - 1, pref);
    }
  }

  lemma {:induction false} EndpointsListed(ds: seq<Descriptor>, n: nat)
    requires n <= |ds|
    ensures forall c :: c in Endpoints(ds[..n]) ==> exists k: nat :: k < n && EndpointFrom(ds, k, c)
    ensures forall k: nat :: k < n && IsEndpoint(ds, k) ==> exists c :: c in Endpoints(ds[..n]) && EndpointFrom(ds, k, c)
  {
    hide ContextAfter, EndpointIn, EndpointFrom, IsEndpoint;
    if n > 0 {
      EndpointsListed(ds, n - 1);
      assert ds[..n][..n - 1] == ds[..n - 1];
      EndpointAt(ds, n - 1);
    }
  }

  /** The largest packet that an endpoint descriptor names: the low eleven bits of bytes 4 and 5. */
  function PacketSize(d: Descriptor): nat
    requires |d| >= 6
  {
    var low, high := d[4] as nat, d[5] as nat;
    low + 256 * (high % 8)
  }

  lemma PacketSizeIs(ds: seq<Descriptor>, k: nat, c: Candidate)
    requires EndpointFrom(ds, k, c)
    ensures Payload()(c) == PacketSize(ds[k])
  {
    hide InStreaming, Under;
    LowEleven(ds[k][4], ds[k][5]);
  }

  lemma LowEleven(low: nat, high: nat)
    requires low < 256
    ensures WmaxMps(low + 256 * high) == low + 256 * (high % 8)
  {
    QuotientUnique(low + 256 * high, 0x800, high / 8, low + 256 * (high % 8));
  }

  lemma IsFrameBytes(ds: seq<Descriptor>, k: nat, p: FramePick)
    requires FrameFrom(ds, k, p)
    ensures IsFrame(ds, k) && (p.isMjpeg <==> IsMjpegFrame(ds, k))
  {
  }

  /** A stream is selected iff no interval range is reversed and there are a frame and an endpoint; a missing endpoint is reported first. */
  lemma SelectedWhen(ds: seq<Descriptor>, prefs: Prefs, pref: nat)
    ensures var r := Select(ds, prefs, pref);
            && (r.Panicked? <==> exists k: nat :: IsFrame(ds, k) && IntervalPanics(ds[k], ds[k][25], pref))
            && (r.Selected? <==> !r.Panicked? && (exists k: nat :: IsFrame(ds, k)) && (exists k: nat :: IsEndpoint(ds, k)))
            && (r.Failed? ==> r.error == if exists k: nat :: IsEndpoint(ds, k) then Protocol("no VS format/frame") else NotImplemented)
  {
    hide Frames, Panics, Endpoints, IntervalPanics, IsFrame, IsEndpoint, FrameFrom, EndpointFrom, IsFirstBest;
    assert ds[..|ds|] == ds;
    FramesListed(ds, pref, |ds|);
    EndpointsListed(ds, |ds|);
    var f, e := SelectMeans(ds, prefs, pref);
    if Frames(ds, pref) != [] {
      var p := Frames(ds, pref)[0];
      assert p in Frames(ds, pref);
      var k: nat :| k < |ds| && Lists(ds, k, pref, p);
      IsFrameBytes(ds, k, p);
    }
    if Endpoints(ds) != [] {
      var c := Endpoints(ds)[0];
      assert c in Endpoints(ds);
      var k: nat :| k < |ds| && EndpointFrom(ds, k, c);
      IsEndpointBytes(ds, k, c);
    }
    forall k: nat | IsFrame(ds, k) || IsEndpoint(ds, k) ensures k < |ds| {
      InRange(ds, k);
    }
  }

  lemma IsEndpointBytes(ds: seq<Descriptor>, k: nat, c: Candidate)
    requires EndpointFrom(ds, k, c)
    ensures IsEndpoint(ds, k)
  {
  }

  lemma InRange(ds: seq<Descriptor>, k: nat)
    requires IsFrame(ds, k) || IsEndpoint(ds, k)
    ensures k < |ds|
  {
  }

  /** A frame's kind and rank are those of its descriptor. */
  lemma SameRank(ds: seq<Descriptor>, k: nat, p: FramePick, q: FramePick, prefs: Prefs)
    requires FrameFrom(ds, k, p) && FrameFrom(ds, k, q)
    ensures FrameRank(p, prefs) == FrameRank(q, prefs) && p.isMjpeg == q.isMjpeg
  {
  }

  /** An MJPEG frame is listed iff some frame descriptor has subtype 7. */
  lemma MjpegListedIff(ds: seq<Descriptor>, pref: nat)
    requires !Panics(ds, pref)
    ensures (exists p :: p in Frames(ds, pref) && p.isMjpeg) <==> exists k: nat :: IsMjpegFrame(ds, k)
  {
    hide Frames, Panics, IsFrame, FrameFrom;
    assert ds[..|ds|] == ds;
    FramesListed(ds, pref, |ds|);
    if p :| p in Frames(ds, pref) && p.isMjpeg {
      var k: nat :| k < |ds| && Lists(ds, k, pref, p);
      IsFrameBytes(ds, k, p);
    }
    if k: nat :| IsMjpegFrame(ds, k) {
      InRange(ds, k);
      var p :| p in Frames(ds, pref) && Lists(ds, k, pref, p);
      IsFrameBytes(ds, k, p);
    }
  }

  /** Whatever a descriptor lists has an equal among the frames. */
  lemma EqualListed(ds: seq<Descriptor>, prefs: Prefs, pref: nat, k: nat, q: FramePick) returns (q': FramePick)
    requires !Panics(ds, pref) && FrameFrom(ds, k, q)
    ensures q' in Frames(ds, pref) && q'.isMjpeg == q.isMjpeg && FrameRank(q', prefs) == FrameRank(q, prefs)
  {
    hide Frames, Panics, IsFrame, FrameFrom, FrameRank;
    assert ds[..|ds|] == ds;
    FramesListed(ds, pref, |ds|);
    IsFrameBytes(ds, k, q);
    InRange(ds, k);
    q' :| q' in Frames(ds, pref) && Lists(ds, k, pref, q');
    SameRank(ds, k, q, q', prefs);
  }

  /**
   The frame selected, in the bytes: some descriptor lists it; it is MJPEG iff any descriptor lists one of
   subtype 7; and no descriptor of its kind lists one of higher rank.
   */
  lemma SelectedFrame(ds: seq<Descriptor>, prefs: Prefs, pref: nat)
    requires Select(ds, prefs, pref).Selected?
    ensures var p := Select(ds, prefs, pref).sel.frame;
            && (exists k: nat :: Lists(ds, k, pref, p))
            && (p.isMjpeg <==> exists k: nat :: IsMjpegFrame(ds, k))
            && (forall k: nat, q :: FrameFrom(ds, k, q) && q.isMjpeg == p.isMjpeg ==> FrameRank(q, prefs) <= FrameRank(p, prefs))
  {
    hide Select, Frames, Panics, Endpoints, IsFrame, IsMjpegFrame, FrameFrom, Mjpeg, FrameRank;
    assert ds[..|ds|] == ds;
    FramesListed(ds, pref, |ds|);
    var f, e := SelectMeans(ds, prefs, pref);
    var p := Select(ds, prefs, pref).sel.frame;
    MjpegHas(Frames(ds, pref), p.isMjpeg, p);
    MjpegListedIff(ds, pref);
    forall k: nat, q | FrameFrom(ds, k, q) && q.isMjpeg == p.isMjpeg ensures FrameRank(q, prefs) <= FrameRank(p, prefs) {
      var q' := EqualListed(ds, prefs, pref, k, q);
      MjpegHas(Frames(ds, pref), p.isMjpeg, q');
      assert RankBy(prefs)(q') <= RankBy(prefs)(p);
    }
  }

  /** The endpoint selected: some descriptor lists it, and none has a larger packet. */
  lemma SelectedEndpoint(ds: seq<Descriptor>, prefs: Prefs, pref: nat)
    requires Select(ds, prefs, pref).Selected?
    ensures var sel := Select(ds, prefs, pref).sel;
            exists k: nat :: EndpointFrom(ds, k, Candidate(sel.altSetting, sel.epNum, sel.mpsRaw, sel.vsInterface))
                             && forall j: nat :: IsEndpoint(ds, j) ==> PacketSize(ds[j]) <= PacketSize(ds[k])
  {
    hide Select, Frames, Panics, Endpoints, EndpointFrom, Mjpeg, PacketSize, InStreaming;
    assert ds[..|ds|] == ds;
    EndpointsListed(ds, |ds|);
    var f, e := SelectMeans(ds, prefs, pref);
    var sel := Select(ds, prefs, pref).sel;
    var c := Candidate(sel.altSetting, sel.epNum, sel.mpsRaw, sel.vsInterface);
    assert c in Endpoints(ds);
    var k: nat :| k < |ds| && EndpointFrom(ds, k, c);
    IsEndpointBytes(ds, k, c);
    PacketSizeIs(ds, k, c);
    forall j: nat | IsEndpoint(ds, j) ensures PacketSize(ds[j]) <= PacketSize(ds[k]) {
      var c' :| c' in Endpoints(ds) && EndpointFrom(ds, j, c');
      PacketSizeIs(ds, j, c');
    }
  }

  /** The preference in whole units of 100 ns, for durations that 32 bits of them can count. */
  lemma TicksOf(duration: nat)
    requires duration < 100 * WORD32
    ensures 100 * ToTicks(duration) <= duration < 100 * (ToTicks(duration) + 1)
  {
    QuotientUnique(duration / 100, WORD32, 0, duration / 100);
  }

  lemma {:induction false} ChainWithin(cfg: seq<Byte>, i: nat, end: nat)
    requires end <= |cfg|
    ensures Chain(cfg, i, end) == Chain(cfg[..end], i, end)
    decreases end - i
  {
    if i + 2 <= end && cfg[i] >= 2 && i + cfg[i] <= end {
      assert cfg[..end][i..i + cfg[i]] == cfg[i..i + cfg[i]];
      ChainWithin(cfg, i + cfg[i], end);
    }
  }

  /** Bytes behind the total length say nothing, and a total beyond the buffer counts as its length. */
  lemma OnlyTotalCounts(cfg: seq<Byte>, total: nat, prefs: Prefs)
    ensures total <= |cfg| ==> ParseVideoStream(cfg, total, prefs) == ParseVideoStream(cfg[..total], total, prefs)
    ensures total > |cfg| ==> ParseVideoStream(cfg, total, prefs) == ParseVideoStream(cfg, |cfg|, prefs)
  {
    hide Select, Chain;
    if total <= |cfg| && 12 <= total {
      ChainWithin(cfg, cfg[0], total);
    }
  }
}
