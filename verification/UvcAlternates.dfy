/** Whether the alternate setting chosen for an offer belongs to the interface and endpoint it is applied to. */
module UvcAlternates {
  import opened Arith
  import opened UvcDescriptor
  import opened UvcMeaning
  import opened UvcStream
  import opened Dwc2

  /** The descriptors list the setting for the selected endpoint of the selected interface. */
  ghost predicate Own(ds: seq<Descriptor>, sel: Selection, a: Alt) {
    exists c :: c in Endpoints(ds) && c.ifc == sel.vsInterface && c.ep == sel.epNum && (c.alt, c.mpsRaw) == a
  }

  /** The setting that an offer, as the camera reads it back, ends up with. */
  function Chosen(sel: Selection, offer: nat): Alt {
    Reselected((sel.altSetting, sel.mpsRaw), sel.alts, offer)
  }

  /** No earlier entry is as wide, and an entry of no width counts only among its like. */
  ghost predicate FirstOfItsWidth(alts: seq<Alt>, k: nat)
    requires k < |alts|
  {
    && (forall j :: 0 <= j < k ==> WmaxMps(alts[j].1) != WmaxMps(alts[k].1))
    && (WmaxMps(alts[k].1) == 0 ==> forall j :: 0 <= j < |alts| ==> WmaxMps(alts[j].1) == 0)
  }

  /** What is chosen for an offer is the first entry of its width. */
  lemma ChosenIsFirst(present: Alt, alts: seq<Alt>, offer: nat) returns (i: nat)
    requires alts != [] && offer > 0
    ensures i < |alts| && alts[i] == Reselected(present, alts, offer) && FirstOfItsWidth(alts, i)
  {
    hide Reselected, WmaxMps;
    i := ReselectedMeans(present, alts, offer);
  }

  /** Every first entry of a width is what some offer ends up with. */
  lemma FirstIsChosen(present: Alt, alts: seq<Alt>, k: nat) returns (offer: nat)
    requires k < |alts| && FirstOfItsWidth(alts, k)
    ensures 0 < offer < WORD32 && Reselected(present, alts, offer) == alts[k]
  {
    hide Reselected, WmaxMps;
    SmallPayload(alts[k].1);
    offer := if WmaxMps(alts[k].1) > 0 then WmaxMps(alts[k].1) else 1;
    var i := ReselectedMeans(present, alts, offer);
    assert alts[k] in alts;
    assert WmaxMps(alts[i].1) == WmaxMps(alts[k].1);
    assert i == k;
  }

  /** The table is the first eight endpoints listed; the setting selected is one of the endpoint's own. */
  lemma SelectedIsOwn(ds: seq<Descriptor>, prefs: Prefs, pref: nat)
    requires Select(ds, prefs, pref).Selected?
    ensures var sel := Select(ds, prefs, pref).sel;
            && sel.alts == FirstAlts(Endpoints(ds)) != [] && Own(ds, sel, (sel.altSetting, sel.mpsRaw))
  {
    hide Best, Endpoints, Panics, Frames;
    var i := BestIs(Endpoints(ds), Payload());
  }

  /**
   Whatever the camera offers, the setting chosen is one of the selected endpoint, iff every entry of the
   table that is the first of its width is one.
   */
  lemma ChoicesOwnIff(ds: seq<Descriptor>, prefs: Prefs, pref: nat)
    requires Select(ds, prefs, pref).Selected?
    ensures var sel := Select(ds, prefs, pref).sel;
            && sel.alts == FirstAlts(Endpoints(ds))
            && ((forall offer :: 0 <= offer < WORD32 ==> Own(ds, sel, Chosen(sel, offer)))
                <==> forall k :: 0 <= k < |sel.alts| && FirstOfItsWidth(sel.alts, k) ==> Own(ds, sel, sel.alts[k]))
  {
    hide Select, Own, FirstOfItsWidth, FirstAlts, Reselected;
    SelectedIsOwn(ds, prefs, pref);
    var sel := Select(ds, prefs, pref).sel;
    var present := (sel.altSetting, sel.mpsRaw);
    if forall offer :: 0 <= offer < WORD32 ==> Own(ds, sel, Chosen(sel, offer)) {
      forall k | 0 <= k < |sel.alts| && FirstOfItsWidth(sel.alts, k) ensures Own(ds, sel, sel.alts[k]) {
        var offer := FirstIsChosen(present, sel.alts, k);
        assert Own(ds, sel, Chosen(sel, offer));
      }
    }
    if forall k :: 0 <= k < |sel.alts| && FirstOfItsWidth(sel.alts, k) ==> Own(ds, sel, sel.alts[k]) {
      forall offer | 0 <= offer < WORD32 ensures Own(ds, sel, Chosen(sel, offer)) {
        NoOffer(present, sel.alts);
        if offer > 0 {
          var i := ChosenIsFirst(present, sel.alts, offer);
        }
      }
    }
  }

  lemma NoOffer(present: Alt, alts: seq<Alt>)
    ensures Reselected(present, alts, 0) == present
  {
  }

  // ---- Two interfaces -----------------------------------------------------------------------------

  /** Interface 1 streams 640x480 over endpoint 1 by 1024 bytes, interface 2 over endpoint 2 by 512. */
  function TwoInterfaces(): seq<Descriptor> {
    [[9, 4, 1, 1, 1, 14, 2, 0, 0], SmallFrame(), [7, 5, 0x81, 1, 0, 4, 1], [9, 4, 2, 3, 1, 14, 2, 0, 0], [7, 5, 0x82, 1, 0, 2, 1]]
  }

  function SmallFrame(): (d: Descriptor)
    ensures |d| == 26 && d[1] == CS_INTERFACE && d[2] == VS_FRAME_MJPEG
  {
    [26, 0x24, 7, 1, 0, 128, 2, 224, 1] + Repeat(12, 0) + [21, 22, 5, 0, 0]
  }

  /** For an offer of 500 the setting of the other interface is chosen: it is the narrowest in the table that covers it. */
  lemma OtherInterfaceChosen(prefs: Prefs, pref: nat)
    ensures var ds, r := TwoInterfaces(), Select(TwoInterfaces(), prefs, pref);
            && r.Selected? && r.sel.vsInterface == 1 && r.sel.epNum == 1 && r.sel.alts == [(1, 1024), (3, 512)]
            && Chosen(r.sel, 500) == (3, 512) && !Own(ds, r.sel, (3, 512))
  {
    hide Best, Reselected, Select, Frames, Panics, Endpoints;
    TwoListed(pref);
    var ds := TwoInterfaces();
    var f, e := SelectMeans(ds, prefs, pref);
    var cs := Endpoints(ds);
    assert Payload()(cs[0]) == WmaxMps(1024) == 1024 && Payload()(cs[1]) == WmaxMps(512) == 512;
    SelectedIsOwn(ds, prefs, pref);
    var sel := Select(ds, prefs, pref).sel;
    assert sel.alts == [(1, 1024), (3, 512)];
    var i := ReselectedMeans((sel.altSetting, sel.mpsRaw), sel.alts, 500);
  }

  /** What one more descriptor adds. */
  lemma OneMore(ds: seq<Descriptor>, d: Descriptor, pref: nat)
    ensures var c := ContextAfter(ds);
            && ContextAfter(ds + [d]) == Next(c, d)
            && Endpoints(ds + [d]) == Endpoints(ds) + OneOrNone(EndpointIn(c, d))
            && Frames(ds + [d], pref) == Frames(ds, pref) + Picked(FrameIn(c, d, pref))
            && (Panics(ds + [d], pref) <==> Panics(ds, pref) || FrameIn(c, d, pref).Panic?)
  {
    assert (ds + [d])[..|ds|] == ds;
  }

  lemma NoneListed(pref: nat)
    ensures ContextAfter([]) == Context(0, 0, 0, 0, 0) && Endpoints([]) == [] && Frames([], pref) == [] && !Panics([], pref)
  {
  }

  lemma InterfaceListed(ds: seq<Descriptor>, d: Descriptor, pref: nat)
    requires |d| == 9 && d[1] == USB_DT_INTERFACE
    ensures ContextAfter(ds + [d]) == ContextAfter(ds).(num := d[2], alt := d[3], cls := d[5], sub := d[6])
    ensures Endpoints(ds + [d]) == Endpoints(ds) && Frames(ds + [d], pref) == Frames(ds, pref)
    ensures Panics(ds + [d], pref) <==> Panics(ds, pref)
  {
    hide Endpoints, Frames, Panics, ContextAfter;
    OneMore(ds, d, pref);
    assert FrameIn(ContextAfter(ds), d, pref) == Skip;
  }

  lemma EndpointListed(ds: seq<Descriptor>, d: Descriptor, pref: nat)
    requires |d| == 7 && d[1] == USB_DT_ENDPOINT && d[2] >= 0x80 && d[3] % 4 == ENDPOINT_ATTR_ISOCH && ContextAfter(ds).Streaming()
    ensures var c, low, high := ContextAfter(ds), d[4] as nat, d[5] as nat;
            ContextAfter(ds + [d]) == c && Endpoints(ds + [d]) == Endpoints(ds) + [Candidate(c.alt, d[2] % 16, low + 0x100 * high, c.num)]
    ensures Frames(ds + [d], pref) == Frames(ds, pref) && (Panics(ds + [d], pref) <==> Panics(ds, pref))
  {
    hide Endpoints, Frames, Panics, ContextAfter;
    OneMore(ds, d, pref);
    assert FrameIn(ContextAfter(ds), d, pref) == Skip;
    TwoBytes(d[4..6]);
  }

  lemma TwoBytes(bytes: seq<Byte>)
    requires |bytes| == 2
    ensures var low, high := bytes[0] as nat, bytes[1] as nat; Le(bytes) == low + 0x100 * high
  {
    assert bytes[1..][1..] == [];
    assert Le(bytes[1..]) == bytes[1];
  }

  lemma SmallFrameListed(ds: seq<Descriptor>, pref: nat)
    requires ContextAfter(ds).Streaming()
    ensures var more := ds + [SmallFrame()];
            && ContextAfter(more) == ContextAfter(ds) && Endpoints(more) == Endpoints(ds)
            && Frames(more, pref) != [] && (Panics(more, pref) <==> Panics(ds, pref))
  {
    hide Endpoints, Frames, Panics, ContextAfter, SmallFrame, ChosenInterval, MinInterval;
    var d := SmallFrame();
    OneMore(ds, d, pref);
    assert FrameIn(ContextAfter(ds), d, pref).Pick?;
  }

  lemma TwoListed(pref: nat)
    ensures var ds := TwoInterfaces();
            !Panics(ds, pref) && Frames(ds, pref) != [] && Endpoints(ds) == [Candidate(1, 1, 1024, 1), Candidate(3, 2, 512, 2)]
  {
    hide ContextAfter, Endpoints, Frames, Panics, SmallFrame;
    var ds := TwoInterfaces();
    var one := [ds[0]];
    var two := one + [ds[1]];
    var three := two + [ds[2]];
    var four := three + [ds[3]];
    assert [] + [ds[0]] == one && four + [ds[4]] == ds;
    NoneListed(pref);
    InterfaceListed([], ds[0], pref);
    SmallFrameListed(one, pref);
    EndpointListed(two, ds[2], pref);
    InterfaceListed(three, ds[3], pref);
    EndpointListed(four, ds[4], pref);
  }
}
