/**
 What the parsed record says about the header it was read from: which tables are in force, when
 the frame's components are recorded as printed, and that the tables decode the data that follows.
 */
module JpegMeaning {
  import opened Arith
  import opened Huffman
  import opened HuffmanDecode
  import opened JpegHeader
  import opened JpegPrinter
  import opened Wrappers

  function OrElse<T>(a: Option<T>, b: Option<T>): Option<T> {
    if a.Some? then a else b
  }

  // ---- The last definition of a table is the one in force -----------------------------------

  ghost function LatestHuff(ts: seq<HuffSpec>, slot: nat): Option<HuffSpec> {
    if ts == [] then None
    else OrElse(LatestHuff(ts[1..], slot), if HuffSlot(ts[0].tc, ts[0].th) == slot then Some(ts[0]) else None)
  }

  ghost function LatestHuffOf(items: seq<Item>, slot: nat): Option<HuffSpec> {
    if items == [] then None
    else
      var s := items[0].segment;
      OrElse(LatestHuffOf(items[1..], slot), if s.Huff? then LatestHuff(s.huffs, slot) else None)
  }

  ghost function LatestQuant(qs: seq<QuantSpec>, tq: nat): Option<QuantSpec> {
    if qs == [] then None
    else OrElse(LatestQuant(qs[1..], tq), if qs[0].tq == tq then Some(qs[0]) else None)
  }

  ghost function LatestQuantOf(items: seq<Item>, tq: nat): Option<QuantSpec> {
    if items == [] then None
    else
      var s := items[0].segment;
      OrElse(LatestQuantOf(items[1..], tq), if s.Quant? then LatestQuant(s.quants, tq) else None)
  }

  /** Table t of the record is the printed table d; beyond d's values it may hold anything. */
  ghost predicate Holds(t: Table, d: HuffSpec) {
    && t.bits == d.bits && t.numValues == |d.values| && |t.values| == 256
    && forall j :: 0 <= j < |d.values| <= 256 ==> t.values[j] == d.values[j]
  }

  lemma {:induction false} HuffsInForce(h: Header, ts: seq<HuffSpec>, slot: nat)
    requires AllHuffs(ts) && slot < 4
    ensures match LatestHuff(ts, slot)
            case Some(t) => ValidHuff(t) && Holds(ApplyHuffs(h, ts).huff.Get(slot), t)
            case None => ApplyHuffs(h, ts).huff.Get(slot) == h.huff.Get(slot)
    decreases ts
  {
    if ts != [] {
      HuffsInForce(ApplyHuff(h, ts[0]), ts[1..], slot);
    }
  }

  lemma {:induction false} HuffInForce(h: Header, items: seq<Item>, slot: nat)
    requires ValidItems(items) && slot < 4
    ensures match LatestHuffOf(items, slot)
            case Some(t) => ValidHuff(t) && Holds(ApplyItems(h, items).huff.Get(slot), t)
            case None => ApplyItems(h, items).huff.Get(slot) == h.huff.Get(slot)
    decreases items
  {
    if items != [] {
      var s := items[0].segment;
      if s.Huff? {
        HuffsInForce(h, s.huffs, slot);
      } else if s.Quant? {
        QuantsKeepHuff(h, s.quants);
      }
      HuffInForce(Apply(h, s), items[1..], slot);
    }
  }

  lemma {:induction false} QuantsKeepHuff(h: Header, qs: seq<QuantSpec>)
    requires AllQuants(qs)
    ensures ApplyQuants(h, qs).huff == h.huff
    decreases qs
  {
    if qs != [] { QuantsKeepHuff(ApplyQuant(h, qs[0]), qs[1..]); }
  }

  lemma {:induction false} HuffsKeepQuant(h: Header, ts: seq<HuffSpec>)
    requires AllHuffs(ts)
    ensures ApplyHuffs(h, ts).quant == h.quant && ApplyHuffs(h, ts).quantCount == h.quantCount
    decreases ts
  {
    if ts != [] { HuffsKeepQuant(ApplyHuff(h, ts[0]), ts[1..]); }
  }

  lemma {:induction false} QuantsInForce(h: Header, qs: seq<QuantSpec>, tq: nat)
    requires AllQuants(qs) && tq < 4
    ensures ApplyQuants(h, qs).quantCount >= h.quantCount
    ensures match LatestQuant(qs, tq)
            case Some(q) => ApplyQuants(h, qs).quant.Get(tq) == q.coeffs && ApplyQuants(h, qs).quantCount > tq
            case None => ApplyQuants(h, qs).quant.Get(tq) == h.quant.Get(tq)
    decreases qs
  {
    if qs != [] { QuantsInForce(ApplyQuant(h, qs[0]), qs[1..], tq); }
  }

  lemma {:induction false} QuantInForce(h: Header, items: seq<Item>, tq: nat)
    requires ValidItems(items) && tq < 4
    ensures ApplyItems(h, items).quantCount >= h.quantCount
    ensures match LatestQuantOf(items, tq)
            case Some(q) => ApplyItems(h, items).quant.Get(tq) == q.coeffs && ApplyItems(h, items).quantCount > tq
            case None => ApplyItems(h, items).quant.Get(tq) == h.quant.Get(tq)
    decreases items
  {
    if items != [] {
      var s := items[0].segment;
      if s.Huff? {
        HuffsKeepQuant(h, s.huffs);
      } else if s.Quant? {
        QuantsInForce(h, s.quants, tq);
      }
      QuantInForce(Apply(h, s), items[1..], tq);
    }
  }

  // ---- The frame header --------------------------------------------------------------------

  /** Every component the record has room for is recorded as the frame header prints it. */
  ghost predicate ComponentsAsPrinted(h: Header, cs: seq<CompSpec>) {
    && (|cs| > 0 ==> h.sampling.a == (cs[0].h, cs[0].v) && h.quantSel.a == cs[0].tq)
    && (|cs| > 1 ==> h.sampling.b == (cs[1].h, cs[1].v) && h.quantSel.b == cs[1].tq)
    && (|cs| > 2 ==> h.sampling.c == (cs[2].h, cs[2].v) && h.quantSel.c == cs[2].tq)
  }

  /** A component list that an unread frame happens to agree with: all sampled 1x1, with the selectors already in force. */
  ghost predicate AlreadySo(h: Header, cs: seq<CompSpec>) {
    && (forall k :: 0 <= k < |cs| && k < 3 ==> cs[k].h == 1 && cs[k].v == 1)
    && (|cs| > 0 ==> cs[0].tq == h.quantSel.a) && (|cs| > 1 ==> cs[1].tq == h.quantSel.b)
    && (|cs| > 2 ==> cs[2].tq == h.quantSel.c)
  }

  /**
   Sampling and table selectors survive exactly for three components: for any other number the
   parser does not look at the entries, and is right only where it changes nothing.
   */
  lemma ComponentsKeptIff(h: Header, s: Segment)
    requires s.Frame? && ValidSegment(s)
    ensures ComponentsAsPrinted(Apply(h, s), s.comps) <==> |s.comps| == 3 || AlreadySo(h, s.comps)
  {
    hide ValidBody, Body;
    var cs := s.comps;
    if |cs| != 3 && ComponentsAsPrinted(Apply(h, s), cs) {
      assert |cs| > 0 ==> (cs[0].h, cs[0].v) == (1, 1);
      assert |cs| > 1 ==> (cs[1].h, cs[1].v) == (1, 1);
      assert |cs| > 2 ==> (cs[2].h, cs[2].v) == (1, 1);
    }
  }

  /** A one-component image with quantisation table 1: the record selects table 0 instead. */
  lemma GreySelectorLost()
    ensures var s := Frame(false, 8, 480, 640, [CompSpec(1, 1, 1, 1)]);
            ValidSegment(s) && s.comps[0].tq == 1 && Apply(Initial(), s).quantSel.a == 0
  {
    var s := Frame(false, 8, 480, 640, [CompSpec(1, 1, 1, 1)]);
    assert PrintComps(s.comps) == PrintComp(s.comps[0]) + PrintComps([]);
  }

  // ---- From the header to the data ----------------------------------------------------------

  /**
   The two halves together: parse a printed header, take the table in force in a slot, and DECODE
   with its generated arrays gives back the values of any run of symbols encoded with that table.
   */
  lemma ParsedTableDecodes(img: Image, rest: seq<Byte>, slot: nat, ks: seq<nat>, input: seq<bool>, pos: nat)
    requires ValidImage(img) && slot < 4
    requires LatestHuffOf(img.items, slot).Some?
    requires var t := LatestHuffOf(img.items, slot).value;
             && Usable(t.bits) && !AllOnesUsed(t.bits) && |t.values| == Count(t.bits)
             && AreSymbols(t.bits, ks) && HasAt(input, pos, EncodeAll(t.bits, ks))
    ensures var r, t := Parse(Print(img) + rest), LatestHuffOf(img.items, slot).value;
            && r.Parsed? && |r.header.huff.Get(slot).bits| == LENGTHS
            && DecodeAll(Codes(r.header.huff.Get(slot).bits, r.header.huff.Get(slot).values), input, pos, |ks|)
               == ValuesOf(t.values, ks)
  {
    hide Parse, Print, Meaning, DecodeAll, ValuesOf, EncodeAll, LatestHuffOf, Prior, Kraft, HasAt;
    HeaderRoundTrip(img, rest);
    TableInForce(img, slot);
    var t := LatestHuffOf(img.items, slot).value;
    var read := Meaning(img).huff.Get(slot);
    BitsLength(t.bits);
    RoundTrip(t.bits, read.values, ks, input, pos);
    SameValues(t.bits, t.values, read.values, ks);
  }

  lemma TableInForce(img: Image, slot: nat)
    requires ValidImage(img) && slot < 4 && LatestHuffOf(img.items, slot).Some?
    ensures Holds(Meaning(img).huff.Get(slot), LatestHuffOf(img.items, slot).value)
  {
    hide Print;
    HuffInForce(Initial(), img.items, slot);
  }

  lemma BitsLength(bits: seq<nat>)
    requires Usable(bits)
    ensures |bits| == LENGTHS && Count(bits) <= 256
  {
  }

  lemma {:induction false} SameValues(bits: seq<nat>, a: seq<nat>, b: seq<nat>, ks: seq<nat>)
    requires |a| == Count(bits) <= 256 == |b| && AreSymbols(bits, ks)
    requires forall j :: 0 <= j < |a| ==> a[j] == b[j]
    ensures ValuesOf(a, ks) == ValuesOf(b, ks)
  {
    if ks != [] { SameValues(bits, a, b, ks[1..]); }
  }
}
