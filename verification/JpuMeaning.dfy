/** From header to hardware: what parsing a printed JPEG header leaves for the upload. */
module JpuMeaning {
  import opened Arith
  import opened Huffman
  import opened JpegHeader
  import opened JpegPrinter
  import opened JpegMeaning
  import opened JpuLayout
  import opened JpuUpload
  import opened Wrappers

  lemma {:induction false} NoCodes(bits: seq<nat>, n: nat)
    requires n <= |bits| && forall i :: 0 <= i < n ==> bits[i] == 0
    ensures Prior(bits, n) == 0
  {
    if n > 0 {
      NoCodes(bits, n - 1);
    }
  }

  /** A table read whole, or never read, has every value that is sent. */
  lemma ParsedTableFull(img: Image, slot: nat)
    requires ValidImage(img) && slot < 4
    ensures var t := Meaning(img).huff.Get(slot);
            Shaped(t) && SentCount(t, slot) <= t.numValues && !ValuesPanic(t, slot)
  {
    hide Print, LatestHuffOf, Prior;
    HuffInForce(Initial(), img.items, slot);
    match LatestHuffOf(img.items, slot)
    case Some(d) =>
      PriorMonotone(d.bits, SentLengths(slot), |d.bits|);
    case None =>
      NoCodes(EmptyTable().bits, SentLengths(slot));
  }

  /**
   Any printed header, whatever follows it: its tables upload without running off their values, and
   as exactly 540 words iff none is too long for its room in the unit.
   */
  lemma PrintedTablesUpload(img: Image, rest: seq<Byte>)
    requires ValidImage(img)
    ensures var r := Parse(Print(img) + rest);
            && r.Parsed? && AllShaped(r.header.huff) && !UploadPanics(r.header.huff)
            && (|DataOf(Upload(r.header.huff))| == WORDS <==> WithinRoom(r.header.huff))
  {
    hide Parse, Print, Meaning, ValuesPanic, SentCount, Upload, DataOf, InPlace;
    HeaderRoundTrip(img, rest);
    var ts := Meaning(img).huff;
    ParsedTableFull(img, 0);
    ParsedTableFull(img, 1);
    ParsedTableFull(img, 2);
    ParsedTableFull(img, 3);
    assert ts.Get(0) == ts.a && ts.Get(1) == ts.b && ts.Get(2) == ts.c && ts.Get(3) == ts.d;
    FullWordsExactIff(ts);
  }

  // ---- Two headers that break the assumptions ------------------------------------------------------

  /** A header of one segment and a scan without components. */
  ghost function OneSegment(s: Segment): Image {
    Image(0, [Item(0, s)], 0, Scan([], [0, 63, 0]))
  }

  lemma OneSegmentMeans(s: Segment)
    requires ValidSegment(s)
    ensures ValidImage(OneSegment(s)) && Meaning(OneSegment(s)) == ApplyScan(Apply(Initial(), s), Scan([], [0, 63, 0]), |Print(OneSegment(s))|)
  {
    hide Apply, ApplyScan, Print, ValidSegment;
    var items := OneSegment(s).items;
    assert items[1..] == [];
    assert ApplyItems(Initial(), items) == ApplyItems(Apply(Initial(), s), []);
  }

  /** The largest frame there is, unsubsampled: its luma plane counts as nothing. */
  lemma HugeFrameUncounted(rest: seq<Byte>)
    ensures var img := OneSegment(Frame(false, 8, 65535, 65535, [CompSpec(1, 1, 1, 0), CompSpec(2, 1, 1, 0), CompSpec(3, 1, 1, 0)]));
            && ValidImage(img)
            && var r := Parse(Print(img) + rest);
               r.Parsed? && FromSof(r.header) && !Countable(r.header) && LayoutOf(r.header).1.luma == 0
  {
    hide Parse, Print, ValidImage;
    var comps := [CompSpec(1, 1, 1, 0), CompSpec(2, 1, 1, 0), CompSpec(3, 1, 1, 0)];
    var s := Frame(false, 8, 65535, 65535, comps);
    OneSegmentMeans(s);
    HeaderRoundTrip(OneSegment(s), rest);
    HugeHeader(Meaning(OneSegment(s)));
  }

  lemma HugeHeader(h: Header)
    requires h.width == 65535 && h.height == 65535 && h.format == FORMAT_444
    ensures FromSof(h) && !Countable(h) && LayoutOf(h).1.luma == 0
  {
  }

  /** A DC table for slot 0 of thirteen codes, all of four bits. */
  ghost function ThirteenDc(): HuffSpec {
    HuffSpec(0, 0, Repeat(3, 0) + [13] + Repeat(12, 0), Repeat(13, 0))
  }

  /** It is one value too long for its room, and misses 540 words. */
  lemma ThirteenDcValuesTooLong(rest: seq<Byte>)
    ensures var img := OneSegment(Huff([ThirteenDc()]));
            && ValidImage(img)
            && var r := Parse(Print(img) + rest);
               && r.Parsed? && AllShaped(r.header.huff) && SentCount(r.header.huff.Get(0), 0) == 13 == MaxCount(0) + 1
               && |DataOf(Upload(r.header.huff))| != WORDS
  {
    hide Parse, Print, ValidImage, Upload, DataOf, WithinRoom, Prior;
    var t := ThirteenDc();
    var bits := t.bits;
    var s := Huff([t]);
    ThirteenCodes(bits);
    ThirteenPrinted();
    assert [t][1..] == [];
    OneSegmentMeans(s);
    HeaderRoundTrip(OneSegment(s), rest);
    PrintedTablesUpload(OneSegment(s), rest);
    var ts := Meaning(OneSegment(s)).huff;
    assert ApplyHuffs(Initial(), [t]) == ApplyHuffs(ApplyHuff(Initial(), t), []);
    assert ts.Get(0).bits == bits;
    TooLong(ts);
  }

  lemma ThirteenPrinted()
    ensures ValidSegment(Huff([ThirteenDc()]))
  {
    hide Prior;
    var t := ThirteenDc();
    ThirteenCodes(t.bits);
    assert [t][1..] == [];
    assert ValidHuff(t) && PrintHuffs([t]) == PrintHuff(t) + PrintHuffs([]);
  }

  lemma TooLong(ts: Four<Table>)
    requires |ts.Get(0).bits| == LENGTHS && SentCount(ts.Get(0), 0) > MaxCount(0)
    ensures !WithinRoom(ts)
  {
    hide SentCount, MaxCount;
  }

  lemma ThirteenCodes(bits: seq<nat>)
    requires |bits| == LENGTHS && bits[3] == 13 && forall i :: 0 <= i < LENGTHS && i != 3 ==> bits[i] == 0
    ensures Prior(bits, 12) == 13 == Count(bits)
  {
    NoCodes(bits, 3);
    var n := |bits|;
    OnlyFour(bits, 12);
    OnlyFour(bits, n);
  }

  lemma {:induction false} OnlyFour(bits: seq<nat>, n: nat)
    requires 4 <= n <= |bits| && bits[3] == 13 && Prior(bits, 3) == 0 && forall i :: 4 <= i < n ==> bits[i] == 0
    ensures Prior(bits, n) == 13
    decreases n
  {
    if n > 4 {
      OnlyFour(bits, n - 1);
    }
  }
}
