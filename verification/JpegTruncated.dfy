/** Headers that are cut short: the parser refuses them, without an index out of range, up to the length field of the scan. */
module JpegTruncated {
  import opened Arith
  import opened Huffman
  import opened JpegHeader
  import opened JpegPrinter

  /** The first n bytes of s stand in `data` at i, and nothing after them. */
  ghost predicate CutAt(data: seq<Byte>, i: nat, s: seq<Byte>) {
    i <= |data| <= i + |s| && forall j {:trigger s[j]} :: 0 <= j < |data| - i ==> data[i + j] == s[j]
  }

  lemma CutSplit(data: seq<Byte>, i: nat, a: seq<Byte>, b: seq<Byte>)
    requires CutAt(data, i, a + b)
    ensures |data| <= i + |a| ==> CutAt(data, i, a)
    ensures |data| >= i + |a| ==> HasAt(data, i, a) && CutAt(data, i + |a|, b)
  {
    forall j | 0 <= j < |a| && j < |data| - i ensures data[i + j] == a[j] {
      assert (a + b)[j] == a[j];
    }
    forall j | 0 <= j < |b| && j < |data| - i - |a| ensures data[i + |a| + j] == b[j] {
      assert (a + b)[|a| + j] == b[j];
    }
  }

  lemma TooFar(data: seq<Byte>, i: nat, h: Header)
    requires i + 1 >= |data|
    ensures ParseFrom(data, i, h) == Failed("SOS not found")
  {
  }

  /** Nothing but fill bytes. */
  lemma {:induction false} AllFill(data: seq<Byte>, i: nat, h: Header)
    requires forall j :: i <= j < |data| ==> data[j] == 0xFF
    ensures ParseFrom(data, i, h).Failed?
    decreases |data| - i
  {
    if i + 1 < |data| {
      AllFill(data, i + 1, h);
    }
  }

  /** A marker without a whole length field. */
  lemma MarkerOnly(data: seq<Byte>, i: nat, h: Header)
    requires i + 1 < |data| <= i + 3 && data[i] == 0xFF && Classify(data[i + 1]) in {Sof, Dht, Dqt, Dri, Sos, OtherWithLength}
    ensures ParseFrom(data, i, h).Failed?
  {
    hide DhtUpdate, DqtUpdate, SofUpdate, DriUpdate;
    var h1 := DriUpdate(data, i, h);
    NotFill(data, i + 1, h);
    NotFill(data, i + 1, h1);
    TooFar(data, i + 2, h);
  }

  /** At a byte that is no marker prefix, two bytes from the end at most. */
  lemma NotFill(data: seq<Byte>, i: nat, h: Header)
    requires i < |data| <= i + 2 && data[i] != 0xFF
    ensures ParseFrom(data, i, h).Failed?
  {
    if i + 1 < |data| {
      TooFar(data, i + 1, h);
    }
  }

  // ---- Tables cut short ------------------------------------------------------------------------------

  lemma {:induction false} SumOfSome(data: seq<Byte>, off: nat, bits: seq<Byte>, n: nat)
    requires n <= |bits| && forall j :: 0 <= j < n && off + j < |data| ==> data[off + j] == bits[j]
    ensures SumBytes(data, off, off + n) <= Prior(bits, n)
    ensures off + n <= |data| ==> SumBytes(data, off, off + n) == Prior(bits, n)
  {
    if n > 0 {
      SumOfSome(data, off, bits, n - 1);
    }
  }

  /** The first of some printed tables, as far as it goes. */
  lemma FirstTable(data: seq<Byte>, off: nat, t: HuffSpec, rest: seq<Byte>)
    requires ValidHuff(t) && CutAt(data, off, PrintHuff(t) + rest)
    ensures !TablePanics(data, off)
    ensures var n := 17 + SumBytes(data, off + 1, off + 17);
            if off + 17 <= |data| then n == |PrintHuff(t)| else off + n >= |data|
  {
    hide SumBytes, Prior;
    var all := PrintHuff(t) + rest;
    forall j | 0 <= j < 16 && off + 1 + j < |data| ensures data[off + 1 + j] == t.bits[j] {
      assert all[1 + j] == t.bits[j] && data[off + (1 + j)] == all[1 + j];
    }
    SumOfSome(data, off + 1, t.bits, 16);
  }

  lemma {:induction false} CutHuffs(data: seq<Byte>, off: nat, ts: seq<HuffSpec>, end: nat, h: Header)
    requires AllHuffs(ts) && CutAt(data, off, PrintHuffs(ts)) && end == off + |PrintHuffs(ts)|
    ensures DhtUpdate(data, off, end, h).Parsed?
    decreases ts
  {
    hide SumBytes, PrintHuff, DhtStep, TablePanics, HasAt;
    if off < end && off + 1 < |data| {
      var p := PrintHuff(ts[0]);
      FirstTable(data, off, ts[0], PrintHuffs(ts[1..]));
      CutSplit(data, off, p, PrintHuffs(ts[1..]));
      var next := off + 17 + SumBytes(data, off + 1, off + 17);
      if next + 1 < |data| {
        CutHuffs(data, next, ts[1..], end, DhtStep(data, off, h));
      }
    }
  }

  lemma FirstQuant(data: seq<Byte>, off: nat, q: QuantSpec, rest: seq<Byte>)
    requires ValidQuant(q) && CutAt(data, off, PrintQuant(q) + rest) && off + 1 < |data|
    ensures !QuantPanics(data, off) && QuantLength(data[off]) == |PrintQuant(q)|
  {
    var all := PrintQuant(q) + rest;
    assert data[off + 0] == all[0] == PrintQuant(q)[0];
  }

  lemma {:induction false} CutQuants(data: seq<Byte>, off: nat, qs: seq<QuantSpec>, end: nat, h: Header)
    requires AllQuants(qs) && CutAt(data, off, PrintQuants(qs)) && end == off + |PrintQuants(qs)|
    ensures DqtUpdate(data, off, end, h).Parsed?
    decreases qs
  {
    hide PrintQuant, DqtStep, QuantPanics, QuantLength, HasAt;
    if off < end && off + 1 < |data| {
      FirstQuant(data, off, qs[0], PrintQuants(qs[1..]));
      CutSplit(data, off, PrintQuant(qs[0]), PrintQuants(qs[1..]));
      var next := off + QuantLength(data[off]);
      if next + 1 < |data| {
        CutQuants(data, next, qs[1..], end, DqtStep(data, off, h));
      }
    }
  }

  // ---- Segments cut short ------------------------------------------------------------------------------

  /** What there is of a marker, its length and its body. */
  lemma CutMarked(data: seq<Byte>, i: nat, marker: Byte, body: seq<Byte>)
    requires |body| + 2 < 65536 && CutAt(data, i, PrintMarked(marker, body)) && i + 1 < |data|
    ensures data[i] == 0xFF && data[i + 1] == marker
    ensures i + 4 <= |data| ==> Be16(data, i + 2) == |body| + 2 && CutAt(data, i + 4, body)
  {
    var head := [0xFF, marker] + Big16(|body| + 2);
    assert PrintMarked(marker, body) == head + body;
    assert head[0] == 0xFF && head[1] == marker;
    assert data[i + 0] == (head + body)[0] && data[i + 1] == (head + body)[1];
    CutSplit(data, i, head, body);
    if i + 4 <= |data| {
      assert data[i + 2] == (head + body)[2] && data[i + 3] == (head + body)[3];
      forall j | 0 <= j < |body| && j < |data| - i - 4 ensures data[i + 4 + j] == body[j] {
        assert (head + body)[4 + j] == body[j] && data[i + (4 + j)] == (head + body)[4 + j];
      }
    }
  }

  lemma MarkerClass(s: Segment)
    requires ValidBody(s)
    ensures Classify(MarkerOf(s)) == match s
                                     case Skipped(_, _) => OtherWithLength
                                     case Quant(_) => Dqt
                                     case Huff(_) => Dht
                                     case Restart(_) => Dri
                                     case Frame(_, _, _, _, _) => Sof
  {
  }

  /** A segment of which the marker is there and the end is not. */
  lemma SegmentCut(data: seq<Byte>, i: nat, s: Segment, h: Header)
    requires ValidSegment(s) && CutAt(data, i, PrintSegment(s)) && i + 1 < |data|
    ensures ParseFrom(data, i, h).Failed?
  {
    hide DhtUpdate, DqtUpdate, SofUpdate, DriUpdate, ParseFrom, Classify, AllHuffs, AllQuants;
    CutMarked(data, i, MarkerOf(s), Body(s));
    MarkerClass(s);
    if |data| <= i + 3 {
      MarkerOnly(data, i, h);
    } else {
      var next := i + 4 + |Body(s)|;
      if s.Huff? {
        CutHuffs(data, i + 4, s.huffs, next, h);
      } else if s.Quant? {
        CutQuants(data, i + 4, s.quants, next, h);
      }
      StepOver(data, i, h, next);
    }
  }

  /** A round that goes past the end, or ends in an error text. */
  lemma StepOver(data: seq<Byte>, i: nat, h: Header, next: nat)
    requires i + 1 < |data| <= next
    requires var s := StepAt(data, i, h); if s.Goto? then s.next == next else s.outcome.Failed?
    ensures ParseFrom(data, i, h).Failed?
  {
    hide StepAt;
    var s := StepAt(data, i, h);
    if s.Goto? {
      TooFar(data, next, s.header);
    }
  }

  /** Fill bytes before a marker: all there is, or gone through. */
  lemma FillCut(data: seq<Byte>, i: nat, fill: nat, rest: seq<Byte>, h: Header)
    requires CutAt(data, i, FillBytes(fill) + rest) && (rest != [] ==> rest[0] == 0xFF)
    ensures if |data| <= i + fill + 1 then ParseFrom(data, i, h).Failed?
            else CutAt(data, i + fill, rest) && ParseFrom(data, i, h) == ParseFrom(data, i + fill, h)
  {
    hide ParseFrom;
    var fills := FillBytes(fill);
    CutSplit(data, i, fills, rest);
    if |data| <= i + fill + 1 {
      forall j | i <= j < |data| ensures data[j] == 0xFF {
        assert (fills + rest)[j - i] == 0xFF && data[i + (j - i)] == (fills + rest)[j - i];
      }
      AllFill(data, i, h);
    } else {
      assert data[i + fill + 0] == rest[0];
      FillParsed(data, i, fill, h);
    }
  }

  /** A scan header is read as soon as its length field is there, and refused before. */
  lemma ScanCut(data: seq<Byte>, i: nat, s: Scan, h: Header)
    requires ValidScan(s) && CutAt(data, i, PrintMarked(0xDA, ScanBody(s))) && i + 1 < |data|
    ensures var r := ParseFrom(data, i, h);
            if |data| < i + 4 then r.Failed? else r.Parsed? && r.header.ecsOffset == i + 4 + |ScanBody(s)|
  {
    hide ScanBody;
    ScanBodyLength(s);
    CutMarked(data, i, 0xDA, ScanBody(s));
    if |data| < i + 4 {
      MarkerOnly(data, i, h);
    }
  }

  lemma ScanBodyLength(s: Scan)
    requires ValidScan(s)
    ensures |ScanBody(s)| + 2 < 65536
  {
  }

  /** The first byte of a segment, and of a scan. */
  lemma StartsWithPrefix(s: Segment, scan: Scan)
    ensures ValidSegment(s) ==> PrintSegment(s)[0] == 0xFF
    ensures ValidScan(scan) ==> PrintMarked(0xDA, ScanBody(scan))[0] == 0xFF
  {
  }

  /** Segments and the scan, cut anywhere. */
  lemma {:induction false} ItemsCut(data: seq<Byte>, i: nat, items: seq<Item>, fill: nat, scan: Scan, h: Header)
    requires ValidItems(items) && ValidScan(scan)
    requires CutAt(data, i, PrintItems(items) + (FillBytes(fill) + PrintMarked(0xDA, ScanBody(scan))))
    ensures var r, end := ParseFrom(data, i, h), i + |PrintItems(items)| + fill + 4;
            if |data| < end then r.Failed? else r.Parsed? && r.header.ecsOffset == end + |ScanBody(scan)|
    decreases items
  {
    hide ParseFrom, Apply, ScanBody, ValidSegment, HasAt, PrintSegment, PrintMarked;
    var last := FillBytes(fill) + PrintMarked(0xDA, ScanBody(scan));
    ScanBodyLength(scan);
    FillLength(fill);
    if items == [] {
      assert PrintItems(items) + last == last;
      StartsWithPrefix(Restart(0), scan);
      FillCut(data, i, fill, PrintMarked(0xDA, ScanBody(scan)), h);
      if |data| > i + fill + 1 {
        ScanCut(data, i + fill, scan, h);
      }
    } else {
      ItemCut(data, i, items, fill, scan, h);
      var first := FillBytes(items[0].fill) + PrintSegment(items[0].segment);
      if |data| > i + |first| {
        ItemsCut(data, i + |first|, items[1..], fill, scan, Apply(h, items[0].segment));
      }
    }
  }

  /** The first segment: cut short, or read in full with the rest still to come. */
  lemma ItemCut(data: seq<Byte>, i: nat, items: seq<Item>, fill: nat, scan: Scan, h: Header)
    requires items != [] && ValidItems(items) && ValidScan(scan) && |ScanBody(scan)| + 2 < 65536
    requires CutAt(data, i, PrintItems(items) + (FillBytes(fill) + PrintMarked(0xDA, ScanBody(scan))))
    ensures var first := FillBytes(items[0].fill) + PrintSegment(items[0].segment);
            && |PrintItems(items)| == |first| + |PrintItems(items[1..])|
            && if |data| <= i + |first| then ParseFrom(data, i, h).Failed?
               else
                 && ParseFrom(data, i, h) == ParseFrom(data, i + |first|, Apply(h, items[0].segment))
                 && CutAt(data, i + |first|, PrintItems(items[1..]) + (FillBytes(fill) + PrintMarked(0xDA, ScanBody(scan))))
  {
    hide ParseFrom, Apply, ScanBody, ValidSegment, PrintSegment, PrintMarked, FillBytes;
    var item := items[0];
    var first := FillBytes(item.fill) + PrintSegment(item.segment);
    var last := FillBytes(fill) + PrintMarked(0xDA, ScanBody(scan));
    assert PrintItems(items) + last == first + (PrintItems(items[1..]) + last);
    CutSplit(data, i, first, PrintItems(items[1..]) + last);
    FillLength(item.fill);
    if |data| <= i + |first| {
      StartsWithPrefix(item.segment, scan);
      FillCut(data, i, item.fill, PrintSegment(item.segment), h);
      if |data| > i + item.fill + 1 {
        SegmentCut(data, i + item.fill, item.segment, h);
      }
    } else {
      FilledSegment(data, i, item, h);
    }
  }

  /**
   A printed header that is cut short is refused, with an error text and without a panic, iff it is cut before the
   end of the scan's length field. Cut after it, even within the scan header, it is accepted with the data offset
   that the whole of it would have.
   */
  lemma CutHeaderRefusedIff(img: Image, n: nat)
    requires ValidImage(img) && n <= |Print(img)|
    ensures var r := Parse(Print(img)[..n]);
            if n + |ScanBody(img.scan)| < |Print(img)| then r.Failed? else r.Parsed? && r.header.ecsOffset == |Print(img)|
  {
    hide ParseFrom, PrintItems, ScanBody, PrintMarked, HasAt;
    ScanBodyLength(img.scan);
    var data := Print(img)[..n];
    var soi, items := [0xFF, 0xD8], PrintItems(img.items);
    var last := FillBytes(img.scanFill) + PrintMarked(0xDA, ScanBody(img.scan));
    assert Print(img) == FillBytes(img.soiFill) + (soi + (items + last));
    FillLength(img.soiFill);
    FillLength(img.scanFill);
    MarkedLength(ScanBody(img.scan));
    FillCut(data, 0, img.soiFill, soi + (items + last), Initial());
    if n > img.soiFill + 1 {
      CutSplit(data, img.soiFill, soi, items + last);
      AfterSoi(data, img.soiFill, Initial());
      ItemsCut(data, img.soiFill + 2, img.items, img.scanFill, img.scan, Initial());
    }
  }

  lemma MarkedLength(body: seq<Byte>)
    requires |body| + 2 < 65536
    ensures |PrintMarked(0xDA, body)| == 4 + |body|
  {
  }

  lemma AfterSoi(data: seq<Byte>, i: nat, h: Header)
    requires HasAt(data, i, [0xFF, 0xD8])
    ensures ParseFrom(data, i, h) == ParseFrom(data, i + 2, h)
  {
    assert data[i + 0] == [0xFF, 0xD8][0] && data[i + 1] == [0xFF, 0xD8][1];
  }
}
