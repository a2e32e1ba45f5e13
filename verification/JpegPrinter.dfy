/**
 A printer for JPEG headers after sections B.2.2 to B.2.4 of ITU-T T.81, and the proof that the
 parser reads back what it prints: any order of segments, several tables to a segment, any
 number of fill bytes, and whatever data may follow.
 */
module JpegPrinter {
  import opened Arith
  import opened Huffman
  import opened JpegHeader

  datatype QuantSpec = QuantSpec(wide: bool, tq: nat, coeffs: seq<nat>)
  datatype HuffSpec = HuffSpec(tc: nat, th: nat, bits: seq<Byte>, values: seq<Byte>)
  datatype CompSpec = CompSpec(id: Byte, h: nat, v: nat, tq: Byte)
  datatype ScanComp = ScanComp(id: Byte, td: nat, ta: nat)

  datatype Segment =
    | Skipped(marker: Byte, body: seq<Byte>)  // APPn, COM and every other segment the parser passes over
    | Quant(quants: seq<QuantSpec>)
    | Huff(huffs: seq<HuffSpec>)
    | Restart(interval: nat)
    | Frame(progressive: bool, precision: Byte, height: nat, width: nat, comps: seq<CompSpec>)

  datatype Item = Item(fill: nat, segment: Segment)

  datatype Scan = Scan(comps: seq<ScanComp>, spectral: seq<Byte>)

  datatype Image = Image(soiFill: nat, items: seq<Item>, scanFill: nat, scan: Scan)

  // ---- Well-formedness -------------------------------------------------------------------

  ghost predicate ValidQuant(q: QuantSpec) {
    && q.tq < 4 && |q.coeffs| == 64
    && forall j :: 0 <= j < 64 ==> q.coeffs[j] < if q.wide then 65536 else 256
  }

  ghost predicate ValidHuff(t: HuffSpec) {
    t.tc < 16 && t.th < 16 && |t.bits| == LENGTHS && |t.values| == Count(t.bits) <= 256
  }

  ghost predicate AllQuants(qs: seq<QuantSpec>) {
    qs == [] || (ValidQuant(qs[0]) && AllQuants(qs[1..]))
  }

  ghost predicate AllHuffs(ts: seq<HuffSpec>) {
    ts == [] || (ValidHuff(ts[0]) && AllHuffs(ts[1..]))
  }

  ghost predicate ValidComp(c: CompSpec) {
    c.h < 16 && c.v < 16
  }

  ghost predicate ValidBody(s: Segment) {
    match s
    case Skipped(marker, body) => 0xC0 <= marker < 0xFF && marker !in {0xC0, 0xC2, 0xC4, 0xD8, 0xD9, 0xDA, 0xDB, 0xDD}
    case Quant(qs) => AllQuants(qs)
    case Huff(ts) => AllHuffs(ts)
    case Restart(interval) => interval < 65536
    case Frame(_, _, height, width, comps) =>
      height < 65536 && width < 65536 && |comps| < 256 && forall k :: 0 <= k < |comps| ==> ValidComp(comps[k])
  }

  ghost predicate ValidSegment(s: Segment) {
    ValidBody(s) && |Body(s)| + 2 < 65536
  }

  ghost predicate ValidScan(s: Scan) {
    && |s.comps| < 256 && |s.spectral| == 3
    && forall k :: 0 <= k < |s.comps| ==> s.comps[k].td < 16 && s.comps[k].ta < 16
  }

  ghost predicate ValidImage(img: Image) {
    ValidItems(img.items) && ValidScan(img.scan)
  }

  ghost predicate ValidItems(items: seq<Item>) {
    items == [] || (ValidSegment(items[0].segment) && ValidItems(items[1..]))
  }

  // ---- Printing --------------------------------------------------------------------------

  function Big16(n: nat): (s: seq<Byte>)
    requires n < 65536
    ensures |s| == 2
  {
    [n / 256, n % 256]
  }

  ghost function PrintCoeffs(q: QuantSpec): seq<Byte>
    requires ValidQuant(q)
  {
    if q.wide then
      seq(128, j requires 0 <= j < 128 => if j % 2 == 0 then q.coeffs[j / 2] / 256 else q.coeffs[j / 2] % 256)
    else
      seq(64, j requires 0 <= j < 64 => q.coeffs[j])
  }

  ghost function PrintQuant(q: QuantSpec): seq<Byte>
    requires ValidQuant(q)
  {
    [(if q.wide then 16 else 0) + q.tq] + PrintCoeffs(q)
  }

  ghost function PrintQuants(qs: seq<QuantSpec>): seq<Byte>
    requires AllQuants(qs)
  {
    if qs == [] then [] else PrintQuant(qs[0]) + PrintQuants(qs[1..])
  }

  ghost function PrintHuff(t: HuffSpec): seq<Byte>
    requires ValidHuff(t)
  {
    [t.tc * 16 + t.th] + t.bits + t.values
  }

  ghost function PrintHuffs(ts: seq<HuffSpec>): seq<Byte>
    requires AllHuffs(ts)
  {
    if ts == [] then [] else PrintHuff(ts[0]) + PrintHuffs(ts[1..])
  }

  ghost function PrintComp(c: CompSpec): (s: seq<Byte>)
    requires ValidComp(c)
    ensures |s| == 3
  {
    [c.id, c.h * 16 + c.v, c.tq]
  }

  ghost function PrintComps(cs: seq<CompSpec>): (s: seq<Byte>)
    requires forall k :: 0 <= k < |cs| ==> ValidComp(cs[k])
    ensures |s| == 3 * |cs|
  {
    if cs == [] then [] else PrintComp(cs[0]) + PrintComps(cs[1..])
  }

  ghost function PrintScanComp(c: ScanComp): (s: seq<Byte>)
    requires c.td < 16 && c.ta < 16
    ensures |s| == 2
  {
    [c.id, c.td * 16 + c.ta]
  }

  ghost function PrintScanComps(cs: seq<ScanComp>): (s: seq<Byte>)
    requires forall k :: 0 <= k < |cs| ==> cs[k].td < 16 && cs[k].ta < 16
    ensures |s| == 2 * |cs|
  {
    if cs == [] then [] else PrintScanComp(cs[0]) + PrintScanComps(cs[1..])
  }

  ghost function MarkerOf(s: Segment): Byte {
    match s
    case Skipped(marker, _) => marker
    case Quant(_) => 0xDB
    case Huff(_) => 0xC4
    case Restart(_) => 0xDD
    case Frame(progressive, _, _, _, _) => if progressive then 0xC2 else 0xC0
  }

  ghost function Body(s: Segment): seq<Byte>
    requires ValidBody(s)
  {
    match s
    case Skipped(_, body) => body
    case Quant(qs) => PrintQuants(qs)
    case Huff(ts) => PrintHuffs(ts)
    case Restart(interval) => Big16(interval)
    case Frame(_, precision, height, width, comps) =>
      [precision] + Big16(height) + Big16(width) + [|comps|] + PrintComps(comps)
  }

  ghost function PrintMarked(marker: Byte, body: seq<Byte>): seq<Byte>
    requires |body| + 2 < 65536
  {
    [0xFF, marker] + Big16(|body| + 2) + body
  }

  ghost function PrintSegment(s: Segment): seq<Byte>
    requires ValidSegment(s)
  {
    PrintMarked(MarkerOf(s), Body(s))
  }

  ghost function FillBytes(n: nat): seq<Byte> {
    Repeat(n, 0xFF)
  }

  ghost function PrintItems(items: seq<Item>): seq<Byte>
    requires ValidItems(items)
  {
    if items == [] then []
    else FillBytes(items[0].fill) + PrintSegment(items[0].segment) + PrintItems(items[1..])
  }

  ghost function ScanBody(s: Scan): (b: seq<Byte>)
    requires ValidScan(s)
    ensures |b| == 4 + 2 * |s.comps|
  {
    [|s.comps|] + PrintScanComps(s.comps) + s.spectral
  }

  ghost function Print(img: Image): seq<Byte>
    requires ValidImage(img)
  {
    FillBytes(img.soiFill) + [0xFF, 0xD8] + PrintItems(img.items) + FillBytes(img.scanFill)
    + PrintMarked(0xDA, ScanBody(img.scan))
  }

  // ---- What a header means ---------------------------------------------------------------

  ghost function ApplyQuant(h: Header, q: QuantSpec): Header
    requires ValidQuant(q)
  {
    h.(quant := h.quant.Set(q.tq, q.coeffs), quantCount := if q.tq >= h.quantCount then q.tq + 1 else h.quantCount)
  }

  ghost function ApplyQuants(h: Header, qs: seq<QuantSpec>): Header
    requires AllQuants(qs)
    decreases qs
  {
    if qs == [] then h else ApplyQuants(ApplyQuant(h, qs[0]), qs[1..])
  }

  /** The values of a table, with whatever an older table left beyond them. */
  ghost function TableOf(t: HuffSpec, older: Table): Table
    requires ValidHuff(t)
  {
    Table(t.bits, seq(256, j requires 0 <= j < 256 => if j < |t.values| then t.values[j] else At(older.values, j)), |t.values|)
  }

  ghost function ApplyHuff(h: Header, t: HuffSpec): Header
    requires ValidHuff(t)
  {
    var slot := HuffSlot(t.tc, t.th);
    h.(huff := h.huff.Set(slot, TableOf(t, h.huff.Get(slot))))
  }

  ghost function ApplyHuffs(h: Header, ts: seq<HuffSpec>): Header
    requires AllHuffs(ts)
    decreases ts
  {
    if ts == [] then h else ApplyHuffs(ApplyHuff(h, ts[0]), ts[1..])
  }

  ghost function SamplingOf(cs: seq<CompSpec>): Three<(nat, nat)>
    requires |cs| == 3
  {
    Three((cs[0].h, cs[0].v), (cs[1].h, cs[1].v), (cs[2].h, cs[2].v))
  }

  ghost function Apply(h: Header, s: Segment): Header
    requires ValidSegment(s)
  {
    match s
    case Skipped(_, _) => h
    case Quant(qs) => ApplyQuants(h, qs)
    case Huff(ts) => ApplyHuffs(h, ts)
    case Restart(interval) => h.(restartInterval := interval)
    case Frame(_, _, height, width, cs) =>
      var h1 := h.(height := height, width := width, numComponents := |cs|);
      if |cs| == 3 then
        h1.(sampling := SamplingOf(cs), format := FormatOf(SamplingOf(cs)), quantSel := Three(cs[0].tq, cs[1].tq, cs[2].tq))
      else
        h1.(sampling := Three((1, 1), (1, 1), (1, 1)), format := FORMAT_400)
  }

  ghost function ApplyItems(h: Header, items: seq<Item>): Header
    requires ValidItems(items)
    decreases items
  {
    if items == [] then h else ApplyItems(Apply(h, items[0].segment), items[1..])
  }

  ghost function ApplyScan(h: Header, s: Scan, length: nat): Header
    requires ValidScan(s)
  {
    var cs := s.comps;
    h.(dcHuff := Three(if |cs| > 0 then cs[0].td else h.dcHuff.a, if |cs| > 1 then cs[1].td else h.dcHuff.b,
                       if |cs| > 2 then cs[2].td else h.dcHuff.c),
       acHuff := Three(if |cs| > 0 then cs[0].ta else h.acHuff.a, if |cs| > 1 then cs[1].ta else h.acHuff.b,
                       if |cs| > 2 then cs[2].ta else h.acHuff.c),
       ecsOffset := length)
  }

  /** The record that the header stands for. */
  ghost function Meaning(img: Image): Header
    requires ValidImage(img)
  {
    ApplyScan(ApplyItems(Initial(), img.items), img.scan, |Print(img)|)
  }

  // ---- Tables ----------------------------------------------------------------------------

  lemma CoeffsParsed(data: seq<Byte>, off: nat, q: QuantSpec, prev: seq<nat>)
    requires ValidQuant(q) && HasAt(data, off, PrintCoeffs(q))
    ensures (if q.wide then Overlay16(64, prev, data, off) else Overlay(64, prev, data, off, 64)) == q.coeffs
  {
    if q.wide {
      forall j | 0 <= j < 64
        ensures off + 2 * j + 1 < |data| && Be16(data, off + 2 * j) == q.coeffs[j]
      {
        assert data[off + 2 * j] == PrintCoeffs(q)[2 * j];
        assert data[off + (2 * j + 1)] == PrintCoeffs(q)[2 * j + 1];
      }
      assert Overlay16(64, prev, data, off) == q.coeffs;
    } else {
      forall j | 0 <= j < 64
        ensures off + j < |data| && data[off + j] == q.coeffs[j]
      {
        ElementAt(data, off, PrintCoeffs(q), j);
      }
      assert Overlay(64, prev, data, off, 64) == q.coeffs;
    }
  }

  lemma QuantParsed(data: seq<Byte>, off: nat, q: QuantSpec, prev: seq<nat>)
    requires ValidQuant(q) && HasAt(data, off, PrintQuant(q))
    ensures off + 1 < |data| && !QuantPanics(data, off)
    ensures data[off] % 16 == q.tq && QuantLength(data[off]) == |PrintQuant(q)|
    ensures ReadQuant(prev, data, off) == q.coeffs
  {
    var pqTq: Byte := (if q.wide then 16 else 0) + q.tq;
    SplitAt(data, off, [pqTq], PrintCoeffs(q));
    ElementAt(data, off, [pqTq], 0);
    CoeffsParsed(data, off + 1, q, prev);
  }

  lemma {:induction false} QuantsParsed(data: seq<Byte>, off: nat, qs: seq<QuantSpec>, end: nat, h: Header)
    requires AllQuants(qs)
    requires HasAt(data, off, PrintQuants(qs)) && end == off + |PrintQuants(qs)|
    ensures DqtUpdate(data, off, end, h) == Parsed(ApplyQuants(h, qs))
    decreases qs
  {
    if qs != [] {
      SplitAt(data, off, PrintQuant(qs[0]), PrintQuants(qs[1..]));
      QuantParsed(data, off, qs[0], h.quant.Get(qs[0].tq));
      QuantsParsed(data, off + |PrintQuant(qs[0])|, qs[1..], end, ApplyQuant(h, qs[0]));
    }
  }

  lemma {:induction false} SumIsPrior(data: seq<Byte>, off: nat, bits: seq<Byte>, n: nat)
    requires n <= |bits| && HasAt(data, off, bits)
    ensures SumBytes(data, off, off + n) == Prior(bits, n)
  {
    if n > 0 {
      SumIsPrior(data, off, bits, n - 1);
      assert data[off + (n - 1)] == bits[n - 1];
    }
  }

  lemma HuffPieces(data: seq<Byte>, off: nat, t: HuffSpec)
    requires ValidHuff(t) && HasAt(data, off, PrintHuff(t))
    ensures off + 17 <= |data| && |PrintHuff(t)| == 17 + |t.values|
    ensures data[off] / 16 == t.tc && data[off] % 16 == t.th
    ensures HasAt(data, off + 1, t.bits) && HasAt(data, off + 17, t.values)
  {
    SplitAt(data, off, [t.tc * 16 + t.th] + t.bits, t.values);
    SplitAt(data, off, [t.tc * 16 + t.th], t.bits);
    ElementAt(data, off, [t.tc * 16 + t.th], 0);
  }

  /** A buffer read over from bytes that stand in the data. */
  lemma Overlaid(size: nat, prev: seq<nat>, data: seq<Byte>, off: nat, s: seq<Byte>)
    requires HasAt(data, off, s) && |s| <= size
    ensures Overlay(size, prev, data, off, |s|) == seq(size, j requires 0 <= j < size => if j < |s| then s[j] else At(prev, j))
    ensures |s| == size ==> Overlay(size, prev, data, off, |s|) == s
  {
    forall j | 0 <= j < |s| ensures off + j < |data| && data[off + j] == s[j] {
      ElementAt(data, off, s, j);
    }
  }

  lemma HuffParsed(data: seq<Byte>, off: nat, t: HuffSpec, older: Table)
    requires ValidHuff(t) && HasAt(data, off, PrintHuff(t))
    ensures off + 1 < |data| && !TablePanics(data, off)
    ensures data[off] / 16 == t.tc && data[off] % 16 == t.th
    ensures 17 + SumBytes(data, off + 1, off + 17) == |PrintHuff(t)|
    ensures ReadTable(older, data, off) == TableOf(t, older)
  {
    hide SumBytes, Prior, HasAt, PrintHuff;
    HuffPieces(data, off, t);
    SumIsPrior(data, off + 1, t.bits, |t.bits|);
    Overlaid(LENGTHS, older.bits, data, off + 1, t.bits);
    Overlaid(256, older.values, data, off + 17, t.values);
  }

  lemma HuffStep(data: seq<Byte>, off: nat, t: HuffSpec, h: Header)
    requires ValidHuff(t) && HasAt(data, off, PrintHuff(t))
    ensures off + 1 < |data| && !TablePanics(data, off)
    ensures 17 + SumBytes(data, off + 1, off + 17) == |PrintHuff(t)|
    ensures DhtStep(data, off, h) == ApplyHuff(h, t)
  {
    HuffParsed(data, off, t, h.huff.Get(HuffSlot(t.tc, t.th)));
  }

  lemma {:induction false} HuffsParsed(data: seq<Byte>, off: nat, ts: seq<HuffSpec>, end: nat, h: Header)
    requires AllHuffs(ts) && HasAt(data, off, PrintHuffs(ts)) && end == off + |PrintHuffs(ts)|
    ensures DhtUpdate(data, off, end, h) == Parsed(ApplyHuffs(h, ts))
    decreases ts
  {
    hide SumBytes, PrintHuff, DhtStep, ApplyHuff, TablePanics, HasAt;
    if ts != [] {
      SplitAt(data, off, PrintHuff(ts[0]), PrintHuffs(ts[1..]));
      HuffStep(data, off, ts[0], h);
      HuffsParsed(data, off + |PrintHuff(ts[0])|, ts[1..], end, ApplyHuff(h, ts[0]));
    }
  }

  // ---- Segments --------------------------------------------------------------------------

  /** The marker, the length field and the body of a segment that stands at i. */
  lemma Marked(data: seq<Byte>, i: nat, marker: Byte, body: seq<Byte>)
    requires |body| + 2 < 65536 && HasAt(data, i, PrintMarked(marker, body))
    ensures i + 3 < |data| && data[i] == 0xFF && data[i + 1] == marker
    ensures Be16(data, i + 2) == |body| + 2 && |PrintMarked(marker, body)| == 4 + |body|
    ensures HasAt(data, i + 4, body)
  {
    var head := [0xFF, marker] + Big16(|body| + 2);
    SplitAt(data, i, head, body);
    assert data[i + 0] == head[0] && data[i + 1] == head[1] && data[i + 2] == head[2] && data[i + 3] == head[3];
  }

  lemma {:induction false} CompsAt(data: seq<Byte>, off: nat, cs: seq<CompSpec>, c: nat)
    requires (forall k :: 0 <= k < |cs| ==> ValidComp(cs[k])) && HasAt(data, off, PrintComps(cs)) && c < |cs|
    ensures off + 3 * c + 2 < |data|
    ensures data[off + 3 * c + 1] / 16 == cs[c].h && data[off + 3 * c + 1] % 16 == cs[c].v && data[off + 3 * c + 2] == cs[c].tq
    decreases cs
  {
    var head := PrintComp(cs[0]);
    SplitAt(data, off, head, PrintComps(cs[1..]));
    if c == 0 {
      assert data[off + 1] == head[1] && data[off + 2] == head[2];
    } else {
      CompsAt(data, off + 3, cs[1..], c - 1);
    }
  }

  lemma FrameStep(data: seq<Byte>, i: nat, h: Header, s: Segment)
    requires s.Frame? && ValidSegment(s) && HasAt(data, i, PrintSegment(s)) && i + |PrintSegment(s)| < |data|
    ensures i + 1 < |data| && StepAt(data, i, h) == Goto(i + |PrintSegment(s)|, Apply(h, s))
  {
    Marked(data, i, MarkerOf(s), Body(s));
    var head := [s.precision] + Big16(s.height) + Big16(s.width) + [|s.comps|];
    SplitAt(data, i + 4, head, PrintComps(s.comps));
    assert data[i + 4 + 1] == head[1] && data[i + 4 + 2] == head[2] && data[i + 4 + 3] == head[3]
        && data[i + 4 + 4] == head[4] && data[i + 4 + 5] == head[5];
    if |s.comps| == 3 {
      CompsAt(data, i + 10, s.comps, 0);
      CompsAt(data, i + 10, s.comps, 1);
      CompsAt(data, i + 10, s.comps, 2);
    }
  }

  lemma TablesStep(data: seq<Byte>, i: nat, h: Header, s: Segment)
    requires (s.Quant? || s.Huff?) && ValidSegment(s) && HasAt(data, i, PrintSegment(s))
    ensures i + 1 < |data| && StepAt(data, i, h) == Goto(i + |PrintSegment(s)|, Apply(h, s))
  {
    hide HasAt, DqtUpdate, DhtUpdate, ApplyQuants, ApplyHuffs, PrintQuants, PrintHuffs;
    Marked(data, i, MarkerOf(s), Body(s));
    var next := i + 2 + Be16(data, i + 2);
    if s.Quant? {
      QuantsParsed(data, i + 4, s.quants, next, h);
      assert StepAt(data, i, h) == AfterTables(next, DqtUpdate(data, i + 4, next, h));
    } else {
      HuffsParsed(data, i + 4, s.huffs, next, h);
      assert StepAt(data, i, h) == AfterTables(next, DhtUpdate(data, i + 4, next, h));
    }
  }

  lemma OtherStep(data: seq<Byte>, i: nat, h: Header, s: Segment)
    requires (s.Skipped? || s.Restart?) && ValidSegment(s) && HasAt(data, i, PrintSegment(s))
    ensures i + 1 < |data| && StepAt(data, i, h) == Goto(i + |PrintSegment(s)|, Apply(h, s))
  {
    Marked(data, i, MarkerOf(s), Body(s));
    if s.Restart? {
      assert data[i + 4 + 0] == Big16(s.interval)[0] && data[i + 4 + 1] == Big16(s.interval)[1];
    }
  }

  /** A segment at i takes the parser to its end, with the record changed as it says. */
  lemma SegmentStep(data: seq<Byte>, i: nat, h: Header, s: Segment)
    requires ValidSegment(s) && HasAt(data, i, PrintSegment(s)) && i + |PrintSegment(s)| < |data|
    ensures i + 1 < |data| && StepAt(data, i, h) == Goto(i + |PrintSegment(s)|, Apply(h, s))
  {
    if s.Frame? {
      FrameStep(data, i, h, s);
    } else if s.Quant? || s.Huff? {
      TablesStep(data, i, h, s);
    } else {
      OtherStep(data, i, h, s);
    }
  }

  lemma {:induction false} FillParsed(data: seq<Byte>, i: nat, n: nat, h: Header)
    requires HasAt(data, i, FillBytes(n)) && i + n + 1 < |data| && data[i + n] == 0xFF
    ensures ParseFrom(data, i, h) == ParseFrom(data, i + n, h)
    decreases n
  {
    if n > 0 {
      assert data[i + 0] == FillBytes(n)[0];
      assert n > 1 ==> data[i + 1] == FillBytes(n)[1];
      assert FillBytes(n) == [0xFF] + FillBytes(n - 1);
      SplitAt(data, i, [0xFF], FillBytes(n - 1));
      FillParsed(data, i + 1, n - 1, h);
    }
  }

  lemma FilledSegment(data: seq<Byte>, i: nat, item: Item, h: Header)
    requires ValidSegment(item.segment)
    requires HasAt(data, i, FillBytes(item.fill) + PrintSegment(item.segment))
    requires i + item.fill + |PrintSegment(item.segment)| < |data|
    ensures ParseFrom(data, i, h)
            == ParseFrom(data, i + item.fill + |PrintSegment(item.segment)|, Apply(h, item.segment))
  {
    hide StepAt, ParseFrom, Apply, ValidBody, HasAt, FillBytes;
    var here := i + item.fill;
    FillLength(item.fill);
    SplitAt(data, i, FillBytes(item.fill), PrintSegment(item.segment));
    Marked(data, here, MarkerOf(item.segment), Body(item.segment));
    FillParsed(data, i, item.fill, h);
    SegmentStep(data, here, h, item.segment);
    OneRound(data, here, h);
  }

  lemma FillLength(n: nat)
    ensures |FillBytes(n)| == n
  {
  }

  lemma OneRound(data: seq<Byte>, i: nat, h: Header)
    requires i + 1 < |data| && StepAt(data, i, h).Goto?
    ensures ParseFrom(data, i, h) == ParseFrom(data, StepAt(data, i, h).next, StepAt(data, i, h).header)
  {
    hide StepAt;
  }

  lemma {:induction false} ItemsParsed(data: seq<Byte>, i: nat, items: seq<Item>, h: Header)
    requires ValidItems(items) && HasAt(data, i, PrintItems(items)) && i + |PrintItems(items)| < |data|
    ensures ParseFrom(data, i, h) == ParseFrom(data, i + |PrintItems(items)|, ApplyItems(h, items))
    decreases items
  {
    hide StepAt;
    if items != [] {
      var first := FillBytes(items[0].fill) + PrintSegment(items[0].segment);
      SplitAt(data, i, first, PrintItems(items[1..]));
      var rest, h1 := items[1..], Apply(h, items[0].segment);
      calc {
        ParseFrom(data, i, h);
        { FilledSegment(data, i, items[0], h); }
        ParseFrom(data, i + |first|, h1);
        { ItemsParsed(data, i + |first|, rest, h1); }
        ParseFrom(data, i + |first| + |PrintItems(rest)|, ApplyItems(h1, rest));
        ParseFrom(data, i + |PrintItems(items)|, ApplyItems(h, items));
      }
    }
  }

  lemma {:induction false} ScanCompsAt(data: seq<Byte>, off: nat, cs: seq<ScanComp>, c: nat)
    requires forall k :: 0 <= k < |cs| ==> cs[k].td < 16 && cs[k].ta < 16
    requires HasAt(data, off, PrintScanComps(cs)) && c < |cs|
    ensures off + 2 * c + 1 < |data|
    ensures data[off + 2 * c + 1] / 16 == cs[c].td && data[off + 2 * c + 1] % 16 == cs[c].ta
    decreases cs
  {
    var head := PrintScanComp(cs[0]);
    SplitAt(data, off, head, PrintScanComps(cs[1..]));
    if c == 0 {
      assert data[off + 1] == head[1];
    } else {
      ScanCompsAt(data, off + 2, cs[1..], c - 1);
    }
  }

  lemma ScanParsed(data: seq<Byte>, i: nat, h: Header, s: Scan)
    requires ValidScan(s) && HasAt(data, i, PrintMarked(0xDA, ScanBody(s)))
    ensures ParseFrom(data, i, h) == Parsed(ApplyScan(h, s, i + |PrintMarked(0xDA, ScanBody(s))|))
  {
    Marked(data, i, 0xDA, ScanBody(s));
    assert ScanBody(s) == [|s.comps|] + (PrintScanComps(s.comps) + s.spectral);
    assert data[i + 4 + 0] == ScanBody(s)[0];
    SplitAt(data, i + 4, [|s.comps|], PrintScanComps(s.comps) + s.spectral);
    SplitAt(data, i + 5, PrintScanComps(s.comps), s.spectral);
    forall c | 0 <= c < 3 && c < |s.comps|
      ensures ScanComponentRead(data, i, c)
      ensures data[i + 6 + 2 * c] / 16 == s.comps[c].td && data[i + 6 + 2 * c] % 16 == s.comps[c].ta
    {
      ScanCompsAt(data, i + 5, s.comps, c);
    }
  }

  lemma ScanAfterFill(data: seq<Byte>, i: nat, h: Header, fill: nat, s: Scan)
    requires ValidScan(s) && HasAt(data, i, FillBytes(fill) + PrintMarked(0xDA, ScanBody(s)))
    ensures ParseFrom(data, i, h) == Parsed(ApplyScan(h, s, i + fill + |PrintMarked(0xDA, ScanBody(s))|))
  {
    hide ParseFrom, ApplyScan, HasAt, FillBytes, ScanBody;
    FillLength(fill);
    SplitAt(data, i, FillBytes(fill), PrintMarked(0xDA, ScanBody(s)));
    Marked(data, i + fill, 0xDA, ScanBody(s));
    FillParsed(data, i, fill, h);
    ScanParsed(data, i + fill, h, s);
  }

  lemma StartOfImage(data: seq<Byte>, fill: nat, h: Header)
    requires HasAt(data, 0, FillBytes(fill) + [0xFF, 0xD8])
    ensures ParseFrom(data, 0, h) == ParseFrom(data, fill + 2, h)
  {
    SplitAt(data, 0, FillBytes(fill), [0xFF, 0xD8]);
    ElementAt(data, fill, [0xFF, 0xD8], 0);
    ElementAt(data, fill, [0xFF, 0xD8], 1);
    FillParsed(data, 0, fill, h);
  }

  /** Round trip: the parser reads back the meaning of every printed header, whatever follows it. */
  lemma HeaderRoundTrip(img: Image, rest: seq<Byte>)
    requires ValidImage(img)
    ensures Parse(Print(img) + rest) == Parsed(Meaning(img))
    ensures Meaning(img).ecsOffset == |Print(img)|
  {
    hide ParseFrom, Apply, ApplyItems, PrintItems;
    var data := Print(img) + rest;
    var soi, items := FillBytes(img.soiFill) + [0xFF, 0xD8], PrintItems(img.items);
    var scan := FillBytes(img.scanFill) + PrintMarked(0xDA, ScanBody(img.scan));
    assert Print(img) == soi + items + scan;
    assert HasAt(data, 0, soi + items + scan);
    SplitAt(data, 0, soi + items, scan);
    SplitAt(data, 0, soi, items);
    StartOfImage(data, img.soiFill, Initial());
    ItemsParsed(data, |soi|, img.items, Initial());
    ScanAfterFill(data, |soi| + |items|, ApplyItems(Initial(), img.items), img.scanFill, img.scan);
  }
}
