/**
 What the JPEG header parser does, on values: how a marker is sorted, what each segment does to the
 header record, and the loop over them. JpegParser runs it in place; JpegPrinter says what it means.
 */
module JpegHeader {
  import opened Arith
  import opened Huffman

  const FORMAT_420: nat := 0
  const FORMAT_422: nat := 1
  const FORMAT_224: nat := 2
  const FORMAT_444: nat := 3
  const FORMAT_400: nat := 4

  datatype Marker =
    Fill | Stuffing | Soi | Eoi | Sof | Dht | Sos | Dqt | Dri | OtherWithLength | Other

  /** Table B.1 of ITU-T T.81, as the parser sorts it. SOF0 and SOF2 are handled alike. */
  function Classify(b: Byte): Marker {
    if b == 0xFF then Fill
    else if b == 0x00 then Stuffing
    else if b == 0xD8 then Soi
    else if b == 0xD9 then Eoi
    else if b == 0xC0 || b == 0xC2 then Sof
    else if b == 0xC4 then Dht
    else if b == 0xDA then Sos
    else if b == 0xDB then Dqt
    else if b == 0xDD then Dri
    else if b >= 0xC0 then OtherWithLength
    else Other
  }

  function HuffSlot(tc: nat, th: nat): nat {
    (th % 2) * 2 + tc % 2
  }

  function Be16(data: seq<Byte>, off: nat): nat
    requires off + 1 < |data|
  {
    data[off] as nat * 256 + data[off + 1] as nat
  }

  /** A fixed array of three or of four, as a value. */
  datatype Three<T> = Three(a: T, b: T, c: T)

  datatype Four<T> = Four(a: T, b: T, c: T, d: T) {
    function Get(k: nat): T
      requires k < 4
    {
      if k == 0 then a else if k == 1 then b else if k == 2 then c else d
    }

    function Set(k: nat, v: T): Four<T>
      requires k < 4
    {
      if k == 0 then this.(a := v) else if k == 1 then this.(b := v) else if k == 2 then this.(c := v) else this.(d := v)
    }
  }

  /** The header record as a value. */
  datatype Header = Header(
    width: nat, height: nat, numComponents: nat, sampling: Three<(nat, nat)>, format: nat,
    ecsOffset: nat, restartInterval: nat, dcHuff: Three<nat>, acHuff: Three<nat>, quantSel: Three<nat>,
    huff: Four<Table>, quant: Four<seq<nat>>, quantCount: nat)

  function Initial(): Header {
    var t, q := EmptyTable(), Repeat(64, 0);
    Header(0, 0, 0, Three((2, 2), (1, 1), (1, 1)), FORMAT_420, 0, 0, Three(0, 0, 0), Three(0, 0, 0), Three(0, 0, 0),
           Four(t, t, t, t), Four(q, q, q, q), 0)
  }

  /** How a parse ends. `Panic` is an array index out of range, which stops the firmware. */
  datatype Outcome = Parsed(header: Header) | Failed(error: string) | Panic

  // ---- What each segment does to the record ----------------------------------------------

  /** Entry j of a buffer. */
  function At(s: seq<nat>, j: nat): nat {
    if j < |s| then s[j] else 0
  }

  /** A buffer of `size` entries, the first n read from `data` at `off` as far as the data goes, the others as in `prev`. */
  function Overlay(size: nat, prev: seq<nat>, data: seq<Byte>, off: nat, n: nat): seq<nat> {
    seq(size, j requires 0 <= j < size => if j < n && off + j < |data| then data[off + j] else At(prev, j))
  }

  function Overlay16(size: nat, prev: seq<nat>, data: seq<Byte>, off: nat): seq<nat> {
    seq(size, j requires 0 <= j < size => if off + 2 * j + 1 < |data| then Be16(data, off + 2 * j) else At(prev, j))
  }

  /** The sum of the bytes of data[lo..hi], as far as the data goes. */
  function SumBytes(data: seq<Byte>, lo: nat, hi: nat): nat
    requires lo <= hi
    decreases hi - lo
  {
    if lo == hi then 0
    else SumBytes(data, lo, hi - 1) + if hi - 1 < |data| then data[hi - 1] else 0
  }

  /** One table of a DHT segment, read over an older table. */
  function ReadTable(t: Table, data: seq<Byte>, off: nat): Table
  {
    var n := SumBytes(data, off + 1, off + 17);
    Table(Overlay(LENGTHS, t.bits, data, off + 1, LENGTHS), Overlay(256, t.values, data, off + 17, n), n)
  }

  /** More than 256 values with the 257th present is an index out of range. */
  predicate TablePanics(data: seq<Byte>, off: nat) {
    SumBytes(data, off + 1, off + 17) > 256 && off + 17 + 256 < |data|
  }

  /** The record with the table at `off` read into its slot. */
  function DhtStep(data: seq<Byte>, off: nat, h: Header): Header
    requires off < |data|
  {
    var slot := HuffSlot(data[off] / 16, data[off] % 16);
    h.(huff := h.huff.Set(slot, ReadTable(h.huff.Get(slot), data, off)))
  }

  function DhtUpdate(data: seq<Byte>, off: nat, end: nat, h: Header): (r: Outcome)
    ensures !r.Failed?
    decreases end - off
  {
    if off >= end || off + 1 >= |data| then Parsed(h)
    else if TablePanics(data, off) then Panic
    else
      DhtUpdate(data, off + 17 + SumBytes(data, off + 1, off + 17), end, DhtStep(data, off, h))
  }

  function ReadQuant(prev: seq<nat>, data: seq<Byte>, off: nat): seq<nat>
    requires off < |data|
  {
    if data[off] / 16 == 0 then Overlay(64, prev, data, off + 1, 64) else Overlay16(64, prev, data, off + 1)
  }

  function QuantLength(pqTq: Byte): nat {
    if pqTq / 16 == 0 then 65 else 129
  }

  /** A table number of 4 or more is out of range as soon as one coefficient is present. */
  predicate QuantPanics(data: seq<Byte>, off: nat)
    requires off + 1 < |data|
  {
    data[off] % 16 >= 4 && (data[off] / 16 == 0 || off + 2 < |data|)
  }

  /** The record with the quantisation table at `off` read in. */
  function DqtStep(data: seq<Byte>, off: nat, h: Header): Header
    requires off < |data|
  {
    var tq := data[off] % 16;
    h.(quant := if tq < 4 then h.quant.Set(tq, ReadQuant(h.quant.Get(tq), data, off)) else h.quant,
       quantCount := if tq >= h.quantCount then tq + 1 else h.quantCount)
  }

  function DqtUpdate(data: seq<Byte>, off: nat, end: nat, h: Header): (r: Outcome)
    ensures !r.Failed?
    decreases end - off
  {
    if off >= end || off + 1 >= |data| then Parsed(h)
    else if QuantPanics(data, off) then Panic
    else
      DqtUpdate(data, off + QuantLength(data[off]), end, DqtStep(data, off, h))
  }

  function FormatOf(s: Three<(nat, nat)>): nat {
    if s.a == (2, 2) && s.b == (1, 1) then FORMAT_420
    else if s.a == (2, 1) then FORMAT_422
    else if s.a == (1, 2) then FORMAT_224
    else FORMAT_444
  }

  /** (h, v) of the component entry whose sampling byte is at `off`. */
  function SamplingAt(data: seq<Byte>, off: nat): (nat, nat)
    requires off < |data|
  {
    (data[off] / 16, data[off] % 16)
  }

  function SofUpdate(data: seq<Byte>, i: nat, h: Header): Header
    requires i + 10 < |data|
  {
    var h1 := h.(height := Be16(data, i + 5), width := Be16(data, i + 7), numComponents := data[i + 9]);
    if data[i + 9] != 3 then
      h1.(sampling := Three((1, 1), (1, 1), (1, 1)), format := FORMAT_400)
    else if i + 19 <= |data| then
      var sampling := Three(SamplingAt(data, i + 11), SamplingAt(data, i + 14), SamplingAt(data, i + 17));
      h1.(sampling := sampling, quantSel := Three(data[i + 12], data[i + 15], data[i + 18]), format := FormatOf(sampling))
    else h1
  }

  /** Component c of the scan header at i is present and is one the record has room for. */
  predicate ScanComponentRead(data: seq<Byte>, i: nat, c: nat) {
    i + 5 < |data| && c < data[i + 4] && c < 3 && i + 7 + 2 * c <= |data|
  }

  /** The table selectors of scan component c, or the old ones. */
  function DcAt(data: seq<Byte>, i: nat, c: nat, prev: nat): nat {
    if ScanComponentRead(data, i, c) then data[i + 6 + 2 * c] / 16 else prev
  }

  function AcAt(data: seq<Byte>, i: nat, c: nat, prev: nat): nat {
    if ScanComponentRead(data, i, c) then data[i + 6 + 2 * c] % 16 else prev
  }

  function SosUpdate(data: seq<Byte>, i: nat, h: Header): Header
    requires i + 3 < |data|
  {
    h.(dcHuff := Three(DcAt(data, i, 0, h.dcHuff.a), DcAt(data, i, 1, h.dcHuff.b), DcAt(data, i, 2, h.dcHuff.c)),
       acHuff := Three(AcAt(data, i, 0, h.acHuff.a), AcAt(data, i, 1, h.acHuff.b), AcAt(data, i, 2, h.acHuff.c)),
       ecsOffset := i + 2 + Be16(data, i + 2))
  }

  function DriUpdate(data: seq<Byte>, i: nat, h: Header): Header {
    if i + 6 <= |data| then h.(restartInterval := Be16(data, i + 4)) else h
  }

  /** One round of the parser's loop: on to a later byte with a new record, or an end. */
  datatype Step = Goto(next: nat, header: Header) | Stop(outcome: Outcome)

  function AfterTables(next: nat, r: Outcome): Step {
    if r.Parsed? then Goto(next, r.header) else Stop(r)
  }

  function StepAt(data: seq<Byte>, i: nat, h: Header): (s: Step)
    requires i + 1 < |data|
    ensures s.Goto? ==> s.next > i
  {
    if data[i] != 0xFF then Goto(i + 1, h)
    else
      match Classify(data[i + 1])
      case Fill => Goto(i + 1, h)
      case Stuffing | Soi | Other => Goto(i + 2, h)
      case Eoi => Stop(Failed("SOS not found"))
      case OtherWithLength =>
        if i + 3 >= |data| then Goto(i + 2, h) else Goto(i + 2 + Be16(data, i + 2), h)
      case Sof =>
        if i + 10 >= |data| then Stop(Failed("SOF too short"))
        else Goto(i + 2 + Be16(data, i + 2), SofUpdate(data, i, h))
      case Dri =>
        if i + 3 >= |data| then Goto(i + 1, DriUpdate(data, i, h))
        else Goto(i + 2 + Be16(data, i + 2), DriUpdate(data, i, h))
      case Dht =>
        if i + 3 >= |data| then Goto(i + 1, h)
        else AfterTables(i + 2 + Be16(data, i + 2), DhtUpdate(data, i + 4, i + 2 + Be16(data, i + 2), h))
      case Dqt =>
        if i + 3 >= |data| then Goto(i + 1, h)
        else AfterTables(i + 2 + Be16(data, i + 2), DqtUpdate(data, i + 4, i + 2 + Be16(data, i + 2), h))
      case Sos =>
        if i + 3 >= |data| then Goto(i + 1, h) else Stop(Parsed(SosUpdate(data, i, h)))
  }

  /** The rest of the parse from byte i with the record as it stands. */
  function ParseFrom(data: seq<Byte>, i: nat, h: Header): Outcome
    decreases |data| - i
  {
    if i + 1 >= |data| then Failed("SOS not found")
    else
      match StepAt(data, i, h)
      case Goto(next, h') => ParseFrom(data, next, h')
      case Stop(outcome) => outcome
  }

  function Parse(data: seq<Byte>): Outcome {
    ParseFrom(data, 0, Initial())
  }
}
