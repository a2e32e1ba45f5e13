/**
 From the printed tables to the unit: it receives the arrays and values of DC 0, DC 1, AC 0 and AC 1 as they
 were printed last, word by word.
 */
module JpuPrinted {
  import opened Arith
  import opened Huffman
  import opened JpegHeader
  import opened JpegPrinter
  import opened JpegMeaning
  import opened JpegTables
  import opened JpuUpload
  import opened JpuMeaning
  import opened Wrappers

  // ---- What the unit receives ----------------------------------------------------------------------

  /** The tables as the unit takes them. */
  datatype Printed = Printed(dc0: HuffSpec, dc1: HuffSpec, ac0: HuffSpec, ac1: HuffSpec) {
    function Get(k: nat): HuffSpec
      requires k < 4
    {
      if k == 0 then dc0 else if k == 1 then dc1 else if k == 2 then ac0 else ac1
    }
  }

  ghost predicate PrintedLast(img: Image, ps: Printed) {
    && LastPrinted(img.items, Named(0, 0)) == Some(ps.dc0) && LastPrinted(img.items, Named(0, 1)) == Some(ps.dc1)
    && LastPrinted(img.items, Named(1, 0)) == Some(ps.ac0) && LastPrinted(img.items, Named(1, 1)) == Some(ps.ac1)
  }

  /** Table k fits its room: 12 values of at most 12 bits for DC, 162 for AC. */
  ghost predicate Fits(d: HuffSpec, k: nat) {
    && ValidHuff(d) && Usable(d.bits)
    && if k < 2 then |d.values| <= 12 && d.bits[12] == d.bits[13] == d.bits[14] == d.bits[15] == 0 else |d.values| <= 162
  }

  /** Where the values of table k begin among the data words. */
  function ValuesAt(k: nat): nat {
    if k == 0 then 192 else if k == 1 then 204 else if k == 2 then 216 else 378
  }

  function Room(k: nat): nat {
    if k < 2 then 12 else 162
  }

  /** MINCODE, MAXCODE and VALPTR of length i + 1: sign-extended, all ones where there is no code. */
  ghost predicate CodeSent(data: seq<nat>, d: HuffSpec, k: nat, i: nat)
    requires ValidHuff(d) && k < 4 && |data| >= 192 && i < 16
  {
    if d.bits[i] == 0 then data[16 * k + i] == data[64 + 16 * k + i] == data[128 + 16 * k + i] == 0xFFFF_FFFF
    else
      && data[16 * k + i] == SignExtended(First(d.bits, i), 0x1_0000)
      && data[64 + 16 * k + i] == SignExtended(First(d.bits, i) + d.bits[i] - 1, 0x1_0000)
      && data[128 + 16 * k + i] == SignExtended(Prior(d.bits, i), 0x100)
  }

  /** Value j: sign-extended, all ones behind the last. */
  ghost predicate ValueSent(data: seq<nat>, d: HuffSpec, k: nat, j: nat)
    requires k < 4 && |data| == 540 && j < Room(k)
  {
    data[ValuesAt(k) + j] == if j < |d.values| then SignExtended(d.values[j], 0x100) else 0xFFFF_FFFF
  }

  /** All words of table k. */
  ghost predicate TableSent(data: seq<nat>, d: HuffSpec, k: nat)
    requires ValidHuff(d) && k < 4 && |data| == 540
  {
    && (forall i :: 0 <= i < 16 ==> CodeSent(data, d, k, i))
    && forall j :: 0 <= j < Room(k) ==> ValueSent(data, d, k, j)
  }

  /** The four data sections, each under its phase and address, and the unit switched back. */
  lemma UploadWrites(ts: Four<Table>)
    requires AllShaped(ts)
    ensures var data := DataOf(Upload(ts));
            && |data| >= 192
            && Upload(ts) == [Phase(0x003)] + Datas(data[..64]) + [Phase(0x403), Address(0x440)] + Datas(data[64..128])
                             + [Phase(0x803), Address(0x880)] + Datas(data[128..192])
                             + [Phase(0xC03)] + Datas(data[192..]) + [Phase(0)]
  {
    hide KindWords, DataOf;
    DataOfUpload(ts);
    SixtyFour(ts);
    var data := DataOf(Upload(ts));
    assert data[..64] == KindWords(Mins, ts, 4) && data[64..128] == KindWords(Maxs, ts, 4);
    assert data[128..192] == KindWords(Ptrs, ts, 4) && data[192..] == KindWords(Values, ts, 4);
  }

  lemma SixtyFour(ts: Four<Table>)
    requires AllShaped(ts)
    ensures |KindWords(Mins, ts, 4)| == |KindWords(Maxs, ts, 4)| == |KindWords(Ptrs, ts, 4)| == 64
  {
    hide KindWords, TableWords;
    KindLength(Mins, ts);
    KindLength(Maxs, ts);
    KindLength(Ptrs, ts);
    CodeCount(ts, 0);
    CodeCount(ts, 1);
    CodeCount(ts, 2);
    CodeCount(ts, 3);
  }

  lemma KindWordsInOrder(kind: Kind, ts: Four<Table>)
    requires AllShaped(ts)
    ensures KindWords(kind, ts, 4) == WordsOf(kind, ts.a, 0) + WordsOf(kind, ts.c, 2) + WordsOf(kind, ts.b, 1) + WordsOf(kind, ts.d, 3)
  {
    hide WordsOf;
    var n: nat := 4;
    assert KindWords(kind, ts, n) == KindWords(kind, ts, n - 1) + WordsOf(kind, ts.d, 3);
    assert KindWords(kind, ts, n - 1) == KindWords(kind, ts, n - 2) + WordsOf(kind, ts.b, 1);
    assert KindWords(kind, ts, n - 2) == KindWords(kind, ts, n - 3) + WordsOf(kind, ts.c, 2);
    assert KindWords(kind, ts, n - 3) == KindWords(kind, ts, n - 4) + WordsOf(kind, ts.a, 0);
    assert KindWords(kind, ts, n - 4) == [];
  }

  /** The code and pointer words of a printed table that is in force. */
  lemma CodeWords(t: Table, d: HuffSpec, slot: nat, i: nat)
    requires ValidHuff(d) && Usable(d.bits) && Holds(t, d) && Shaped(t) && i < 16
    ensures |WordsOf(Mins, t, slot)| == |WordsOf(Maxs, t, slot)| == |WordsOf(Ptrs, t, slot)| == 16
    ensures WordsOf(Mins, t, slot)[i] == if d.bits[i] == 0 then 0xFFFF_FFFF else SignExtended(First(d.bits, i), 0x1_0000)
    ensures WordsOf(Maxs, t, slot)[i] == if d.bits[i] == 0 then 0xFFFF_FFFF else SignExtended(First(d.bits, i) + d.bits[i] - 1, 0x1_0000)
    ensures WordsOf(Ptrs, t, slot)[i] == if d.bits[i] == 0 then 0xFFFF_FFFF else SignExtended(Prior(d.bits, i), 0x100)
  {
    hide First, Prior, Words16, Words8, Kraft, SignExtended, Usable;
    UsableCodesExtend(t.bits, i);
    NoCodeExtends();
    if d.bits[i] > 0 {
      PriorFits(d.bits, i);
    }
  }

  lemma NoCodeExtends()
    ensures SignExtended(NO_CODE, 0x1_0000) == 0xFFFF_FFFF == SignExtended(NO_PTR, 0x100)
  {
  }

  lemma PriorFits(bits: seq<Byte>, i: nat)
    requires |bits| == 16 && Count(bits) <= 256 && i < 16 && bits[i] > 0
    ensures Prior(bits, i) % 256 == Prior(bits, i)
  {
    hide Prior;
    PriorMonotone(bits, i + 1, LENGTHS);
    PriorStep(bits, i);
  }

  lemma ValueWordsOf(t: Table, d: HuffSpec, k: nat, slot: nat)
    requires k < 4 && slot == (if k < 2 then 2 * k else 2 * (k - 2) + 1)
    requires Fits(d, k) && Holds(t, d) && Shaped(t)
    ensures var words := WordsOf(Values, t, slot);
            && |words| == Room(k) && !ValuesPanic(t, slot)
            && forall j :: 0 <= j < |words| ==> words[j] == if j < |d.values| then SignExtended(d.values[j], 0x100) else 0xFFFF_FFFF
  {
    hide Words8, Kraft, Prior, First;
    AllSent(d, k, slot);
    forall j | 0 <= j < |d.values|
      ensures WordsOf(Values, t, slot)[j] == SignExtended(d.values[j], 0x100)
    {
      Word8Extends(d.values[j]);
    }
  }

  lemma AllSent(d: HuffSpec, k: nat, slot: nat)
    requires k < 4 && slot == (if k < 2 then 2 * k else 2 * (k - 2) + 1) && Fits(d, k)
    ensures Prior(d.bits, SentLengths(slot)) == |d.values|
  {
    hide Kraft, First, Prior;
    PriorStep(d.bits, 12);
    PriorStep(d.bits, 13);
    PriorStep(d.bits, 14);
    PriorStep(d.bits, 15);
  }

  /** The word of table k at place i, in a row of four tables of n words each. */
  lemma InRow(a: seq<nat>, b: seq<nat>, c: seq<nat>, d: seq<nat>, i: nat)
    ensures i < |a| ==> (a + b + c + d)[i] == a[i]
    ensures i < |b| ==> (a + b + c + d)[|a| + i] == b[i]
    ensures i < |c| ==> (a + b + c + d)[|a| + |b| + i] == c[i]
    ensures i < |d| ==> (a + b + c + d)[|a| + |b| + |c| + i] == d[i]
  {
  }

  ghost predicate HoldAll(ts: Four<Table>, ps: Printed) {
    && AllShaped(ts)
    && Fits(ps.dc0, 0) && Fits(ps.dc1, 1) && Fits(ps.ac0, 2) && Fits(ps.ac1, 3)
    && Holds(ts.a, ps.dc0) && Holds(ts.c, ps.dc1) && Holds(ts.b, ps.ac0) && Holds(ts.d, ps.ac1)
  }

  function SlotOf(k: nat): nat {
    if k == 0 then 0 else if k == 1 then 2 else if k == 2 then 1 else 3
  }

  lemma HeldTable(ts: Four<Table>, ps: Printed, k: nat)
    requires k < 4 && HoldAll(ts, ps)
    ensures Holds(ts.Get(SlotOf(k)), ps.Get(k)) && Shaped(ts.Get(SlotOf(k))) && Fits(ps.Get(k), k)
  {
    hide Holds, Fits;
  }

  /** In the row of one kind, table k stands behind those before it. */
  lemma CodeRow(kind: Kind, ts: Four<Table>, k: nat, i: nat)
    requires AllShaped(ts) && kind != Values && k < 4 && i < 16
    ensures |KindWords(kind, ts, 4)| == 64 && |WordsOf(kind, ts.Get(SlotOf(k)), SlotOf(k))| == 16
    ensures KindWords(kind, ts, 4)[16 * k + i] == WordsOf(kind, ts.Get(SlotOf(k)), SlotOf(k))[i]
  {
    hide KindWords, Words16, Words8, WordsOf;
    SixteenWords(kind, ts.a, 0);
    SixteenWords(kind, ts.b, 1);
    SixteenWords(kind, ts.c, 2);
    SixteenWords(kind, ts.d, 3);
    KindWordsInOrder(kind, ts);
    InRow(WordsOf(kind, ts.a, 0), WordsOf(kind, ts.c, 2), WordsOf(kind, ts.b, 1), WordsOf(kind, ts.d, 3), i);
  }

  lemma SixteenWords(kind: Kind, t: Table, slot: nat)
    requires Shaped(t) && kind != Values
    ensures |WordsOf(kind, t, slot)| == 16
  {
  }

  lemma ValueRow(ts: Four<Table>, ps: Printed, k: nat, j: nat)
    requires HoldAll(ts, ps) && k < 4 && j < Room(k)
    ensures |KindWords(Values, ts, 4)| == 348
    ensures KindWords(Values, ts, 4)[ValuesAt(k) - 192 + j]
            == if j < |ps.Get(k).values| then SignExtended(ps.Get(k).values[j], 0x100) else 0xFFFF_FFFF
  {
    hide KindWords, WordsOf, Fits, Holds, SignExtended;
    ValueWordsOf(ts.a, ps.dc0, 0, 0);
    ValueWordsOf(ts.c, ps.dc1, 1, 2);
    ValueWordsOf(ts.b, ps.ac0, 2, 1);
    ValueWordsOf(ts.d, ps.ac1, 3, 3);
    KindWordsInOrder(Values, ts);
    InRow(WordsOf(Values, ts.a, 0), WordsOf(Values, ts.c, 2), WordsOf(Values, ts.b, 1), WordsOf(Values, ts.d, 3), j);
  }

  lemma NoPanic(ts: Four<Table>, ps: Printed)
    requires HoldAll(ts, ps)
    ensures !UploadPanics(ts)
  {
    hide ValuesPanic, Fits, Holds;
    ValueWordsOf(ts.a, ps.dc0, 0, 0);
    ValueWordsOf(ts.c, ps.dc1, 1, 2);
    ValueWordsOf(ts.b, ps.ac0, 2, 1);
    ValueWordsOf(ts.d, ps.ac1, 3, 3);
  }

  lemma DataInFour(ts: Four<Table>)
    requires AllShaped(ts)
    ensures var data, values := DataOf(Upload(ts)), KindWords(Values, ts, 4);
            && |KindWords(Mins, ts, 4)| == |KindWords(Maxs, ts, 4)| == |KindWords(Ptrs, ts, 4)| == 64 && |data| == 192 + |values|
            && (forall i :: 0 <= i < 64 ==>
                  data[i] == KindWords(Mins, ts, 4)[i] && data[64 + i] == KindWords(Maxs, ts, 4)[i] && data[128 + i] == KindWords(Ptrs, ts, 4)[i])
            && (forall i :: 0 <= i < |values| ==> data[192 + i] == values[i])
  {
    hide KindWords, Upload, DataOf;
    DataOfUpload(ts);
    SixtyFour(ts);
    InFour(KindWords(Mins, ts, 4), KindWords(Maxs, ts, 4), KindWords(Ptrs, ts, 4), KindWords(Values, ts, 4), DataOf(Upload(ts)));
  }

  lemma CodesSent(ts: Four<Table>, d: HuffSpec, k: nat, i: nat)
    requires AllShaped(ts) && ValidHuff(d) && Usable(d.bits) && k < 4 && Holds(ts.Get(SlotOf(k)), d) && i < 16
    ensures |DataOf(Upload(ts))| >= 192 && CodeSent(DataOf(Upload(ts)), d, k, i)
  {
    hide KindWords, WordsOf, Upload, DataOf, SignExtended, First, Prior, Holds, Usable;
    DataInFour(ts);
    CodeRow(Mins, ts, k, i);
    CodeRow(Maxs, ts, k, i);
    CodeRow(Ptrs, ts, k, i);
    CodeWords(ts.Get(SlotOf(k)), d, SlotOf(k), i);
    assert 0 <= 16 * k + i < 64;
  }

  lemma ValuesSent(ts: Four<Table>, ps: Printed, k: nat, j: nat)
    requires HoldAll(ts, ps) && k < 4 && j < Room(k)
    ensures |DataOf(Upload(ts))| == 540 && ValueSent(DataOf(Upload(ts)), ps.Get(k), k, j)
  {
    hide KindWords, Upload, DataOf, SignExtended, Holds, Fits;
    DataInFour(ts);
    ValueRow(ts, ps, k, j);
    assert 0 <= ValuesAt(k) - 192 + j < 348;
  }

  lemma HeldTablesSent(ts: Four<Table>, ps: Printed, k: nat)
    requires HoldAll(ts, ps) && k < 4
    ensures |DataOf(Upload(ts))| == 540 && ValidHuff(ps.Get(k)) && TableSent(DataOf(Upload(ts)), ps.Get(k), k)
  {
    hide Upload, DataOf, CodeSent, ValueSent, Holds, Usable;
    HeldTable(ts, ps, k);
    ValuesSent(ts, ps, k, 0);
    forall i | 0 <= i < 16 ensures CodeSent(DataOf(Upload(ts)), ps.Get(k), k, i) {
      CodesSent(ts, ps.Get(k), k, i);
    }
    forall j | 0 <= j < Room(k) ensures ValueSent(DataOf(Upload(ts)), ps.Get(k), k, j) {
      ValuesSent(ts, ps, k, j);
    }
  }

  lemma InFour(a: seq<nat>, b: seq<nat>, c: seq<nat>, d: seq<nat>, all: seq<nat>)
    requires |a| == |b| == |c| == 64 && all == a + b + c + d
    ensures |all| == 192 + |d|
    ensures forall i :: 0 <= i < 64 ==> all[i] == a[i] && all[64 + i] == b[i] && all[128 + i] == c[i]
    ensures forall i :: 0 <= i < |d| ==> all[192 + i] == d[i]
  {
  }

  /**
   From a printed baseline header to the data register: 540 words, among them at their places the code
   arrays and the values of the tables printed last as DC 0, DC 1, AC 0 and AC 1.
   */
  lemma PrintedTablesSent(img: Image, rest: seq<Byte>, ps: Printed)
    requires ValidImage(img) && Baseline(img.items) && PrintedLast(img, ps)
    requires forall k :: 0 <= k < 4 ==> Fits(ps.Get(k), k)
    ensures var r := Parse(Print(img) + rest);
            && r.Parsed? && AllShaped(r.header.huff) && !UploadPanics(r.header.huff)
            && |DataOf(Upload(r.header.huff))| == 540
            && forall k :: 0 <= k < 4 ==> ValidHuff(ps.Get(k)) && TableSent(DataOf(Upload(r.header.huff)), ps.Get(k), k)
  {
    hide Parse, Print, LastPrinted, Holds, Baseline, Upload, DataOf, TableSent, Fits, UploadPanics;
    PrintedTableInForce(img, rest, 0, 0);
    PrintedTableInForce(img, rest, 0, 1);
    PrintedTableInForce(img, rest, 1, 0);
    PrintedTableInForce(img, rest, 1, 1);
    PrintedTablesUpload(img, rest);
    var ts := Parse(Print(img) + rest).header.huff;
    assert Fits(ps.Get(0), 0) && Fits(ps.Get(1), 1) && Fits(ps.Get(2), 2) && Fits(ps.Get(3), 3);
    assert HoldAll(ts, ps);
    NoPanic(ts, ps);
    HeldTablesSent(ts, ps, 0);
    HeldTablesSent(ts, ps, 1);
    HeldTablesSent(ts, ps, 2);
    HeldTablesSent(ts, ps, 3);
  }
}
