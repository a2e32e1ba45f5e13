/**
 Loading the Huffman tables into the JPEG unit: one data register, written table by table in the
 order 0, 2, 1, 3, first all MINCODEs, then MAXCODEs, VALPTRs and values.
 */
module JpuUpload {
  import opened Arith
  import opened Huffman
  import opened JpegHeader

  const HUFF_PHASE_MIN: nat := 0x003
  const HUFF_PHASE_MAX: nat := 0x403
  const HUFF_PHASE_PTR: nat := 0x803
  const HUFF_PHASE_VAL: nat := 0xC03
  const HUFF_ADDR_MAX: nat := 0x440
  const HUFF_ADDR_PTR: nat := 0x880
  const FILLER: nat := 0xFFFF_FFFF
  const WORDS: nat := 540

  datatype Write = Phase(value: nat) | Address(value: nat) | Data(value: nat)

  // ---- Words --------------------------------------------------------------------------------------

  /** A code under a fill of its bit 15: the upper half all ones, or nothing added. */
  function Word16(x: nat): nat {
    if x / 0x8000 % 2 == 1 then 0xFFFF_0000 + x % 0x1_0000 else x
  }

  function Word8(x: nat): nat {
    if x / 0x80 % 2 == 1 then 0xFFFF_FF00 + x % 0x100 else x
  }

  /** The low n-bit field of x as a 32-bit two's-complement number. */
  function SignExtended(x: nat, limit: nat): nat
    requires 0 < limit <= 0x1_0000
  {
    if x % limit < limit / 2 then x % limit else 0x1_0000_0000 - limit + x % limit
  }

  /** A code word is the sign extension of its low 16 bits iff the code has no more, or bit 15 is set. */
  lemma Word16Iff(x: nat)
    ensures Word16(x) == SignExtended(x, 0x1_0000) <==> x < 0x1_0000 || x % 0x1_0000 >= 0x8000
    ensures Word16(x) % 0x1_0000 == x % 0x1_0000
  {
  }

  lemma Word8Extends(x: nat)
    requires x < 0x100
    ensures Word8(x) == SignExtended(x, 0x100) && Word8(x) % 0x100 == x
  {
  }

  function Words16(xs: seq<nat>): (r: seq<nat>)
    ensures |r| == |xs| && forall j :: 0 <= j < |r| ==> r[j] == Word16(xs[j])
  {
    seq(|xs|, j requires 0 <= j < |xs| => Word16(xs[j]))
  }

  function Words8(xs: seq<nat>): (r: seq<nat>)
    ensures |r| == |xs| && forall j :: 0 <= j < |r| ==> r[j] == Word8(xs[j])
  {
    seq(|xs|, j requires 0 <= j < |xs| => Word8(xs[j]))
  }

  // ---- What is written -----------------------------------------------------------------------------

  /** The order in which the unit takes the tables: DC 0, DC 1, AC 0, AC 1. */
  function Order(k: nat): (t: nat)
    ensures t < 4
  {
    if k == 0 then 0 else if k == 1 then 2 else if k == 2 then 1 else 3
  }

  function IsDc(t: nat): bool {
    t == 0 || t == 2
  }

  /** The values the unit has room for, and the longest code length whose values are sent. */
  function MaxCount(t: nat): nat {
    if IsDc(t) then 12 else 162
  }

  function SentLengths(t: nat): nat {
    if IsDc(t) then 12 else 16
  }

  ghost predicate Shaped(t: Table) {
    |t.bits| == LENGTHS && |t.values| == 256
  }

  function SentCount(t: Table, slot: nat): nat
    requires |t.bits| == LENGTHS
  {
    Prior(t.bits, SentLengths(slot))
  }

  /** More values counted than the table holds is an index out of range. */
  predicate ValuesPanic(t: Table, slot: nat)
    requires |t.bits| == LENGTHS
  {
    Min(SentCount(t, slot), t.numValues) > 256
  }

  /** The values of one table, filled up to its room in the unit. */
  function ValueWords(t: Table, slot: nat): (r: seq<nat>)
    requires Shaped(t)
  {
    var count := SentCount(t, slot);
    Words8(t.values[..Min(Min(count, t.numValues), 256)]) + Repeat(if count < MaxCount(slot) then MaxCount(slot) - count else 0, FILLER)
  }

  datatype Kind = Mins | Maxs | Ptrs | Values

  function TableWords(kind: Kind, ts: Four<Table>, slot: nat): seq<nat>
    requires slot < 4 && Shaped(ts.Get(slot))
  {
    WordsOf(kind, ts.Get(slot), slot)
  }

  function WordsOf(kind: Kind, t: Table, slot: nat): seq<nat>
    requires Shaped(t)
  {
    match kind
    case Mins => Words16(GenMin(t.bits))
    case Maxs => Words16(GenMax(t.bits))
    case Ptrs => Words8(GenPtrs(t.bits))
    case Values => ValueWords(t, slot)
  }

  ghost predicate AllShaped(ts: Four<Table>) {
    Shaped(ts.a) && Shaped(ts.b) && Shaped(ts.c) && Shaped(ts.d)
  }

  ghost predicate UploadPanics(ts: Four<Table>)
    requires AllShaped(ts)
  {
    ValuesPanic(ts.a, 0) || ValuesPanic(ts.b, 1) || ValuesPanic(ts.c, 2) || ValuesPanic(ts.d, 3)
  }

  /** The first n tables of one kind, in the unit's order. */
  function KindWords(kind: Kind, ts: Four<Table>, n: nat): seq<nat>
    requires AllShaped(ts) && n <= 4
  {
    if n == 0 then [] else KindWords(kind, ts, n - 1) + TableWords(kind, ts, Order(n - 1))
  }

  function Datas(words: seq<nat>): (r: seq<Write>)
    ensures |r| == |words| && forall j :: 0 <= j < |r| ==> r[j] == Data(words[j])
  {
    seq(|words|, j requires 0 <= j < |words| => Data(words[j]))
  }

  lemma DatasAppend(a: seq<nat>, b: seq<nat>)
    ensures Datas(a + b) == Datas(a) + Datas(b) && Datas([]) == []
  {
  }

  lemma OneMoreTable(kind: Kind, ts: Four<Table>, n: nat)
    requires AllShaped(ts) && n < 4
    ensures var words, more := KindWords(kind, ts, n), TableWords(kind, ts, Order(n));
            KindWords(kind, ts, n + 1) == words + more && Datas(words + more) == Datas(words) + Datas(more)
    ensures KindWords(kind, ts, 0) == [] && Datas([]) == []
  {
    hide TableWords, Datas;
    DatasAppend(KindWords(kind, ts, n), TableWords(kind, ts, Order(n)));
  }

  /** The register writes before the words of one kind. */
  function Heading(kind: Kind): seq<Write> {
    match kind
    case Mins => [Phase(HUFF_PHASE_MIN)]
    case Maxs => [Phase(HUFF_PHASE_MAX), Address(HUFF_ADDR_MAX)]
    case Ptrs => [Phase(HUFF_PHASE_PTR), Address(HUFF_ADDR_PTR)]
    case Values => [Phase(HUFF_PHASE_VAL)]
  }

  function Section(kind: Kind, ts: Four<Table>): seq<Write>
    requires AllShaped(ts)
  {
    Heading(kind) + Datas(KindWords(kind, ts, 4))
  }

  function Upload(ts: Four<Table>): seq<Write>
    requires AllShaped(ts)
  {
    Section(Mins, ts) + Section(Maxs, ts) + Section(Ptrs, ts) + Section(Values, ts) + [Phase(0)]
  }

  // ---- What reaches the data register ----------------------------------------------------------------

  function DataOf(log: seq<Write>): seq<nat> {
    if log == [] then [] else (if log[0].Data? then [log[0].value] else []) + DataOf(log[1..])
  }

  lemma DataOfCons(w: Write, rest: seq<Write>)
    ensures DataOf([w] + rest) == (if w.Data? then [w.value] else []) + DataOf(rest)
  {
    assert ([w] + rest)[1..] == rest;
  }

  lemma {:induction false} DataOfAppend(a: seq<Write>, b: seq<Write>)
    ensures DataOf(a + b) == DataOf(a) + DataOf(b)
  {
    if a == [] {
      assert a + b == b;
    } else {
      hide DataOf;
      var head, tail := a[0], a[1..];
      calc {
        DataOf(a + b);
        { assert a + b == [head] + (tail + b); DataOfCons(head, tail + b); }
        (if head.Data? then [head.value] else []) + DataOf(tail + b);
        { DataOfAppend(tail, b); }
        (if head.Data? then [head.value] else []) + (DataOf(tail) + DataOf(b));
        ((if head.Data? then [head.value] else []) + DataOf(tail)) + DataOf(b);
        { assert a == [head] + tail; DataOfCons(head, tail); }
        DataOf(a) + DataOf(b);
      }
    }
  }

  lemma {:induction false} DataOfDatas(words: seq<nat>)
    ensures DataOf(Datas(words)) == words
  {
    if words != [] {
      DataOfDatas(words[1..]);
      assert Datas(words)[1..] == Datas(words[1..]);
    }
  }

  lemma DataOfSection(kind: Kind, ts: Four<Table>)
    requires AllShaped(ts)
    ensures DataOf(Section(kind, ts)) == KindWords(kind, ts, 4)
  {
    hide KindWords;
    var words := KindWords(kind, ts, 4);
    DataOfAppend(Heading(kind), Datas(words));
    DataOfDatas(words);
    assert DataOf(Heading(kind)) == [] by {
      var heading := Heading(kind);
      assert |heading| == 2 ==> heading[1..] == [heading[1]] && [heading[1]][1..] == [];
      assert |heading| == 1 ==> heading[1..] == [];
    }
  }

  /** The data register sees the four kinds one after the other, and nothing else. */
  lemma DataOfUpload(ts: Four<Table>)
    requires AllShaped(ts)
    ensures DataOf(Upload(ts)) == KindWords(Mins, ts, 4) + KindWords(Maxs, ts, 4) + KindWords(Ptrs, ts, 4) + KindWords(Values, ts, 4)
  {
    hide KindWords, Section;
    var a, b, c, d := Section(Mins, ts), Section(Maxs, ts), Section(Ptrs, ts), Section(Values, ts);
    DataOfSection(Mins, ts);
    DataOfSection(Maxs, ts);
    DataOfSection(Ptrs, ts);
    DataOfSection(Values, ts);
    DataOfAppend(a, b);
    DataOfAppend(a + b, c);
    DataOfAppend(a + b + c, d);
    DataOfAppend(a + b + c + d, [Phase(0)]);
    assert [Phase(0)][1..] == [] && DataOf([Phase(0)]) == [];
  }

  function WordCount(kind: Kind, ts: Four<Table>, slot: nat): nat
    requires slot < 4 && AllShaped(ts)
  {
    |TableWords(kind, ts, slot)|
  }

  lemma KindLength(kind: Kind, ts: Four<Table>)
    requires AllShaped(ts)
    ensures |KindWords(kind, ts, 4)| == WordCount(kind, ts, 0) + WordCount(kind, ts, 2) + WordCount(kind, ts, 1) + WordCount(kind, ts, 3)
  {
    hide TableWords;
    var n: nat := 4;
    assert |KindWords(kind, ts, n)| == |KindWords(kind, ts, n - 1)| + WordCount(kind, ts, 3);
    assert |KindWords(kind, ts, n - 1)| == |KindWords(kind, ts, n - 2)| + WordCount(kind, ts, 1);
    assert |KindWords(kind, ts, n - 2)| == |KindWords(kind, ts, n - 3)| + WordCount(kind, ts, 2);
    assert |KindWords(kind, ts, n - 3)| == |KindWords(kind, ts, n - 4)| + WordCount(kind, ts, 0);
  }

  /** By how many words a table's values miss the room for them: below 0 where values counted are not there. */
  function Surplus(t: Table, slot: nat): int
    requires |t.bits| == LENGTHS
  {
    var count := SentCount(t, slot);
    if count > MaxCount(slot) then Min(count, t.numValues) - MaxCount(slot)
    else if t.numValues < count then t.numValues - count
    else 0
  }

  lemma ValueCount(t: Table, slot: nat)
    requires Shaped(t) && !ValuesPanic(t, slot)
    ensures |ValueWords(t, slot)| == MaxCount(slot) + Surplus(t, slot)
  {
    hide SentCount;
  }

  lemma CodeCount(ts: Four<Table>, slot: nat)
    requires slot < 4 && AllShaped(ts)
    ensures WordCount(Mins, ts, slot) == WordCount(Maxs, ts, slot) == WordCount(Ptrs, ts, slot) == LENGTHS
    ensures WordCount(Values, ts, slot) == |ValueWords(ts.Get(slot), slot)|
  {
  }

  /** The unit receives exactly 540 words, 192 for the codes and 348 for the values, iff the surpluses cancel. */
  lemma WordsExactIff(ts: Four<Table>)
    requires AllShaped(ts) && !UploadPanics(ts)
    ensures |DataOf(Upload(ts))| == WORDS <==> Surplus(ts.a, 0) + Surplus(ts.b, 1) + Surplus(ts.c, 2) + Surplus(ts.d, 3) == 0
  {
    hide Upload, KindWords, SentCount, Surplus, TableWords, ValuesPanic, ValueWords, DataOf;
    DataOfUpload(ts);
    KindLength(Mins, ts);
    KindLength(Maxs, ts);
    KindLength(Ptrs, ts);
    KindLength(Values, ts);
    CodeCount(ts, 0);
    CodeCount(ts, 1);
    CodeCount(ts, 2);
    CodeCount(ts, 3);
    ValueCount(ts.a, 0);
    ValueCount(ts.b, 1);
    ValueCount(ts.c, 2);
    ValueCount(ts.d, 3);
  }

  /** The first n tables, in the unit's order, end where the unit expects them to. */
  ghost predicate InPlace(ts: Four<Table>)
    requires AllShaped(ts)
  {
    && |KindWords(Values, ts, 1)| == 12 && |KindWords(Values, ts, 2)| == 24
    && |KindWords(Values, ts, 3)| == 186 && |KindWords(Values, ts, 4)| == 348
  }

  /** Every table's values lie where the unit expects them iff each count fits its room and all it counts is there. */
  lemma InPlaceIff(ts: Four<Table>)
    requires AllShaped(ts) && !UploadPanics(ts)
    ensures InPlace(ts) <==> Surplus(ts.a, 0) == Surplus(ts.b, 1) == Surplus(ts.c, 2) == Surplus(ts.d, 3) == 0
  {
    hide SentCount, Surplus, ValuesPanic, ValueWords;
    ValueCount(ts.a, 0);
    ValueCount(ts.b, 1);
    ValueCount(ts.c, 2);
    ValueCount(ts.d, 3);
    assert |KindWords(Values, ts, 1)| == |KindWords(Values, ts, 0)| + |ValueWords(ts.a, 0)|;
    assert |KindWords(Values, ts, 2)| == |KindWords(Values, ts, 1)| + |ValueWords(ts.c, 2)|;
    assert |KindWords(Values, ts, 3)| == |KindWords(Values, ts, 2)| + |ValueWords(ts.b, 1)|;
    assert |KindWords(Values, ts, 4)| == |KindWords(Values, ts, 3)| + |ValueWords(ts.d, 3)|;
  }

  /** Every value that the counts announce is there: what parsing a whole table segment gives. */
  ghost predicate Full(ts: Four<Table>) {
    forall slot {:trigger ts.Get(slot)} :: 0 <= slot < 4 ==>
      |ts.Get(slot).bits| == LENGTHS && SentCount(ts.Get(slot), slot) <= ts.Get(slot).numValues
  }

  /** All fit their room in the unit. */
  ghost predicate WithinRoom(ts: Four<Table>) {
    forall slot {:trigger ts.Get(slot)} :: 0 <= slot < 4 ==>
      |ts.Get(slot).bits| == LENGTHS && SentCount(ts.Get(slot), slot) <= MaxCount(slot)
  }

  /** For whole tables nothing can cancel: 540 words iff no table is too long for the unit. */
  lemma FullWordsExactIff(ts: Four<Table>)
    requires AllShaped(ts) && Full(ts) && !UploadPanics(ts)
    ensures |DataOf(Upload(ts))| == WORDS <==> WithinRoom(ts)
    ensures WithinRoom(ts) <==> InPlace(ts)
  {
    hide Upload, KindWords, SentCount, ValuesPanic, ValueWords, DataOf, InPlace;
    WordsExactIff(ts);
    InPlaceIff(ts);
    assert ts.Get(0) == ts.a && ts.Get(1) == ts.b && ts.Get(2) == ts.c && ts.Get(3) == ts.d;
  }

  /** For tables whose codes fit 16 bits, every code word uploaded is the sign extension of its code. */
  lemma UsableCodesExtend(bits: seq<nat>, i: nat)
    requires Usable(bits) && i < LENGTHS
    ensures Words16(GenMin(bits))[i] == SignExtended(GenMin(bits)[i], 0x1_0000)
    ensures Words16(GenMax(bits))[i] == SignExtended(GenMax(bits)[i], 0x1_0000)
    ensures Words8(GenPtrs(bits))[i] == SignExtended(GenPtrs(bits)[i], 0x100)
  {
    hide First, Prior, Kraft, KraftSum, Pow2, SignExtended, Word16, Word8;
    CodesFit(bits, i);
    Pow2Monotone(i + 1, LENGTHS);
    Pow2Of16();
    Word16Iff(GenMin(bits)[i]);
    Word16Iff(GenMax(bits)[i]);
    Word8Extends(GenPtrs(bits)[i]);
  }

  // ---- The upload as it runs -------------------------------------------------------------------------------

  ghost function Views(huff: Four<HuffTable>): Four<Table>
    reads huff.a, huff.b, huff.c, huff.d
  {
    Four(huff.a.View(), huff.b.View(), huff.c.View(), huff.d.View())
  }

  ghost predicate AllValid(huff: Four<HuffTable>)
    reads huff.a, huff.b, huff.c, huff.d
    ensures AllValid(huff) ==> AllShaped(Views(huff))
  {
    huff.a.Valid() && huff.b.Valid() && huff.c.Valid() && huff.d.Valid()
  }

  class JpuRegs {
    var log: seq<Write>

    constructor ()
      ensures log == []
    {
      log := [];
    }

    method WriteCodes(codes: seq<nat>, wide: bool)
      modifies this
      ensures log == old(log) + Datas(if wide then Words16(codes) else Words8(codes))
    {
      for j := 0 to |codes|
        invariant log == old(log) + Datas((if wide then Words16(codes) else Words8(codes))[..j])
      {
        var words := if wide then Words16(codes) else Words8(codes);
        assert Datas(words[..j + 1]) == Datas(words[..j]) + [Data(words[j])];
        log := log + [Data(if wide then Word16(codes[j]) else Word8(codes[j]))];
      }
      assert (if wide then Words16(codes) else Words8(codes))[..|codes|] == if wide then Words16(codes) else Words8(codes);
    }

    /** The counted values, then filler; a count past the end of the values panics. */
    method WriteValues(t: HuffTable, slot: nat) returns (panic: bool)
      requires t.Valid()
      modifies this
      ensures panic == ValuesPanic(t.View(), slot)
      ensures !panic ==> log == old(log) + Datas(ValueWords(t.View(), slot))
    {
      hide Prior, Word8, Codes, Repeat;
      var bits: seq<nat>, values: seq<nat> := t.bits, t.values;
      var maxCount, bitsLen := MaxCount(slot), SentLengths(slot);
      var count := 0;
      PriorStep(bits, 0);
      for i := 0 to bitsLen
        invariant |bits| == LENGTHS && count == Prior(bits, i) && log == old(log)
      {
        PriorStep(bits, i);
        count := count + bits[i];
      }
      var n := Min(count, t.numValues);
      ghost var words := if n <= 256 then Words8(values[..n]) else [];
      assert words[..0] == [] && Datas([]) == [];
      var j := 0;
      while j < n
        invariant j <= n && j <= 256 && (n <= 256 ==> log == old(log) + Datas(words[..j]))
      {
        if j >= 256 {
          return true;
        }
        log := log + [Data(Word8(values[j]))];
        assert n <= 256 ==> Datas(words[..j + 1]) == Datas(words[..j]) + [Data(words[j])];
        j := j + 1;
      }
      assert words[..n] == words;
      var pad := if count < maxCount then maxCount - count else 0;
      WriteFiller(pad);
      assert Datas(words) + Datas(Repeat(pad, FILLER)) == Datas(words + Repeat(pad, FILLER));
      panic := false;
    }

    method WriteFiller(n: nat)
      modifies this
      ensures log == old(log) + Datas(Repeat(n, FILLER))
    {
      for k := 0 to n
        invariant log == old(log) + Datas(Repeat(k, FILLER))
      {
        log := log + [Data(FILLER)];
        assert Datas(Repeat(k + 1, FILLER)) == Datas(Repeat(k, FILLER)) + [Data(FILLER)];
      }
    }

    /** One table's array of one kind. */
    method WriteCodeTable(kind: Kind, t: HuffTable, ghost slot: nat)
      requires t.Valid() && kind != Values
      modifies this
      ensures log == old(log) + Datas(WordsOf(kind, t.View(), slot))
    {
      hide GenMin, GenMax, GenPtrs, Words16, Words8;
      WriteCodes(if kind == Mins then t.minCodes else if kind == Maxs then t.maxCodes else t.ptrs, kind != Ptrs);
    }

    method WriteCodeTables(kind: Kind, huff: Four<HuffTable>)
      requires AllValid(huff) && kind != Values
      modifies this
      ensures log == old(log) + Datas(KindWords(kind, Views(huff), 4))
    {
      hide WordsOf, HuffTable.Valid, KindWords, Datas;
      ghost var ts := Views(huff);
      OneMoreTable(kind, ts, 0);
      for k := 0 to 4
        invariant log == old(log) + Datas(KindWords(kind, ts, k))
      {
        WriteCodeTable(kind, huff.Get(Order(k)), Order(k));
        OneMoreTable(kind, ts, k);
      }
    }

    /** The heading of one kind, and the tables. */
    method WriteCodeSection(kind: Kind, huff: Four<HuffTable>)
      requires AllValid(huff) && kind != Values
      modifies this
      ensures log == old(log) + Section(kind, Views(huff))
    {
      hide HuffTable.Valid, KindWords, Datas;
      if kind == Mins {
        log := log + [Phase(HUFF_PHASE_MIN)];
      } else if kind == Maxs {
        log := log + [Phase(HUFF_PHASE_MAX), Address(HUFF_ADDR_MAX)];
      } else {
        log := log + [Phase(HUFF_PHASE_PTR), Address(HUFF_ADDR_PTR)];
      }
      WriteCodeTables(kind, huff);
    }

    method WriteValueTables(huff: Four<HuffTable>) returns (panic: bool)
      requires AllValid(huff)
      modifies this
      ensures panic == UploadPanics(Views(huff))
      ensures !panic ==> log == old(log) + Datas(KindWords(Values, Views(huff), 4))
    {
      hide HuffTable.Valid, ValuesPanic, ValueWords, KindWords, Datas;
      ghost var ts := Views(huff);
      OneMoreTable(Values, ts, 0);
      for k := 0 to 4
        invariant log == old(log) + Datas(KindWords(Values, ts, k))
        invariant forall j {:trigger Order(j)} :: 0 <= j < k ==> !ValuesPanic(ts.Get(Order(j)), Order(j))
      {
        panic := WriteValues(huff.Get(Order(k)), Order(k));
        if panic {
          return;
        }
        OneMoreTable(Values, ts, k);
      }
      assert Order(0) == 0 && Order(1) == 2 && Order(2) == 1 && Order(3) == 3;
      panic := false;
    }

    method UploadHuffTables(huff: Four<HuffTable>) returns (panic: bool)
      requires AllValid(huff)
      modifies this
      ensures panic == UploadPanics(Views(huff))
      ensures !panic ==> log == old(log) + Upload(Views(huff))
    {
      hide HuffTable.Valid, KindWords, Datas, UploadPanics, Section;
      ghost var ts := Views(huff);
      WriteCodeSection(Mins, huff);
      WriteCodeSection(Maxs, huff);
      WriteCodeSection(Ptrs, huff);
      ghost var before := log;
      assert before == old(log) + (Section(Mins, ts) + Section(Maxs, ts) + Section(Ptrs, ts));
      log := log + [Phase(HUFF_PHASE_VAL)];
      panic := WriteValueTables(huff);
      if !panic {
        LastSection(ts);
        assert log == before + Section(Values, ts);
        log := log + [Phase(0)];
      }
    }
  }

  lemma LastSection(ts: Four<Table>)
    requires AllShaped(ts)
    ensures Section(Values, ts) == [Phase(HUFF_PHASE_VAL)] + Datas(KindWords(Values, ts, 4))
  {
    hide KindWords, Datas;
  }
}
