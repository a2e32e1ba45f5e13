/** The parser as the firmware runs it: one record, filled in place while the segments go by. */
module JpegParser {
  import opened Arith
  import opened Huffman
  import opened JpegHeader

  datatype Control = Continue(next: nat) | Return | Error(error: string) | IndexPanic

  datatype Status = Ok | Err(error: string) | Panicked

  /** One quantisation table of the record; its buffer lies inside it. */
  class QuantTable {
    var values: seq<nat>

    constructor ()
      ensures values == Repeat(64, 0)
    {
      values := Repeat(64, 0);
    }

    /** The table at `offset`, as far as the data goes. */
    method Read(data: seq<Byte>, offset: nat)
      requires |values| == 64 && offset < |data|
      modifies this
      ensures values == ReadQuant(old(values), data, offset)
    {
      if data[offset] / 16 == 0 {
        for j := 0 to 64
          invariant |values| == 64
          invariant forall k :: 0 <= k < 64 ==>
            values[k] == if k < j && offset + 1 + k < |data| then data[offset + 1 + k] else old(values)[k]
        {
          if offset + 1 + j < |data| {
            values := values[j := data[offset + 1 + j]];
          }
        }
      } else {
        for j := 0 to 64
          invariant |values| == 64
          invariant forall k :: 0 <= k < 64 ==>
            values[k] == if k < j && offset + 1 + 2 * k + 1 < |data| then Be16(data, offset + 1 + 2 * k) else old(values)[k]
        {
          if offset + 1 + 2 * j + 1 < |data| {
            values := values[j := Be16(data, offset + 1 + 2 * j)];
          }
        }
      }
      assert values == ReadQuant(old(values), data, offset);
    }
  }

  class JpegHeaderInfo {
    var width: nat
    var height: nat
    var numComponents: nat
    var sampling: Three<(nat, nat)>
    var format: nat
    var ecsOffset: nat
    var restartInterval: nat
    var dcHuff: Three<nat>
    var acHuff: Three<nat>
    var quantSel: Three<nat>
    var quantCount: nat
    const huff: Four<HuffTable>
    const quant: Four<QuantTable>

    ghost function Repr(): set<object> {
      {this, huff.a, huff.b, huff.c, huff.d, quant.a, quant.b, quant.c, quant.d}
    }

    ghost predicate Valid()
      reads Repr()
    {
      && huff.a != huff.b && huff.a != huff.c && huff.a != huff.d && huff.b != huff.c && huff.b != huff.d && huff.c != huff.d
      && quant.a != quant.b && quant.a != quant.c && quant.a != quant.d
      && quant.b != quant.c && quant.b != quant.d && quant.c != quant.d
      && |quant.a.values| == |quant.b.values| == |quant.c.values| == |quant.d.values| == 64
      && huff.a.Valid() && huff.b.Valid() && huff.c.Valid() && huff.d.Valid()
    }

    ghost function View(): Header
      reads Repr()
    {
      Header(width, height, numComponents, sampling, format, ecsOffset, restartInterval, dcHuff, acHuff, quantSel,
             Four(huff.a.View(), huff.b.View(), huff.c.View(), huff.d.View()),
             Four(quant.a.values, quant.b.values, quant.c.values, quant.d.values), quantCount)
    }

    constructor ()
      ensures Valid() && fresh(Repr()) && View() == Initial()
    {
      hide Codes, EmptyTable, Repeat;
      width, height, numComponents, format, ecsOffset, restartInterval, quantCount := 0, 0, 0, FORMAT_420, 0, 0, 0;
      sampling := Three((2, 2), (1, 1), (1, 1));
      dcHuff, acHuff, quantSel := Three(0, 0, 0), Three(0, 0, 0), Three(0, 0, 0);
      var ha := new HuffTable();
      var hb := new HuffTable();
      var hc := new HuffTable();
      var hd := new HuffTable();
      huff := Four(ha, hb, hc, hd);
      var qa := new QuantTable();
      var qb := new QuantTable();
      var qc := new QuantTable();
      var qd := new QuantTable();
      quant := Four(qa, qb, qc, qd);
    }

    /** The three component entries of a frame header. */
    static method ReadComponents(data: seq<Byte>, comps: nat) returns (s: Three<(nat, nat)>, q: Three<nat>)
      requires comps + 9 <= |data|
      ensures s == Three(SamplingAt(data, comps + 1), SamplingAt(data, comps + 4), SamplingAt(data, comps + 7))
      ensures q == Three(data[comps + 2], data[comps + 5], data[comps + 8])
    {
      s, q := Three((0, 0), (0, 0), (0, 0)), Three(0, 0, 0);
      for c := 0 to 3
        invariant c > 0 ==> s.a == SamplingAt(data, comps + 1) && q.a == data[comps + 2]
        invariant c > 1 ==> s.b == SamplingAt(data, comps + 4) && q.b == data[comps + 5]
        invariant c > 2 ==> s.c == SamplingAt(data, comps + 7) && q.c == data[comps + 8]
      {
        var hv, tq := data[comps + c * 3 + 1], data[comps + c * 3 + 2];
        s := if c == 0 then s.(a := (hv / 16, hv % 16))
             else if c == 1 then s.(b := (hv / 16, hv % 16))
             else s.(c := (hv / 16, hv % 16));
        q := if c == 0 then q.(a := tq) else if c == 1 then q.(b := tq) else q.(c := tq);
      }
    }

    /** The table selectors of a scan header, over the old ones. */
    static method ReadSelectors(data: seq<Byte>, i: nat, dc0: Three<nat>, ac0: Three<nat>) returns (dc: Three<nat>, ac: Three<nat>)
      requires i + 5 < |data|
      ensures dc == Three(DcAt(data, i, 0, dc0.a), DcAt(data, i, 1, dc0.b), DcAt(data, i, 2, dc0.c))
      ensures ac == Three(AcAt(data, i, 0, ac0.a), AcAt(data, i, 1, ac0.b), AcAt(data, i, 2, ac0.c))
    {
      var numScanComponents: nat := data[i + 4];
      var compOffset := i + 5;
      var n := if numScanComponents < 3 then numScanComponents else 3;
      dc, ac := dc0, ac0;
      for c := 0 to n
        invariant compOffset <= i + 5 + 2 * c && (compOffset == i + 5 + 2 * c || compOffset + 2 > |data|)
        invariant dc.a == (if c > 0 then DcAt(data, i, 0, dc0.a) else dc0.a)
        invariant dc.b == (if c > 1 then DcAt(data, i, 1, dc0.b) else dc0.b)
        invariant dc.c == (if c > 2 then DcAt(data, i, 2, dc0.c) else dc0.c)
        invariant ac.a == (if c > 0 then AcAt(data, i, 0, ac0.a) else ac0.a)
        invariant ac.b == (if c > 1 then AcAt(data, i, 1, ac0.b) else ac0.b)
        invariant ac.c == (if c > 2 then AcAt(data, i, 2, ac0.c) else ac0.c)
      {
        if compOffset + 2 <= |data| {
          var tables := data[compOffset + 1];
          dc := if c == 0 then dc.(a := tables / 16) else if c == 1 then dc.(b := tables / 16) else dc.(c := tables / 16);
          ac := if c == 0 then ac.(a := tables % 16) else if c == 1 then ac.(b := tables % 16) else ac.(c := tables % 16);
          compOffset := compOffset + 2;
        }
      }
    }

    static lemma NothingRead(data: seq<Byte>, i: nat)
      requires i + 5 >= |data|
      ensures forall c, prev :: DcAt(data, i, c, prev) == prev && AcAt(data, i, c, prev) == prev
    {
    }

    /** The frame header at i. */
    method ParseSof(data: seq<Byte>, i: nat)
      requires Valid() && i + 10 < |data|
      modifies this
      ensures Valid() && View() == SofUpdate(data, i, old(View()))
    {
      hide HuffTable.Valid, HuffTable.View, Be16, SamplingAt, FormatOf;
      height := Be16(data, i + 5);
      width := Be16(data, i + 7);
      numComponents := data[i + 9];
      if numComponents == 3 {
        var comps := i + 10;
        if comps + 9 <= |data| {
          sampling, quantSel := ReadComponents(data, comps);
          format := FormatOf(sampling);
        }
      } else {
        sampling := Three((1, 1), (1, 1), (1, 1));
        format := FORMAT_400;
      }
    }

    method ParseDri(data: seq<Byte>, i: nat)
      requires Valid()
      modifies this
      ensures Valid() && View() == DriUpdate(data, i, old(View()))
    {
      hide HuffTable.Valid, HuffTable.View;
      if i + 6 <= |data| {
        restartInterval := Be16(data, i + 4);
      }
    }

    /** The scan header at i: table selectors, and where the entropy-coded data begins. */
    method ParseSos(data: seq<Byte>, i: nat)
      requires Valid() && i + 3 < |data|
      modifies this
      ensures Valid() && View() == SosUpdate(data, i, old(View()))
    {
      hide HuffTable.Valid, HuffTable.View;
      if i + 5 < |data| {
        dcHuff, acHuff := ReadSelectors(data, i, dcHuff, acHuff);
      } else {
        NothingRead(data, i);
      }
      ecsOffset := i + 2 + Be16(data, i + 2);
    }

    /** One Huffman table at `offset`, into table t. */
    static method ReadTableInto(t: HuffTable, data: seq<Byte>, offset: nat) returns (panic: bool, numValues: nat)
      requires t.Valid()
      modifies t
      ensures numValues == SumBytes(data, offset + 1, offset + 17)
      ensures panic == TablePanics(data, offset)
      ensures !panic ==> t.Valid() && t.View() == ReadTable(old(t.View()), data, offset)
    {
      numValues := 0;
      for j := 0 to LENGTHS
        invariant numValues == SumBytes(data, offset + 1, offset + 1 + j)
        invariant t.values == old(t.values) && |t.bits| == |t.minCodes| == |t.maxCodes| == |t.ptrs| == LENGTHS
        invariant forall k :: 0 <= k < LENGTHS ==>
          t.bits[k] == if k < j && offset + 1 + k < |data| then data[offset + 1 + k] else old(t.bits)[k]
      {
        if offset + 1 + j < |data| {
          t.bits := t.bits[j := data[offset + 1 + j]];
          numValues := numValues + data[offset + 1 + j];
        }
      }
      ghost var read := Overlay(LENGTHS, old(t.bits), data, offset + 1, LENGTHS);
      assert t.bits == read;
      for j := 0 to numValues
        invariant t.bits == read && |t.values| == 256 && |t.minCodes| == |t.maxCodes| == |t.ptrs| == LENGTHS
        invariant j <= 256 || offset + 17 + 256 >= |data|
        invariant forall k :: 0 <= k < 256 ==>
          t.values[k] == if k < j && offset + 17 + k < |data| then data[offset + 17 + k] else old(t.values)[k]
      {
        if offset + 17 + j < |data| {
          if j >= 256 {
            panic := true;
            return;
          }
          t.values := t.values[j := data[offset + 17 + j]];
        }
      }
      panic := false;
      assert t.values == Overlay(256, old(t.values), data, offset + 17, numValues);
      t.numValues := numValues;
      t.Generate();
    }

    method ParseDht(data: seq<Byte>, start: nat, end: nat) returns (panic: bool)
      requires Valid()
      modifies Repr()
      ensures panic == DhtUpdate(data, start, end, old(View())).Panic?
      ensures !panic ==> Valid() && DhtUpdate(data, start, end, old(View())) == Parsed(View())
    {
      hide HuffTable.Valid, HuffTable.View;
      var offset := start;
      while offset < end && offset + 1 < |data|
        invariant Valid()
        invariant DhtUpdate(data, start, end, old(View())) == DhtUpdate(data, offset, end, View())
        decreases end - offset
      {
        var numValues;
        panic, numValues := ReadSlot(data, offset);
        if panic {
          return;
        }
        offset := offset + 17 + numValues;
      }
      panic := false;
    }

    /** One Huffman table, into the slot its Tc/Th byte names. */
    method ReadSlot(data: seq<Byte>, offset: nat) returns (panic: bool, numValues: nat)
      requires Valid() && offset + 1 < |data|
      modifies Repr()
      ensures numValues == SumBytes(data, offset + 1, offset + 17)
      ensures panic == TablePanics(data, offset)
      ensures !panic ==> Valid() && View() == DhtStep(data, offset, old(View()))
    {
      hide HuffTable.Valid, HuffTable.View;
      var slot := HuffSlot(data[offset] / 16, data[offset] % 16);
      panic, numValues := ReadTableInto(huff.Get(slot), data, offset);
    }

    /** One quantisation table, into the buffer its Pq/Tq byte names. */
    method ReadQuantSlot(data: seq<Byte>, offset: nat) returns (panic: bool)
      requires Valid() && offset + 1 < |data|
      modifies Repr()
      ensures panic == QuantPanics(data, offset)
      ensures !panic ==> Valid() && View() == DqtStep(data, offset, old(View()))
    {
      hide HuffTable.Valid, HuffTable.View;
      var pqTq := data[offset];
      var tq: nat := pqTq % 16;
      if tq < 4 {
        var q := quant.Get(tq);
        q.Read(data, offset);
      } else if pqTq / 16 == 0 || offset + 2 < |data| {
        panic := true;
        return;
      }
      if tq >= quantCount {
        quantCount := tq + 1;
      }
      panic := false;
    }

    method ParseDqt(data: seq<Byte>, start: nat, end: nat) returns (panic: bool)
      requires Valid()
      modifies Repr()
      ensures panic == DqtUpdate(data, start, end, old(View())).Panic?
      ensures !panic ==> Valid() && DqtUpdate(data, start, end, old(View())) == Parsed(View())
    {
      hide HuffTable.Valid, HuffTable.View;
      var offset := start;
      while offset < end && offset + 1 < |data|
        invariant Valid()
        invariant DqtUpdate(data, start, end, old(View())) == DqtUpdate(data, offset, end, View())
        decreases end - offset
      {
        var length := QuantLength(data[offset]);
        panic := ReadQuantSlot(data, offset);
        if panic {
          return;
        }
        offset := offset + length;
      }
      panic := false;
    }

    /** One round of the main loop. */
    method Round(data: seq<Byte>, i: nat) returns (c: Control)
      requires Valid() && i + 1 < |data|
      modifies Repr()
      ensures match StepAt(data, i, old(View()))
              case Goto(next, h) => c == Continue(next) && Valid() && View() == h
              case Stop(Parsed(h)) => c == Return && Valid() && View() == h
              case Stop(Failed(e)) => c == Error(e)
              case Stop(Panic) => c == IndexPanic
    {
      hide HuffTable.Valid, HuffTable.View;
      if data[i] != 0xFF {
        return Continue(i + 1);
      }
      match Classify(data[i + 1])
      case Fill =>
        return Continue(i + 1);
      case Stuffing | Soi | Other =>
        return Continue(i + 2);
      case Eoi =>
        return Error("SOS not found");
      case Sof =>
        if i + 10 >= |data| {
          return Error("SOF too short");
        }
        ParseSof(data, i);
        return Continue(i + 2 + Be16(data, i + 2));
      case Dht =>
        if i + 3 >= |data| {
          return Continue(i + 1);
        }
        var panic := ParseDht(data, i + 4, i + 2 + Be16(data, i + 2));
        return if panic then IndexPanic else Continue(i + 2 + Be16(data, i + 2));
      case Sos =>
        if i + 3 >= |data| {
          return Continue(i + 1);
        }
        ParseSos(data, i);
        return Return;
      case Dqt =>
        if i + 3 >= |data| {
          return Continue(i + 1);
        }
        var panic := ParseDqt(data, i + 4, i + 2 + Be16(data, i + 2));
        return if panic then IndexPanic else Continue(i + 2 + Be16(data, i + 2));
      case Dri =>
        ParseDri(data, i);
        return if i + 3 >= |data| then Continue(i + 1) else Continue(i + 2 + Be16(data, i + 2));
      case OtherWithLength =>
        return if i + 3 >= |data| then Continue(i + 2) else Continue(i + 2 + Be16(data, i + 2));
    }
  }

  method ParseJpegHeader(data: seq<Byte>) returns (info: JpegHeaderInfo, status: Status)
    ensures fresh(info.Repr())
    ensures match Parse(data)
            case Parsed(h) => status == Ok && info.Valid() && info.View() == h
            case Failed(e) => status == Err(e)
            case Panic => status == Panicked
  {
    var i := 0;
    info := new JpegHeaderInfo();
    while i + 1 < |data|
      invariant info.Valid() && fresh(info.Repr())
      invariant Parse(data) == ParseFrom(data, i, info.View())
      decreases |data| - i
    {
      var c := info.Round(data, i);
      match c
      case Continue(next) => i := next;
      case Return => return info, Ok;
      case Error(e) => return info, Err(e);
      case IndexPanic => return info, Panicked;
    }
    return info, Err("SOS not found");
  }
}
