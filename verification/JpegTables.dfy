/**
 Tables by class and number: which of the Huffman tables that a header prints under a name is in force once it is
 parsed, with the names given by the header and not by the parser's slots.
 */
module JpegTables {
  import opened Arith
  import opened Huffman
  import opened JpegHeader
  import opened JpegPrinter
  import opened JpegMeaning
  import opened Wrappers

  /** Of class tc (0 for DC, 1 for AC) and number th. */
  ghost function Named(tc: nat, th: nat): HuffSpec -> bool {
    (t: HuffSpec) => t.tc == tc && t.th == th
  }

  /** The parser looks at the lowest bit of each. */
  ghost function Alike(tc: nat, th: nat): HuffSpec -> bool {
    (t: HuffSpec) => t.tc % 2 == tc % 2 && t.th % 2 == th % 2
  }

  /** The last such table of a segment. */
  ghost function LastIn(ts: seq<HuffSpec>, pick: HuffSpec -> bool): Option<HuffSpec> {
    if ts == [] then None
    else
      var last := ts[|ts| - 1];
      if pick(last) then Some(last) else LastIn(ts[..|ts| - 1], pick)
  }

  /** The last one printed in any segment. */
  ghost function LastPrinted(items: seq<Item>, pick: HuffSpec -> bool): Option<HuffSpec> {
    if items == [] then None
    else
      var s := items[|items| - 1].segment;
      OrElse(if s.Huff? then LastIn(s.huffs, pick) else None, LastPrinted(items[..|items| - 1], pick))
  }

  /** Two classes and two numbers, which is what the baseline process allows. */
  ghost predicate TwoByTwo(ts: seq<HuffSpec>) {
    forall j :: 0 <= j < |ts| ==> ts[j].tc <= 1 && ts[j].th <= 1
  }

  ghost predicate Baseline(items: seq<Item>) {
    forall i :: 0 <= i < |items| && items[i].segment.Huff? ==> TwoByTwo(items[i].segment.huffs)
  }

  lemma {:induction false} LatestSnoc(ts: seq<HuffSpec>, t: HuffSpec, slot: nat)
    ensures LatestHuff(ts + [t], slot) == if HuffSlot(t.tc, t.th) == slot then Some(t) else LatestHuff(ts, slot)
  {
    if ts == [] {
      assert [t][1..] == [] && [] + [t] == [t];
    } else {
      LatestSnoc(ts[1..], t, slot);
      assert (ts + [t])[1..] == ts[1..] + [t];
    }
  }

  lemma {:induction false} LatestOfSnoc(items: seq<Item>, item: Item, slot: nat)
    ensures LatestHuffOf(items + [item], slot)
            == OrElse(if item.segment.Huff? then LatestHuff(item.segment.huffs, slot) else None, LatestHuffOf(items, slot))
  {
    hide LatestHuff;
    if items == [] {
      assert [item][1..] == [] && [] + [item] == [item];
    } else {
      LatestOfSnoc(items[1..], item, slot);
      assert (items + [item])[1..] == items[1..] + [item];
    }
  }

  lemma NoneLatest(slot: nat)
    ensures LatestHuff([], slot) == None
  {
  }

  lemma SlotAlike(t: HuffSpec, tc: nat, th: nat)
    ensures HuffSlot(t.tc, t.th) == 2 * (th % 2) + tc % 2 <==> Alike(tc, th)(t)
  {
  }

  lemma {:induction false} LastInIsLatest(ts: seq<HuffSpec>, tc: nat, th: nat)
    ensures LatestHuff(ts, 2 * (th % 2) + tc % 2) == LastIn(ts, Alike(tc, th))
    decreases |ts|
  {
    hide LatestHuff, HuffSlot, Alike;
    var slot := 2 * (th % 2) + tc % 2;
    if ts == [] {
      NoneLatest(slot);
    } else {
      var init, last := ts[..|ts| - 1], ts[|ts| - 1];
      LastInIsLatest(init, tc, th);
      SlotAlike(last, tc, th);
      LatestSnoc(init, last, slot);
      assert init + [last] == ts;
    }
  }

  lemma {:induction false} LastPrintedIsLatest(items: seq<Item>, tc: nat, th: nat)
    ensures LatestHuffOf(items, 2 * (th % 2) + tc % 2) == LastPrinted(items, Alike(tc, th))
    decreases |items|
  {
    hide LatestHuff, LastIn, Alike;
    if items != [] {
      var init, last := items[..|items| - 1], items[|items| - 1];
      LastPrintedIsLatest(init, tc, th);
      LatestOfSnoc(init, last, 2 * (th % 2) + tc % 2);
      assert init + [last] == items;
      if last.segment.Huff? {
        LastInIsLatest(last.segment.huffs, tc, th);
      }
    }
  }

  /** After parsing, the slot of a class and number holds the last table printed under one that is alike. */
  lemma AlikeTableInForce(img: Image, rest: seq<Byte>, tc: nat, th: nat)
    requires ValidImage(img)
    ensures var r := Parse(Print(img) + rest);
            && r.Parsed?
            && match LastPrinted(img.items, Alike(tc, th))
               case Some(d) => ValidHuff(d) && Holds(r.header.huff.Get(2 * (th % 2) + tc % 2), d)
               case None => r.header.huff.Get(2 * (th % 2) + tc % 2) == EmptyTable()
  {
    hide Parse, Print, LatestHuffOf, LastPrinted, Holds, Alike;
    HeaderRoundTrip(img, rest);
    HuffInForce(Initial(), img.items, 2 * (th % 2) + tc % 2);
    LastPrintedIsLatest(img.items, tc, th);
  }

  lemma {:induction false} BaselineLastIn(ts: seq<HuffSpec>, tc: nat, th: nat)
    requires TwoByTwo(ts) && tc <= 1 && th <= 1
    ensures LastIn(ts, Alike(tc, th)) == LastIn(ts, Named(tc, th))
    decreases |ts|
  {
    if ts != [] {
      BaselineLastIn(ts[..|ts| - 1], tc, th);
    }
  }

  lemma {:induction false} BaselineLast(items: seq<Item>, tc: nat, th: nat)
    requires Baseline(items) && tc <= 1 && th <= 1
    ensures LastPrinted(items, Alike(tc, th)) == LastPrinted(items, Named(tc, th))
    decreases |items|
  {
    hide LastIn, TwoByTwo, Alike, Named;
    if items != [] {
      BaselineLast(items[..|items| - 1], tc, th);
      var s := items[|items| - 1].segment;
      if s.Huff? {
        BaselineLastIn(s.huffs, tc, th);
      }
    }
  }

  /** With classes and numbers of 0 and 1 only, slot 2 * th + tc holds the last table printed under exactly these. */
  lemma PrintedTableInForce(img: Image, rest: seq<Byte>, tc: nat, th: nat)
    requires ValidImage(img) && Baseline(img.items) && tc <= 1 && th <= 1
    ensures var r := Parse(Print(img) + rest);
            && r.Parsed?
            && match LastPrinted(img.items, Named(tc, th))
               case Some(d) => ValidHuff(d) && Holds(r.header.huff.Get(2 * th + tc), d)
               case None => r.header.huff.Get(2 * th + tc) == EmptyTable()
  {
    hide Parse, Print, LastPrinted, Holds, Baseline, Alike, Named;
    AlikeTableInForce(img, rest, tc, th);
    BaselineLast(img.items, tc, th);
  }

  /** For any class and number: the slot holds the last table printed under them iff the last one alike says the same. */
  lemma NamedTableInForceIff(img: Image, rest: seq<Byte>, tc: nat, th: nat)
    requires ValidImage(img) && LastPrinted(img.items, Named(tc, th)).Some?
    ensures var r, named, alike := Parse(Print(img) + rest), LastPrinted(img.items, Named(tc, th)), LastPrinted(img.items, Alike(tc, th));
            && r.Parsed? && alike.Some?
            && (Holds(r.header.huff.Get(2 * (th % 2) + tc % 2), named.value)
                <==> alike.value.bits == named.value.bits && alike.value.values == named.value.values)
  {
    hide Parse, Print, LastPrinted, Alike, Named, ValidImage;
    AlikeTableInForce(img, rest, tc, th);
    NamedIsAlike(img.items, tc, th);
    var d := LastPrinted(img.items, Named(tc, th)).value;
    PrintedIsValid(img, Named(tc, th));
    SameHolds(Parse(Print(img) + rest).header.huff.Get(2 * (th % 2) + tc % 2), LastPrinted(img.items, Alike(tc, th)).value, d);
  }

  lemma SameHolds(t: Table, a: HuffSpec, d: HuffSpec)
    requires Holds(t, a) && ValidHuff(a) && ValidHuff(d)
    ensures Holds(t, d) <==> a.bits == d.bits && a.values == d.values
  {
    if Holds(t, d) {
      assert forall j :: 0 <= j < |a.values| ==> a.values[j] == t.values[j] == d.values[j];
    }
  }

  lemma {:induction false} NamedIsAlike(items: seq<Item>, tc: nat, th: nat)
    ensures LastPrinted(items, Named(tc, th)).Some? ==> LastPrinted(items, Alike(tc, th)).Some?
    decreases |items|
  {
    hide LastIn, Named, Alike;
    if items != [] {
      NamedIsAlike(items[..|items| - 1], tc, th);
      var s := items[|items| - 1].segment;
      if s.Huff? {
        NamedInIsAlike(s.huffs, tc, th);
      }
    }
  }

  lemma {:induction false} NamedInIsAlike(ts: seq<HuffSpec>, tc: nat, th: nat)
    ensures LastIn(ts, Named(tc, th)).Some? ==> LastIn(ts, Alike(tc, th)).Some?
    decreases |ts|
  {
    if ts != [] {
      NamedInIsAlike(ts[..|ts| - 1], tc, th);
    }
  }

  lemma {:induction false} LastInValid(ts: seq<HuffSpec>, pick: HuffSpec -> bool)
    requires forall j :: 0 <= j < |ts| ==> ValidHuff(ts[j])
    ensures LastIn(ts, pick).Some? ==> ValidHuff(LastIn(ts, pick).value)
    decreases |ts|
  {
    if ts != [] {
      LastInValid(ts[..|ts| - 1], pick);
    }
  }

  lemma {:induction false} EachHuffValid(ts: seq<HuffSpec>)
    requires AllHuffs(ts)
    ensures forall j :: 0 <= j < |ts| ==> ValidHuff(ts[j])
  {
    hide ValidHuff;
    if ts != [] {
      EachHuffValid(ts[1..]);
      assert forall j :: 1 <= j < |ts| ==> ts[j] == ts[1..][j - 1];
    }
  }

  lemma {:induction false} EachItemValid(items: seq<Item>)
    requires ValidItems(items)
    ensures forall i :: 0 <= i < |items| ==> ValidSegment(items[i].segment)
  {
    hide ValidSegment;
    if items != [] {
      EachItemValid(items[1..]);
      assert forall i :: 1 <= i < |items| ==> items[i] == items[1..][i - 1];
    }
  }

  lemma PrintedIsValid(img: Image, pick: HuffSpec -> bool)
    requires ValidImage(img)
    ensures LastPrinted(img.items, pick).Some? ==> ValidHuff(LastPrinted(img.items, pick).value)
  {
    hide ValidHuff, ValidSegment;
    EachItemValid(img.items);
    LastOfValid(img.items, pick);
  }

  lemma {:induction false} LastOfValid(items: seq<Item>, pick: HuffSpec -> bool)
    requires forall i :: 0 <= i < |items| ==> ValidSegment(items[i].segment)
    ensures LastPrinted(items, pick).Some? ==> ValidHuff(LastPrinted(items, pick).value)
    decreases |items|
  {
    hide ValidHuff, LastIn, Body;
    if items != [] {
      LastOfValid(items[..|items| - 1], pick);
      var s := items[|items| - 1].segment;
      if s.Huff? {
        EachHuffValid(s.huffs);
        LastInValid(s.huffs, pick);
      }
    }
  }

  /** A DC table 2, which a progressive image may have, takes the place of DC table 0. */
  lemma TableTwoReplaces(a: HuffSpec, b: HuffSpec)
    requires a.tc == 0 && a.th == 0 && b.tc == 0 && b.th == 2
    ensures var items := [Item(0, Huff([a, b]))];
            LastPrinted(items, Named(0, 0)) == Some(a) && LastPrinted(items, Alike(0, 0)) == Some(b)
  {
    var ts, items := [a, b], [Item(0, Huff([a, b]))];
    assert ts[..1] == [a] && items[..0] == [];
    assert LastIn([a], Named(0, 0)) == Some(a);
  }
}
