/** Which Huffman tables the unit is told to use for each component: one bit for a selector of four. */
module JpuSelectors {
  import opened JpegHeader
  import opened JpuLayout

  /** A table selector, four bits in the scan header, as a register field. */
  function SelectorsOf(selectors: Three<nat>): Three<bv32> {
    Three(Bits(selectors.a), Bits(selectors.b), Bits(selectors.c))
  }

  /** One more selector at the low end. */
  function Shifted(idx: bv32, selector: bv32): bv32 {
    (idx << 1) | selector
  }

  function Index(s: Three<bv32>, n: nat): bv32 {
    if n == 0 then 0 else Shifted(Index(s, n - 1), Pick(s, n - 1))
  }

  /** The register word: each index cut to three bits, DC from bit 7 and AC from bit 10, and the bit for tables of the user. */
  function PicCtrl(dc: bv32, ac: bv32): bv32 {
    ((dc & 7) << 7) | ((ac & 7) << 10) | 0x40
  }

  /** What can be read back for each component. */
  function DcBits(word: bv32): Three<bv32> {
    Three((word >> 9) & 1, (word >> 8) & 1, (word >> 7) & 1)
  }

  function AcBits(word: bv32): Three<bv32> {
    Three((word >> 12) & 1, (word >> 11) & 1, (word >> 10) & 1)
  }

  method ConfigurePicture(h: Header) returns (picCtrl: bv32)
    ensures picCtrl == PicCtrl(Index(SelectorsOf(h.dcHuff), 3), Index(SelectorsOf(h.acHuff), 3))
  {
    hide Bits, Shifted, PicCtrl;
    var huffDcIdx: bv32, huffAcIdx: bv32 := 0, 0;
    for i := 0 to 3
      invariant huffDcIdx == Index(SelectorsOf(h.dcHuff), i) && huffAcIdx == Index(SelectorsOf(h.acHuff), i)
    {
      huffDcIdx := Shifted(huffDcIdx, Bits(Pick(h.dcHuff, i)));
      huffAcIdx := Shifted(huffAcIdx, Bits(Pick(h.acHuff, i)));
    }
    picCtrl := PicCtrl(huffDcIdx, huffAcIdx);
  }

  predicate OneBit(s: Three<bv32>) {
    s.a <= 1 && s.b <= 1 && s.c <= 1
  }

  predicate Nibbles(s: Three<nat>) {
    s.a < 16 && s.b < 16 && s.c < 16
  }

  /** The unit is told every component's tables as the scan names them iff no selector exceeds 1. */
  lemma SelectorsReadBackIff(dc: Three<nat>, ac: Three<nat>)
    requires Nibbles(dc) && Nibbles(ac)
    ensures var word := PicCtrl(Index(SelectorsOf(dc), 3), Index(SelectorsOf(ac), 3));
            DcBits(word) == SelectorsOf(dc) && AcBits(word) == SelectorsOf(ac)
            <==> dc.a <= 1 && dc.b <= 1 && dc.c <= 1 && ac.a <= 1 && ac.b <= 1 && ac.c <= 1
  {
    hide Bits, Index, PicCtrl, DcBits, AcBits;
    SmallSelectors(dc);
    SmallSelectors(ac);
    var d, a := SelectorsOf(dc), SelectorsOf(ac);
    OneBitRead(PicCtrl(Index(d, 3), Index(a, 3)));
    if OneBit(d) && OneBit(a) {
      IndexOfThree(d);
      IndexOfThree(a);
      OneBitsReadBack(d.a, d.b, d.c, a.a, a.b, a.c);
    }
  }

  lemma SmallSelectors(s: Three<nat>)
    requires Nibbles(s)
    ensures OneBit(SelectorsOf(s)) <==> s.a <= 1 && s.b <= 1 && s.c <= 1
  {
    hide Bits;
    BitsAtMostOne(s.a);
    BitsAtMostOne(s.b);
    BitsAtMostOne(s.c);
  }

  lemma BitsAtMostOne(x: nat)
    requires x < 16
    ensures Bits(x) <= 1 <==> x <= 1
  {
  }

  lemma OneBitRead(word: bv32)
    ensures OneBit(DcBits(word)) && OneBit(AcBits(word))
  {
  }

  lemma IndexOfThree(s: Three<bv32>)
    ensures Index(s, 3) == Shifted(Shifted(Shifted(0, s.a), s.b), s.c)
  {
    hide Shifted;
    IndexStep(s, 1);
    IndexStep(s, 2);
    IndexStep(s, 3);
  }

  lemma IndexStep(s: Three<bv32>, n: nat)
    requires n > 0
    ensures Index(s, n) == Shifted(Index(s, n - 1), Pick(s, n - 1)) && Index(s, 0) == 0
  {
  }

  lemma OneBitsReadBack(a: bv32, b: bv32, c: bv32, d: bv32, e: bv32, f: bv32)
    requires a <= 1 && b <= 1 && c <= 1 && d <= 1 && e <= 1 && f <= 1
    ensures var word := PicCtrl(Shifted(Shifted(Shifted(0, a), b), c), Shifted(Shifted(Shifted(0, d), e), f));
            DcBits(word) == Three(a, b, c) && AcBits(word) == Three(d, e, f)
  {
  }

  /** Selector 2 for the second component reads as table 1 for the first and 0 for the second. */
  lemma SelectorSpills()
    ensures DcBits(PicCtrl(Index(SelectorsOf(Three(0, 2, 0)), 3), Index(SelectorsOf(Three(0, 0, 0)), 3))) == Three(1, 0, 0)
  {
    hide Index, Bits, Shifted, PicCtrl, DcBits;
    IndexOfThree(SelectorsOf(Three(0, 2, 0)));
    IndexOfThree(SelectorsOf(Three(0, 0, 0)));
    ZeroAndTwo();
    SpilledWord();
  }

  lemma ZeroAndTwo()
    ensures Bits(0) == 0 && Bits(2) == 2
  {
  }

  lemma SpilledWord()
    ensures DcBits(PicCtrl(Shifted(Shifted(Shifted(0, 0), 2), 0), Shifted(Shifted(Shifted(0, 0), 0), 0))) == Three(1, 0, 0)
  {
  }
}
