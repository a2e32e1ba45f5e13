/**
 Where a decoded frame goes: plane sizes from the header in 32-bit arithmetic, the check against the
 output buffer, the plane registers; and where in the stream decoding begins.
 */
module JpuLayout {
  import opened Arith
  import opened JpegHeader
  import opened Wrappers

  /** The value a 32-bit register or product keeps. */
  function Low32(x: nat): nat {
    x % WORD32
  }

  /** Up to a multiple of 16, or of 8. */
  function AlignTo(x: nat, by16: bool): nat {
    if by16 then (x + 15) / 16 * 16 else (x + 7) / 8 * 8
  }

  datatype Layout = Layout(
    width: nat, height: nat, strideY: nat, strideC: nat, luma: nat, chroma: nat, blocks: nat, compInfo: bv32)

  // ---- Plane sizes --------------------------------------------------------------------------------

  function AlignedWidth(width: nat, format: nat): nat {
    AlignTo(width, format == FORMAT_420 || format == FORMAT_422)
  }

  function AlignedHeight(height: nat, format: nat): nat {
    AlignTo(height, format == FORMAT_420 || format == FORMAT_224)
  }

  function ChromaStride(aligned: nat, format: nat): nat {
    if format == FORMAT_420 || format == FORMAT_422 then aligned / 2 else if format == FORMAT_400 then 0 else aligned
  }

  /** Rows of a chroma plane: half where the format halves them vertically. */
  function ChromaRows(aligned: nat, format: nat): nat {
    if format == FORMAT_420 || format == FORMAT_224 then aligned / 2 else aligned
  }

  /** Bytes of the luma plane and of each chroma plane, from the aligned sides. */
  function LumaSize(w: nat, r: nat): nat {
    Low32(w * r)
  }

  function ChromaSize(w: nat, r: nat, format: nat): nat {
    if format == FORMAT_422 || format == FORMAT_224 then LumaSize(w, r) / 2
    else if format == FORMAT_444 then LumaSize(w, r)
    else if format == FORMAT_400 then 0
    else Low32(ChromaStride(w, format) * r) / 2
  }

  // ---- Sampling factors -----------------------------------------------------------------------------

  /** A sampling factor, four bits in the frame header, as a register field. */
  function Bits(factor: nat): bv32 {
    (factor % 16) as bv32
  }

  function BitsOf(sampling: Three<(nat, nat)>): Three<(bv32, bv32)> {
    Three((Bits(sampling.a.0), Bits(sampling.a.1)), (Bits(sampling.b.0), Bits(sampling.b.1)), (Bits(sampling.c.0), Bits(sampling.c.1)))
  }

  /** The nibble of component i in its place: Y in bits 8 to 11, Cb in 4 to 7, Cr in 0 to 3. */
  function Placed(h: bv32, v: bv32, i: nat): bv32 {
    var nibble := (h << 2) | v;
    if i == 0 then nibble << 8 else if i == 1 then nibble << 4 else nibble
  }

  function Pick<T>(s: Three<T>, i: nat): T {
    if i == 0 then s.a else if i == 1 then s.b else s.c
  }

  function Or(a: bv32, b: bv32): bv32 {
    a | b
  }

  /** The register word for the first n components. */
  function CompInfo(s: Three<(bv32, bv32)>, n: nat): bv32 {
    if n == 0 then 0 else Or(CompInfo(s, n - 1), Placed(Pick(s, n - 1).0, Pick(s, n - 1).1, n - 1))
  }

  function Blocks(s: Three<(nat, nat)>, n: nat): nat {
    if n == 0 then 0 else Blocks(s, n - 1) + Pick(s, n - 1).0 * Pick(s, n - 1).1
  }

  /** What can be read back for each component: two bits each way. */
  function Fields(info: bv32): Three<(bv32, bv32)> {
    Three(((info >> 10) & 3, (info >> 8) & 3), ((info >> 6) & 3, (info >> 4) & 3), ((info >> 2) & 3, info & 3))
  }

  predicate Small(s: Three<(bv32, bv32)>) {
    s.a.0 <= 3 && s.a.1 <= 3 && s.b.0 <= 3 && s.b.1 <= 3 && s.c.0 <= 3 && s.c.1 <= 3
  }

  lemma CompInfoOfThree(s: Three<(bv32, bv32)>)
    ensures CompInfo(s, 3) == Or(Or(Or(0, Placed(s.a.0, s.a.1, 0)), Placed(s.b.0, s.b.1, 1)), Placed(s.c.0, s.c.1, 2))
  {
    hide Placed, Or;
    CompInfoStep(s, 1);
    CompInfoStep(s, 2);
    CompInfoStep(s, 3);
  }

  lemma CompInfoStep(s: Three<(bv32, bv32)>, n: nat)
    requires n > 0
    ensures CompInfo(s, n) == Or(CompInfo(s, n - 1), Placed(Pick(s, n - 1).0, Pick(s, n - 1).1, n - 1))
  {
  }

  /** Every component can be read back from the register word iff no factor exceeds 3. */
  lemma CompInfoReadsBackIff(sampling: Three<(nat, nat)>)
    requires sampling.a.0 < 16 && sampling.a.1 < 16 && sampling.b.0 < 16 && sampling.b.1 < 16 && sampling.c.0 < 16 && sampling.c.1 < 16
    ensures Fields(CompInfo(BitsOf(sampling), 3)) == BitsOf(sampling)
            <==> sampling.a.0 <= 3 && sampling.a.1 <= 3 && sampling.b.0 <= 3 && sampling.b.1 <= 3 && sampling.c.0 <= 3 && sampling.c.1 <= 3
  {
    hide Bits, Fields, CompInfo, Placed, Or;
    BitsSmall(sampling.a.0);
    BitsSmall(sampling.a.1);
    BitsSmall(sampling.b.0);
    BitsSmall(sampling.b.1);
    BitsSmall(sampling.c.0);
    BitsSmall(sampling.c.1);
    ReadsBackIffSmall(BitsOf(sampling));
  }

  lemma BitsSmall(x: nat)
    requires x < 16
    ensures Bits(x) <= 3 <==> x <= 3
  {
  }

  lemma ReadsBackIffSmall(s: Three<(bv32, bv32)>)
    ensures Fields(CompInfo(s, 3)) == s <==> Small(s)
  {
    hide CompInfo, Placed, Fields, Or;
    CompInfoOfThree(s);
    FieldsSmall(CompInfo(s, 3));
    if Small(s) {
      SmallReadsBack(s.a.0, s.a.1, s.b.0, s.b.1, s.c.0, s.c.1);
    }
  }

  lemma FieldsSmall(info: bv32)
    ensures Small(Fields(info))
  {
  }

  lemma SmallReadsBack(a: bv32, b: bv32, c: bv32, d: bv32, e: bv32, f: bv32)
    requires a <= 3 && b <= 3 && c <= 3 && d <= 3 && e <= 3 && f <= 3
    ensures Fields(Or(Or(Or(0, Placed(a, b, 0)), Placed(c, d, 1)), Placed(e, f, 2))) == Three((a, b), (c, d), (e, f))
  {
  }

  // ---- The layout and the planes ------------------------------------------------------------------------

  /** The layout of a frame, with the bytes that all its planes take. */
  function LayoutOf(h: Header): (nat, Layout) {
    var aw, ah := AlignedWidth(h.width, h.format), AlignedHeight(h.height, h.format);
    var luma, chroma := LumaSize(aw, ah), ChromaSize(aw, ah, h.format);
    var n := if h.numComponents < 3 then h.numComponents else 3;
    (luma + 2 * chroma,
     Layout(aw, ah, aw, ChromaStride(aw, h.format), luma, chroma, Blocks(h.sampling, n), CompInfo(BitsOf(h.sampling), n)))
  }

  method FrameLayout(h: Header) returns (frameSize: nat, layout: Layout)
    ensures (frameSize, layout) == LayoutOf(h)
  {
    hide Bits, Placed, Or, Low32, AlignTo;
    var alignedWidth := AlignTo(h.width, h.format == FORMAT_420 || h.format == FORMAT_422);
    var alignedHeight := AlignTo(h.height, h.format == FORMAT_420 || h.format == FORMAT_224);
    var strideC := ChromaStride(alignedWidth, h.format);
    var lumaSize := Low32(alignedWidth * alignedHeight);
    var chromaSize :=
      if h.format == FORMAT_420 then Low32(strideC * alignedHeight) / 2
      else if h.format == FORMAT_422 || h.format == FORMAT_224 then lumaSize / 2
      else if h.format == FORMAT_444 then lumaSize
      else if h.format == FORMAT_400 then 0
      else Low32(strideC * alignedHeight) / 2;
    var compInfo: bv32, mcuBlockNum := 0, 0;
    var i := 0;
    while i < 3 && i < h.numComponents
      invariant i <= 3 && i <= h.numComponents
      invariant compInfo == CompInfo(BitsOf(h.sampling), i) && mcuBlockNum == Blocks(h.sampling, i)
    {
      var (hf, vf) := Pick(h.sampling, i);
      compInfo := Or(compInfo, Placed(Bits(hf), Bits(vf), i));
      mcuBlockNum := mcuBlockNum + hf * vf;
      i := i + 1;
    }
    frameSize := lumaSize + chromaSize * 2;
    layout := Layout(alignedWidth, alignedHeight, alignedWidth, strideC, lumaSize, chromaSize, mcuBlockNum, compInfo);
  }

  /** A frame whose luma plane a 32-bit product can count. */
  predicate Countable(h: Header) {
    AlignedWidth(h.width, h.format) * AlignedHeight(h.height, h.format) < WORD32
  }

  ghost predicate FromSof(h: Header) {
    h.width < 0x1_0000 && h.height < 0x1_0000 && h.format <= FORMAT_400
  }

  /** The planes have the sizes that strides and rows call for, and room for the image, iff the product fits in 32 bits. */
  lemma PlanesFitStridesIff(h: Header)
    requires FromSof(h)
    ensures var l := LayoutOf(h).1;
            && (Countable(h) <==> l.luma == l.strideY * l.height)
            && (Countable(h) <==> l.luma >= h.width * h.height)
            && (Countable(h) ==> l.chroma == l.strideC * ChromaRows(l.height, h.format))
            && l.strideY >= h.width && l.height >= h.height
  {
    hide Blocks, CompInfo, BitsOf, AlignedWidth, AlignedHeight, ChromaSize, ChromaRows, ChromaStride, Low32;
    var w, r := AlignedWidth(h.width, h.format), AlignedHeight(h.height, h.format);
    AlignedSides(h.width, h.height, h.format);
    Covers(h.width, h.height, w, r);
    if h.width == 0 || h.height == 0 {
      assert w * r == 0 && h.width * h.height == 0;
      Low32Small(0);
    } else {
      Covers(1, 1, h.width, h.height);
      Kept(w, r, h.width * h.height);
    }
    if Countable(h) {
      ChromaFits(w, r, h.format);
    }
  }

  lemma Low32Small(x: nat)
    requires x < WORD32
    ensures Low32(x) == x
  {
  }

  lemma AlignedSides(width: nat, height: nat, format: nat)
    requires width < 0x1_0000 && height < 0x1_0000
    ensures var w, r := AlignedWidth(width, format), AlignedHeight(height, format);
            && width <= w <= 0x1_0000 && height <= r <= 0x1_0000 && w % 2 == 0 && r % 2 == 0
            && (width == 0 ==> w == 0) && (height == 0 ==> r == 0)
  {
    hide AlignTo;
    Aligned(width, format == FORMAT_420 || format == FORMAT_422);
    Aligned(height, format == FORMAT_420 || format == FORMAT_224);
  }

  lemma Aligned(x: nat, by16: bool)
    ensures x <= AlignTo(x, by16) && AlignTo(x, by16) % 2 == 0 && (x < 0x1_0000 ==> AlignTo(x, by16) <= 0x1_0000)
    ensures x == 0 ==> AlignTo(x, by16) == 0
  {
    var q := if by16 then (x + 15) / 16 else (x + 7) / 8;
    assert AlignTo(x, by16) == if by16 then 16 * q else 8 * q;
    hide AlignTo;
    if by16 {
      assert 16 * q <= x + 15 < 16 * q + 16;
      Even(8 * q);
    } else {
      assert 8 * q <= x + 7 < 8 * q + 8;
      Even(4 * q);
    }
  }

  lemma Even(k: nat)
    ensures 2 * k % 2 == 0
  {
  }

  /** A product of two 16-bit extents loses nothing in 32 bits, or everything. */
  lemma Kept(w: nat, r: nat, image: nat)
    requires w <= 0x1_0000 && r <= 0x1_0000 && 0 < image <= w * r
    ensures w * r < WORD32 <==> Low32(w * r) == w * r
    ensures w * r < WORD32 <==> Low32(w * r) >= image
  {
    Covers(w, r, 0x1_0000, 0x1_0000);
  }

  lemma ChromaFits(w: nat, r: nat, format: nat)
    requires format <= FORMAT_400 && w % 2 == 0 && r % 2 == 0 && w * r < WORD32
    ensures ChromaSize(w, r, format) == ChromaStride(w, format) * ChromaRows(r, format)
  {
    hide Low32;
    Quartered(w, r);
    Low32Small(w * r);
    Low32Small((w / 2) * r);
  }

  /** Halving a product is halving its even factor. */
  lemma Quartered(w: nat, r: nat)
    requires w % 2 == 0 && r % 2 == 0
    ensures w * r / 2 == (w / 2) * r == w * (r / 2) && (w / 2) * r <= w * r
    ensures (w / 2) * r / 2 == (w / 2) * (r / 2)
  {
    Doubled(w / 2, r);
    Doubled(r / 2, w);
    Doubled(r / 2, w / 2);
  }

  lemma Covers(a: nat, b: nat, w: nat, r: nat)
    requires a <= w && b <= r
    ensures a * b <= w * r
  {
    Arith.MulMonotone(a, w, b);
    Arith.MulMonotone(b, r, w);
    assert a * b <= w * b && b * w == w * b && r * w == w * r;
  }

  lemma Doubled(half: nat, other: nat)
    ensures (2 * half) * other == 2 * (half * other) == other * (2 * half)
  {
  }

  // ---- The planes ---------------------------------------------------------------------------------------

  /** What three planes of these strides take, counted without wrapping. */
  function Needed(h: Header): nat {
    var l := LayoutOf(h).1;
    PlaneBytes(l.strideY, l.height) + 2 * PlaneBytes(l.strideC, ChromaRows(l.height, h.format))
  }

  function PlaneBytes(stride: nat, rows: nat): nat {
    stride * rows
  }

  predicate PassesGuard(h: Header, size: nat) {
    LayoutOf(h).0 <= size
  }

  /** A buffer that passes the size check has room for the planes iff the luma plane can be counted in 32 bits. */
  lemma GuardSufficesIff(h: Header)
    requires FromSof(h)
    ensures (forall size: nat :: PassesGuard(h, size) ==> Needed(h) <= size) <==> Countable(h)
  {
    hide Blocks, CompInfo, BitsOf, AlignedWidth, AlignedHeight, ChromaSize, ChromaRows, ChromaStride, Low32;
    PlanesFitStridesIff(h);
    var frameSize, l := LayoutOf(h).0, LayoutOf(h).1;
    if !Countable(h) {
      Vanishes(h);
      assert PassesGuard(h, frameSize) && !(Needed(h) <= frameSize);
    }
  }

  lemma Vanishes(h: Header)
    requires FromSof(h) && !Countable(h)
    ensures var l := LayoutOf(h).1;
            l.luma == 0 && l.strideY * l.height > 0 && l.chroma <= l.strideC * ChromaRows(l.height, h.format)
  {
    hide Blocks, CompInfo, BitsOf, AlignedWidth, AlignedHeight;
    var w, r := AlignedWidth(h.width, h.format), AlignedHeight(h.height, h.format);
    AlignedSides(h.width, h.height, h.format);
    Covers(w, r, 0x1_0000, 0x1_0000);
    if w < 0x1_0000 {
      Covers(w, r, 0xFFFF, 0x1_0000);
    }
    if r < 0x1_0000 {
      Covers(w, r, 0x1_0000, 0xFFFF);
    }
    assert w == r == 0x1_0000;
  }

  datatype Plane = Plane(base: nat, size: nat)

  /** The plane registers, and the planes that they stand for. */
  datatype Planes = Planes(y: Plane, cb: Plane, cr: Plane, registers: Three<nat>)

  /** The hardware is started only on three consecutive planes inside the output buffer. */
  method PlaceFrame(h: Header, frameAddr: nat, bufferSize: nat) returns (r: Result<Planes, string>)
    ensures if PassesGuard(h, bufferSize) then r.Ok? else r == Err("output buffer too small")
    ensures r.Ok? ==>
              var (p, l) := (r.value, LayoutOf(h).1);
              && p.y == Plane(frameAddr, l.luma) && p.cb == Plane(frameAddr + l.luma, l.chroma)
              && p.cr.base == p.cb.base + p.cb.size && p.cr.size == l.chroma && p.cr.base + p.cr.size <= frameAddr + bufferSize
              && (frameAddr + bufferSize < WORD32 ==> p.registers == Three(p.y.base, p.cb.base, p.cr.base))
  {
    hide LayoutOf, Low32;
    var frameSize, layout := FrameLayout(h);
    if frameSize > bufferSize {
      return Err("output buffer too small");
    }
    FrameSizeIs(h);
    var cb := frameAddr + layout.luma;
    var cr := cb + layout.chroma;
    if frameAddr + bufferSize < WORD32 {
      Low32Small(frameAddr);
      Low32Small(cb);
      Low32Small(cr);
    }
    r := Ok(Planes(Plane(frameAddr, layout.luma), Plane(cb, layout.chroma), Plane(cr, layout.chroma),
                   Three(Low32(frameAddr), Low32(cb), Low32(cr))));
  }

  lemma FrameSizeIs(h: Header)
    ensures LayoutOf(h).0 == LayoutOf(h).1.luma + 2 * LayoutOf(h).1.chroma
  {
  }

  // ---- Where decoding begins ---------------------------------------------------------------------------

  const PAGE_BYTES: nat := 256
  const BUFFER_BYTES: nat := 512

  /** One page fetched: from a bus address to a word offset of the internal buffer, so many words. */
  datatype Fetch = Fetch(from: nat, toWord: nat, words: nat)

  /** The registers of a start: the pages fetched, and word and bit position of the first code bit. */
  datatype Gram = Gram(fetches: seq<Fetch>, nextPage: nat, wordPtr: nat, bitPtr: nat)

  /** The bus address that byte x of the internal buffer was last fetched from. */
  function SourceOf(fetches: seq<Fetch>, x: nat): nat {
    if fetches == [] then 0
    else
      var f := fetches[|fetches| - 1];
      if 4 * f.toWord <= x < 4 * (f.toWord + f.words) then Low32(f.from + (x - 4 * f.toWord))
      else SourceOf(fetches[..|fetches| - 1], x)
  }

  /** Two pages go into the halves of the internal buffer that their parity selects. */
  method GramSetup(stream: nat, ecsOffset: nat) returns (g: Gram)
    ensures var page := ecsOffset / PAGE_BYTES;
            && g.fetches == [FetchOf(stream, page), FetchOf(stream, page + 1)] && g.nextPage == Low32(page + 2)
            && g.wordPtr == 64 * (page % 2) + 4 * (ecsOffset % PAGE_BYTES / 16) && g.bitPtr == 8 * (ecsOffset % 16)
  {
    hide Low32;
    var pagePtr := ecsOffset / PAGE_BYTES;
    var wordPtr := ecsOffset % PAGE_BYTES / 16 * 16 / 4;
    var bitPtr := ecsOffset % 16 * 8;
    if pagePtr % 2 != 0 {
      wordPtr := wordPtr + 64;
    }
    if wordPtr % 2 != 0 {
      wordPtr := wordPtr - 1;
    }
    var fetches: seq<Fetch> := [];
    for i := 0 to 2
      invariant fetches == if i == 0 then [] else if i == 1 then [FetchOf(stream, pagePtr)]
                           else [FetchOf(stream, pagePtr), FetchOf(stream, pagePtr + 1)]
    {
      var page := pagePtr + i;
      fetches := fetches + [Fetch(Low32(Low32(stream) + Low32(Low32(page) * 256)), page % 2 * 64, 256 / 4)];
    }
    g := Gram(fetches, Low32(pagePtr + 2), wordPtr, bitPtr);
  }

  function FetchOf(stream: nat, page: nat): Fetch {
    Fetch(Low32(Low32(stream) + Low32(Low32(page) * 256)), page % 2 * 64, 64)
  }

  /**
   Word and bit pointer together address the first byte of entropy-coded data, and the bytes after
   it, to the end of the second page, follow it around the internal buffer.
   */
  lemma PointersFindData(stream: nat, ecsOffset: nat, k: nat)
    requires k < BUFFER_BYTES - ecsOffset % PAGE_BYTES
    ensures var page := ecsOffset / PAGE_BYTES;
            var start := 4 * (64 * (page % 2) + 4 * (ecsOffset % PAGE_BYTES / 16)) + 8 * (ecsOffset % 16) / 8;
            SourceOf([FetchOf(stream, page), FetchOf(stream, page + 1)], (start + k) % BUFFER_BYTES) == Low32(stream + ecsOffset + k)
  {
    hide Low32, FetchOf;
    var page, within := ecsOffset / PAGE_BYTES, ecsOffset % PAGE_BYTES;
    StartIs(ecsOffset);
    if within + k < PAGE_BYTES {
      InFirst(page, within + k);
      SourceInPage(stream, page, page, within + k);
      FetchedByte(stream, page, within + k);
    } else {
      Around(page, within, k);
      SourceInPage(stream, page, page + 1, within + k - PAGE_BYTES);
      FetchedByte(stream, page + 1, within + k - PAGE_BYTES);
    }
  }

  /** Word and bit pointer, in bytes of the internal buffer. */
  lemma StartIs(ecsOffset: nat)
    ensures var page, within := ecsOffset / PAGE_BYTES, ecsOffset % PAGE_BYTES;
            4 * (64 * (page % 2) + 4 * (within / 16)) + 8 * (ecsOffset % 16) / 8 == 256 * (page % 2) + within
  {
    var within := ecsOffset % PAGE_BYTES;
    var row, bit := within / 16, within % 16;
    QuotientUnique(ecsOffset, 16, ecsOffset / PAGE_BYTES * 16 + row, bit);
  }

  lemma InFirst(page: nat, x: nat)
    requires x < PAGE_BYTES
    ensures (256 * (page % 2) + x) % BUFFER_BYTES == 256 * (page % 2) + x
  {
  }

  lemma Around(page: nat, within: nat, k: nat)
    requires within < PAGE_BYTES <= within + k < BUFFER_BYTES
    ensures (256 * (page % 2) + within + k) % BUFFER_BYTES == 256 * ((page + 1) % 2) + (within + k - PAGE_BYTES)
  {
    if page % 2 == 1 {
      QuotientUnique(256 + within + k, BUFFER_BYTES, 1, within + k - PAGE_BYTES);
      QuotientUnique(page + 1, 2, page / 2 + 1, 0);
    } else {
      QuotientUnique(page + 1, 2, page / 2, 1);
    }
  }

  /** Two pages in a row lie in different halves of the buffer. */
  lemma SourceInPage(stream: nat, page: nat, which: nat, x: nat)
    requires which == page || which == page + 1
    requires x < PAGE_BYTES
    ensures SourceOf([FetchOf(stream, page), FetchOf(stream, page + 1)], 256 * (which % 2) + x) == Low32(FetchOf(stream, which).from + x)
  {
    hide Low32;
    var first, second := FetchOf(stream, page), FetchOf(stream, page + 1);
    assert [first, second][..1] == [first];
    assert (page + 1) % 2 == 1 - page % 2;
  }

  lemma FetchedByte(stream: nat, page: nat, d: nat)
    ensures Low32(FetchOf(stream, page).from + d) == Low32(stream + page * PAGE_BYTES + d)
  {
    hide Low32;
    var scaled := Low32(page) * 256;
    calc {
      Low32(FetchOf(stream, page).from + d);
      Low32(Low32(Low32(stream) + Low32(scaled)) + d);
      { Low32Sum(Low32(stream) + Low32(scaled), d); }
      Low32(Low32(stream) + (Low32(scaled) + d));
      { Low32Sum(stream, Low32(scaled) + d); Low32Sum(scaled, stream + d); }
      Low32(scaled + (stream + d));
      { Low32Scaled(page, stream + d); }
      Low32(stream + page * PAGE_BYTES + d);
    }
  }

  /** Multiples of 2^32 make no difference. */
  lemma Low32Shift(x: nat, k: nat)
    ensures Low32(x + k * WORD32) == Low32(x)
  {
    var q := x / WORD32;
    QuotientUnique(x + k * WORD32, WORD32, q + k, x - q * WORD32);
  }

  lemma Low32Split(a: nat) returns (q: nat)
    ensures a == Low32(a) + q * WORD32
  {
    q := a / WORD32;
  }

  lemma Low32Sum(a: nat, b: nat)
    ensures Low32(Low32(a) + b) == Low32(a + b)
  {
    hide Low32;
    var q := Low32Split(a);
    Low32Shift(Low32(a) + b, q);
  }

  lemma Low32Scaled(a: nat, b: nat)
    ensures Low32(Low32(a) * 256 + b) == Low32(a * 256 + b)
  {
    hide Low32;
    var q := Low32Split(a);
    Low32Shift(Low32(a) * 256 + b, 256 * q);
  }
}
