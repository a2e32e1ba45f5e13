/**
 What the layout of a frame should be, from its sampling factors alone: planes in whole MCUs, each component in
 proportion to its factors. The unit's layout is that for four samplings and no others.
 */
module JpuGeometry {
  import opened Arith
  import opened JpegHeader
  import opened JpuLayout

  function Max(a: nat, b: nat): nat {
    if a >= b then a else b
  }

  /** The least multiple of m that is at least x. */
  predicate LeastMultiple(y: nat, x: nat, m: nat) {
    m > 0 && y % m == 0 && x <= y < x + m
  }

  type Sampling = Three<(nat, nat)>

  /** Factors as section B.2.2 of ITU-T T.81 allows them: 1 to 4. */
  predicate Legal(s: Sampling) {
    && 1 <= s.a.0 <= 4 && 1 <= s.a.1 <= 4 && 1 <= s.b.0 <= 4 && 1 <= s.b.1 <= 4 && 1 <= s.c.0 <= 4 && 1 <= s.c.1 <= 4
  }

  /**
   Section A.1.1 and A.2.4: the frame is padded to whole MCUs of 8 samples times the largest factor each way, and a
   component with factor h out of hMax has h/hMax of its samples.
   */
  predicate Follows(s: Sampling, width: nat, height: nat) {
    var hMax, vMax := Max(s.a.0, Max(s.b.0, s.c.0)), Max(s.a.1, Max(s.b.1, s.c.1));
    var format := FormatOf(s);
    var stride, rows := AlignedWidth(width, format), AlignedHeight(height, format);
    var strideC, rowsC := ChromaStride(stride, format), ChromaRows(rows, format);
    && LeastMultiple(stride, width, 8 * hMax) && LeastMultiple(rows, height, 8 * vMax)
    && stride * s.a.0 == stride * hMax && rows * s.a.1 == rows * vMax
    && strideC * hMax == stride * s.b.0 == stride * s.c.0
    && rowsC * vMax == rows * s.b.1 == rows * s.c.1
  }

  /** 4:2:0, 4:2:2, 4:4:0 and 4:4:4 with chroma sampled once. */
  predicate Supported(s: Sampling) {
    s.a.0 <= 2 && s.a.1 <= 2 && s.b == (1, 1) && s.c == (1, 1)
  }

  lemma AlignIs(x: nat, by16: bool)
    ensures LeastMultiple(AlignTo(x, by16), x, if by16 then 16 else 8)
  {
  }

  lemma Halves(x: nat)
    requires x % 16 == 0
    ensures x / 2 * 2 == x
  {
    var q := x / 16;
    QuotientUnique(x, 2, 8 * q, 0);
  }

  /** For every size the strides and rows follow the sampling factors iff they are among the four. */
  lemma FollowsIff(s: Sampling)
    requires Legal(s)
    ensures (forall width, height :: 0 < width < 0x1_0000 && 0 < height < 0x1_0000 ==> Follows(s, width, height)) <==> Supported(s)
  {
    if Supported(s) {
      forall width, height | 0 < width < 0x1_0000 && 0 < height < 0x1_0000 ensures Follows(s, width, height) {
        SupportedFollows(s, width, height);
      }
    } else {
      OneByOneFails(s);
    }
  }

  lemma SupportedFollows(s: Sampling, width: nat, height: nat)
    requires Legal(s) && Supported(s)
    ensures Follows(s, width, height)
  {
    hide AlignTo;
    var format := FormatOf(s);
    AlignIs(width, s.a.0 == 2);
    AlignIs(height, s.a.1 == 2);
    if s.a.0 == 2 { Halves(AlignedWidth(width, format)); }
    if s.a.1 == 2 { Halves(AlignedHeight(height, format)); }
  }

  /** An image of one pixel is enough to tell. */
  lemma OneByOneFails(s: Sampling)
    requires Legal(s) && !Supported(s)
    ensures !Follows(s, 1, 1)
  {
    var format := FormatOf(s);
    assert AlignedWidth(1, format) == (if format == FORMAT_420 || format == FORMAT_422 then 16 else 8);
    assert AlignedHeight(1, format) == (if format == FORMAT_420 || format == FORMAT_224 then 16 else 8);
  }

  /** Sampling 4:1:1 is laid out as if it were 4:4:4. */
  lemma FourOneOne()
    ensures !Follows(Three((4, 1), (1, 1), (1, 1)), 640, 480) && FormatOf(Three((4, 1), (1, 1), (1, 1))) == FORMAT_444
  {
  }

  /** What the unit is told: the number of 8x8 blocks to an MCU is the sum of the products of the factors. */
  lemma BlocksOf(h: Header)
    ensures h.numComponents >= 3 ==>
              LayoutOf(h).1.blocks == h.sampling.a.0 * h.sampling.a.1 + h.sampling.b.0 * h.sampling.b.1 + h.sampling.c.0 * h.sampling.c.1
    ensures h.numComponents == 1 ==> LayoutOf(h).1.blocks == h.sampling.a.0 * h.sampling.a.1
  {
    BlocksStep(h.sampling, 1);
    BlocksStep(h.sampling, 2);
    BlocksStep(h.sampling, 3);
  }

  lemma BlocksStep(s: Sampling, n: nat)
    requires n > 0
    ensures Blocks(s, n) == Blocks(s, n - 1) + Pick(s, n - 1).0 * Pick(s, n - 1).1 && Blocks(s, 0) == 0
  {
  }

  /** A supported colour frame whose luma plane can be counted: all planes have the sizes that its sampling calls for. */
  lemma PlanesFollow(h: Header)
    requires FromSof(h) && Countable(h) && Legal(h.sampling) && Supported(h.sampling) && h.format == FormatOf(h.sampling)
    requires h.width > 0 && h.height > 0
    ensures var (total, l) := LayoutOf(h);
            && LeastMultiple(l.strideY, h.width, 8 * h.sampling.a.0) && LeastMultiple(l.height, h.height, 8 * h.sampling.a.1)
            && l.luma == l.strideY * l.height
            && l.chroma * h.sampling.a.0 * h.sampling.a.1 == l.luma
            && total == l.luma + 2 * l.chroma
  {
    hide Low32, CompInfo, BitsOf, Blocks;
    SupportedFollows(h.sampling, h.width, h.height);
    PlanesFitStridesIff(h);
    ChromaShare(LayoutOf(h).1, h);
  }

  lemma ChromaShare(l: Layout, h: Header)
    requires Legal(h.sampling) && Supported(h.sampling) && h.format == FormatOf(h.sampling)
    requires l.chroma == l.strideC * ChromaRows(l.height, h.format) && l.luma == l.strideY * l.height
    requires l.strideC * h.sampling.a.0 == l.strideY && ChromaRows(l.height, h.format) * h.sampling.a.1 == l.height
    ensures l.chroma * h.sampling.a.0 * h.sampling.a.1 == l.luma
  {
    var c, r, x, y := l.strideC, ChromaRows(l.height, h.format), h.sampling.a.0, h.sampling.a.1;
    assert c * r * x * y == (c * x) * (r * y);
  }

  /** A grey frame: whole 8x8 blocks and no chroma. */
  lemma GreyPlanes(h: Header)
    requires FromSof(h) && Countable(h) && h.format == FORMAT_400 && h.width > 0 && h.height > 0
    ensures var (total, l) := LayoutOf(h);
            && LeastMultiple(l.strideY, h.width, 8) && LeastMultiple(l.height, h.height, 8)
            && l.luma == l.strideY * l.height == total && l.chroma == 0 && l.strideC == 0
  {
    hide Low32, CompInfo, BitsOf, Blocks;
    PlanesFitStridesIff(h);
    AlignIs(h.width, false);
    AlignIs(h.height, false);
  }

  /** A frame that can be counted is started iff its three planes, by their strides and rows, fit the output buffer. */
  lemma StartedIff(h: Header, bufferSize: nat)
    requires FromSof(h) && Countable(h)
    ensures var l := LayoutOf(h).1;
            PassesGuard(h, bufferSize) <==> l.strideY * l.height + 2 * (l.strideC * ChromaRows(l.height, h.format)) <= bufferSize
  {
    hide Low32, CompInfo, BitsOf, Blocks, AlignedWidth, AlignedHeight, ChromaSize, ChromaRows, ChromaStride;
    PlanesFitStridesIff(h);
    FrameSizeIs(h);
  }
}
