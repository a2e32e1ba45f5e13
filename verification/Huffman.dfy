/**
 Canonical Huffman tables of a JPEG decoder: the table generator, which fills the
 MINCODE / MAXCODE / VALPTR arrays in place, and the code it must describe,
 Annex C of ITU-T T.81.
 */
module Huffman {
  import opened Arith

  const LENGTHS: nat := 16
  const NO_CODE: nat := 0xFFFF
  const NO_PTR: nat := 0xFF

  /** BITS: how many codes there are of each length 1..16 (index 0..15), one byte each. */
  ghost predicate IsBits(bits: seq<nat>) {
    |bits| == LENGTHS && forall i :: 0 <= i < LENGTHS ==> bits[i] < 256
  }

  /** The first code of length i+1. */
  function First(bits: seq<nat>, i: nat): nat
    requires i <= |bits|
  {
    if i == 0 then 0 else 2 * (First(bits, i - 1) + bits[i - 1])
  }

  lemma FirstStep(bits: seq<nat>, i: nat)
    requires i < |bits|
    ensures First(bits, i + 1) == 2 * (First(bits, i) + bits[i]) && First(bits, 0) == 0
  {
  }

  /** The number of codes of length at most i. */
  function Prior(bits: seq<nat>, i: nat): nat
    requires i <= |bits|
  {
    if i == 0 then 0 else Prior(bits, i - 1) + bits[i - 1]
  }

  lemma PriorStep(bits: seq<nat>, i: nat)
    requires i < |bits|
    ensures Prior(bits, i + 1) == Prior(bits, i) + bits[i] && Prior(bits, 0) == 0
  {
  }

  function Count(bits: seq<nat>): nat {
    Prior(bits, |bits|)
  }

  /** One table as a DHT segment gives it: BITS, and HUFFVAL with its length. */
  datatype Table = Table(bits: seq<nat>, values: seq<nat>, numValues: nat)

  /** What DECODE works on: the three code arrays and the values. */
  datatype CodeTable = CodeTable(minCodes: seq<nat>, maxCodes: seq<nat>, ptrs: seq<nat>, values: seq<nat>)

  function EmptyTable(): Table {
    Table(Repeat(LENGTHS, 0), Repeat(256, 0), 0)
  }

  /** MINCODE of each length. */
  function GenMin(bits: seq<nat>): seq<nat> {
    seq(|bits|, i requires 0 <= i < |bits| => if bits[i] != 0 then First(bits, i) else NO_CODE)
  }

  /** MAXCODE of each length. */
  function GenMax(bits: seq<nat>): seq<nat> {
    seq(|bits|, i requires 0 <= i < |bits| => if bits[i] != 0 then First(bits, i) + (bits[i] - 1) else NO_CODE)
  }

  /** VALPTR of each length, truncated to a byte. */
  function GenPtrs(bits: seq<nat>): seq<nat> {
    seq(|bits|, i requires 0 <= i < |bits| => if bits[i] != 0 then Prior(bits, i) % 256 else NO_PTR)
  }

  function Codes(bits: seq<nat>, values: seq<nat>): CodeTable {
    CodeTable(GenMin(bits), GenMax(bits), GenPtrs(bits), values)
  }

  /** Running code and pointer stay far below the u32 range, so the source's arithmetic never wraps. */
  lemma {:induction false} FirstBound(bits: seq<nat>, i: nat)
    requires IsBits(bits) && i <= LENGTHS
    ensures First(bits, i) <= 510 * (Pow2(i) - 1) && Prior(bits, i) <= 255 * i
    ensures First(bits, i) + 256 < 0x1_0000_0000
  {
    if i > 0 {
      FirstBound(bits, i - 1);
    }
    Pow2Monotone(i, LENGTHS);
    Pow2Of16();
  }

  /** One table of the header record; its buffers lie inside it. */
  class HuffTable {
    var bits: seq<Byte>
    var values: seq<Byte>
    var numValues: nat
    var minCodes: seq<nat>
    var maxCodes: seq<nat>
    var ptrs: seq<nat>

    /** The buffers have their sizes, and the code arrays are the ones that belong to `bits`. */
    ghost predicate Valid()
      reads this
    {
      |bits| == LENGTHS && |values| == 256 && CodeTable(minCodes, maxCodes, ptrs, values) == Codes(bits, values)
    }

    ghost function View(): Table
      reads this
    {
      Table(bits, values, numValues)
    }

    constructor ()
      ensures Valid() && View() == EmptyTable()
    {
      bits := Repeat(LENGTHS, 0);
      values := Repeat(256, 0);
      numValues := 0;
      minCodes := Repeat(LENGTHS, NO_CODE);
      maxCodes := Repeat(LENGTHS, NO_CODE);
      ptrs := Repeat(LENGTHS, NO_PTR);
      new;
      assert minCodes == GenMin(bits) && maxCodes == GenMax(bits) && ptrs == GenPtrs(bits);
    }

    /** Fill the three code arrays from `bits`. The running code is a u32 and never wraps. */
    method Generate()
      requires |bits| == |minCodes| == |maxCodes| == |ptrs| == LENGTHS && |values| == 256
      modifies `minCodes, `maxCodes, `ptrs
      ensures Valid()
    {
      hide First, Prior, Pow2;
      var ptrCnt: nat, huffCode: nat, dataFlag := 0, 0, false;
      FirstStep(bits, 0);
      PriorStep(bits, 0);
      for i := 0 to LENGTHS
        invariant |minCodes| == |maxCodes| == |ptrs| == LENGTHS
        invariant ptrCnt == Prior(bits, i)
        invariant huffCode == First(bits, i)
        invariant huffCode < 0x1_0000_0000
        invariant !dataFlag ==> huffCode == 0
        invariant forall j :: 0 <= j < i ==> minCodes[j] == GenMin(bits)[j]
        invariant forall j :: 0 <= j < i ==> maxCodes[j] == GenMax(bits)[j]
        invariant forall j :: 0 <= j < i ==> ptrs[j] == GenPtrs(bits)[j]
      {
        if bits[i] != 0 {
          ptrs := ptrs[i := ptrCnt % 256];
          ptrCnt := ptrCnt + bits[i];
          minCodes := minCodes[i := huffCode];
          maxCodes := maxCodes[i := huffCode + (bits[i] - 1)];
          dataFlag := true;
        } else {
          ptrs := ptrs[i := NO_PTR];
          minCodes := minCodes[i := NO_CODE];
          maxCodes := maxCodes[i := NO_CODE];
        }
        FirstStep(bits, i);
        PriorStep(bits, i);
        FirstBound(bits, i + 1);
        if dataFlag {
          huffCode := if bits[i] == 0 then huffCode * 2 else (maxCodes[i] + 1) * 2;
        }
      }
      assert minCodes == GenMin(bits) && maxCodes == GenMax(bits) && ptrs == GenPtrs(bits);
    }
  }

  // ---- Annex C: the code itself --------------------------------------------------------

  /** HUFFSIZE of figure C.1: the code lengths of the symbols, in order. */
  function HuffSizes(bits: seq<nat>, i: nat): seq<nat>
    requires i <= |bits|
  {
    if i == 0 then [] else HuffSizes(bits, i - 1) + seq(bits[i - 1], _ => i)
  }

  ghost predicate Ascending(sizes: seq<nat>) {
    forall j, k :: 0 <= j < k < |sizes| ==> sizes[j] <= sizes[k]
  }

  /** HUFFCODE of figure C.2: count up by one, and append zeros when the length grows. */
  ghost function HuffCode(sizes: seq<nat>, k: nat): nat
    requires k < |sizes| && Ascending(sizes)
  {
    if k == 0 then 0 else (HuffCode(sizes, k - 1) + 1) * Pow2(sizes[k] - sizes[k - 1])
  }

  /** The Kraft sum of the lengths up to i, in units of 2^-16. */
  function Kraft(bits: seq<nat>, i: nat): nat
    requires i <= |bits| && i <= LENGTHS
  {
    if i == 0 then 0 else Kraft(bits, i - 1) + bits[i - 1] * Pow2(LENGTHS - i)
  }

  function KraftSum(bits: seq<nat>): nat
    requires |bits| == LENGTHS
  {
    Kraft(bits, |bits|)
  }

  /** A list of lengths a decoder can be asked to use: bytes, at most 256 symbols, no more codes than fit. */
  ghost predicate Usable(bits: seq<nat>) {
    IsBits(bits) && Count(bits) <= 256 && KraftSum(bits) <= 0x10000
  }

  /** The one 16-bit code that the generator's "no code" mark stands for is a code of this list. */
  predicate AllOnesUsed(bits: seq<nat>)
    requires |bits| == LENGTHS
  {
    KraftSum(bits) == 0x10000 && bits[LENGTHS - 1] != 0
  }

  /** Σ_{j<i} bits[j] · 2^(i-j). */
  function WeightedSum(bits: seq<nat>, i: nat, j: nat): nat
    requires j <= i <= |bits|
  {
    if j == 0 then 0 else WeightedSum(bits, i, j - 1) + bits[j - 1] * Pow2(i - (j - 1))
  }

  lemma {:induction false} WeightedSumDoubles(bits: seq<nat>, i: nat, j: nat)
    requires j <= i < |bits|
    ensures WeightedSum(bits, i + 1, j) == 2 * WeightedSum(bits, i, j)
  {
    if j > 0 {
      WeightedSumDoubles(bits, i, j - 1);
      assert Pow2(i + 1 - (j - 1)) == 2 * Pow2(i - (j - 1));
      assert bits[j - 1] * Pow2(i + 1 - (j - 1)) == 2 * (bits[j - 1] * Pow2(i - (j - 1)));
    }
  }

  /** The closed form of the first code of each length. */
  lemma {:induction false} FirstIsWeightedSum(bits: seq<nat>, i: nat)
    requires i <= |bits|
    ensures First(bits, i) == WeightedSum(bits, i, i)
  {
    if i > 0 {
      FirstIsWeightedSum(bits, i - 1);
      WeightedSumDoubles(bits, i - 1, i - 1);
      assert Pow2(i - (i - 1)) == 2;
    }
  }

  lemma {:induction false} KraftIsFirst(bits: seq<nat>, i: nat)
    requires |bits| == LENGTHS && i < LENGTHS
    ensures First(bits, i) * Pow2(LENGTHS - 1 - i) == Kraft(bits, i)
    ensures (First(bits, i) + bits[i]) * Pow2(LENGTHS - 1 - i) == Kraft(bits, i + 1)
  {
    var p := Pow2(LENGTHS - 1 - i);
    if i > 0 {
      KraftIsFirst(bits, i - 1);
      Double(First(bits, i - 1) + bits[i - 1], p);
    }
    Distribute(First(bits, i), bits[i], p);
  }

  lemma {:induction false} KraftMonotone(bits: seq<nat>, i: nat, j: nat)
    requires |bits| == LENGTHS && i <= j <= LENGTHS
    ensures Kraft(bits, i) <= Kraft(bits, j)
    decreases j
  {
    if i < j {
      KraftMonotone(bits, i, j - 1);
      assert bits[j - 1] * Pow2(LENGTHS - j) >= 0;
    }
  }

  /** Every length holds its codes exactly when the Kraft sum is at most one. */
  lemma CodesFitIffKraft(bits: seq<nat>)
    requires |bits| == LENGTHS
    ensures KraftSum(bits) <= 0x10000
            <==> forall i :: 0 <= i < LENGTHS ==> First(bits, i) + bits[i] <= Pow2(i + 1)
  {
    if KraftSum(bits) <= 0x10000 {
      forall i | 0 <= i < LENGTHS
        ensures First(bits, i) + bits[i] <= Pow2(i + 1)
      {
        CodesFit(bits, i);
      }
    } else {
      KraftIsFirst(bits, LENGTHS - 1);
      assert Pow2(LENGTHS - 1 - (LENGTHS - 1)) == 1;
      assert First(bits, LENGTHS - 1) + bits[LENGTHS - 1] > Pow2(LENGTHS - 1 + 1);
    }
  }

  /** Cancelling the positive factor p. */
  lemma CancelFactor(c: int, q: int, p: int, k: int, total: int)
    requires p >= 1 && c * p == k && q * p == total
    ensures k <= total ==> c <= q
    ensures k < total ==> c < q
  {
    if c >= q { MulMonotone(q, c, p); }
    if c >= q + 1 {
      MulMonotone(q + 1, c, p);
      Distribute(q, 1, p);
    }
  }

  lemma CodesFit(bits: seq<nat>, i: nat)
    requires |bits| == LENGTHS && KraftSum(bits) <= 0x10000 && i < LENGTHS
    ensures First(bits, i) + bits[i] <= Pow2(i + 1)
    ensures KraftSum(bits) < 0x10000 ==> First(bits, i) + bits[i] < Pow2(i + 1)
  {
    hide First, Kraft, Pow2;
    KraftIsFirst(bits, i);
    KraftMonotone(bits, i + 1, LENGTHS);
    Pow2Add(i + 1, LENGTHS - 1 - i);
    Pow2Of16();
    CancelFactor(First(bits, i) + bits[i], Pow2(i + 1), Pow2(LENGTHS - 1 - i), Kraft(bits, i + 1), 0x10000);
  }

  /** The sentinel stands for a real code exactly when the all-ones 16-bit code is in use. */
  lemma SentinelIffAllOnes(bits: seq<nat>)
    requires IsBits(bits) && KraftSum(bits) <= 0x10000
    ensures (exists i :: 0 <= i < LENGTHS && bits[i] != 0 && (GenMin(bits)[i] == NO_CODE || GenMax(bits)[i] == NO_CODE))
            <==> AllOnesUsed(bits)
  {
    hide First, Kraft;
    Pow2Of16();
    forall i | 0 <= i < LENGTHS && bits[i] != 0
      ensures GenMin(bits)[i] <= GenMax(bits)[i] <= NO_CODE
      ensures i < LENGTHS - 1 ==> GenMax(bits)[i] < NO_CODE
      ensures GenMax(bits)[i] == NO_CODE ==> AllOnesUsed(bits)
    {
      CodesFit(bits, i);
      if i < LENGTHS - 1 {
        Pow2Add(i + 1, LENGTHS - 1 - i);
        MulMonotone(2, Pow2(LENGTHS - 1 - i), Pow2(i + 1));
        assert 2 * Pow2(i + 1) <= 65536;
      }
    }
    if AllOnesUsed(bits) {
      KraftIsFirst(bits, LENGTHS - 1);
      assert GenMax(bits)[LENGTHS - 1] == NO_CODE;
    }
  }

  // ---- Codes of single symbols ----------------------------------------------------------

  lemma {:induction false} SizesLength(bits: seq<nat>, i: nat)
    requires i <= |bits|
    ensures |HuffSizes(bits, i)| == Prior(bits, i)
    ensures forall k :: 0 <= k < |HuffSizes(bits, i)| ==> 1 <= HuffSizes(bits, i)[k] <= i
    ensures Ascending(HuffSizes(bits, i))
  {
    if i > 0 {
      SizesLength(bits, i - 1);
    }
  }

  /** The length index of symbol k: the i with Prior(i) <= k < Prior(i+1). */
  lemma {:induction false} LevelOf(bits: seq<nat>, k: nat, n: nat) returns (i: nat)
    requires n <= |bits| && k < Prior(bits, n)
    ensures i < n && Prior(bits, i) <= k < Prior(bits, i + 1)
    ensures k < |HuffSizes(bits, n)| && HuffSizes(bits, n)[k] == i + 1
  {
    SizesLength(bits, n);
    SizesLength(bits, n - 1);
    if k < Prior(bits, n - 1) {
      i := LevelOf(bits, k, n - 1);
    } else {
      i := n - 1;
    }
  }

  lemma {:induction false} PriorMonotone(bits: seq<nat>, i: nat, j: nat)
    requires i <= j <= |bits|
    ensures Prior(bits, i) <= Prior(bits, j)
    decreases j
  {
    if i < j { PriorMonotone(bits, i, j - 1); }
  }

  /** No code of a longer length starts below the shorter codes; nothing is lost over empty lengths. */
  lemma {:induction false} FirstAbove(bits: seq<nat>, i: nat, j: nat)
    requires i < j <= |bits|
    ensures First(bits, j) >= (First(bits, i) + bits[i]) * Pow2(j - i)
    ensures Prior(bits, j) == Prior(bits, i + 1) ==> First(bits, j) == (First(bits, i) + bits[i]) * Pow2(j - i)
    decreases j
  {
    var c := First(bits, i) + bits[i];
    if j == i + 1 {
      assert Pow2(1) == 2;
    } else {
      FirstAbove(bits, i, j - 1);
      PriorMonotone(bits, i + 1, j - 1);
      assert Pow2(j - i) == 2 * Pow2(j - 1 - i);
      assert c * Pow2(j - i) == 2 * (c * Pow2(j - 1 - i));
    }
  }

  /** Annex C numbering in closed form: the code of symbol k is MINCODE of its length plus its rank there. */
  lemma {:induction false} CanonicalCode(bits: seq<nat>, k: nat, i: nat)
    requires |bits| == LENGTHS && i < LENGTHS && Prior(bits, i) <= k < Prior(bits, i + 1)
    ensures k < |HuffSizes(bits, |bits|)| && Ascending(HuffSizes(bits, |bits|))
    ensures HuffSizes(bits, |bits|)[k] == i + 1
    ensures HuffCode(HuffSizes(bits, |bits|), k) == First(bits, i) + (k - Prior(bits, i))
    decreases k
  {
    hide First, Prior, HuffSizes, Pow2;
    var sizes := HuffSizes(bits, |bits|);
    SizesLength(bits, LENGTHS);
    PriorMonotone(bits, i + 1, LENGTHS);
    SameLevel(bits, k, i);
    if k == 0 {
      FirstZero(bits, i);
    } else {
      var i' := LevelOf(bits, k - 1, LENGTHS);
      CanonicalCode(bits, k - 1, i');
      LevelsOrdered(bits, k - 1, i', k, i);
      var c := HuffCode(sizes, k - 1) + 1;
      assert HuffCode(sizes, k) == c * Pow2(i - i');
      NextCode(bits, k, i', i, c);
    }
  }

  lemma NextCode(bits: seq<nat>, k: nat, i': nat, i: nat, c: nat)
    requires i' <= i < |bits| && 0 < k
    requires Prior(bits, i') <= k - 1 < Prior(bits, i' + 1) && Prior(bits, i) <= k < Prior(bits, i + 1)
    requires c == First(bits, i') + (k - Prior(bits, i'))
    ensures c * Pow2(i - i') == First(bits, i) + (k - Prior(bits, i))
  {
    if i' == i {
      assert Pow2(0) == 1;
    } else {
      PriorMonotone(bits, i' + 1, i);
      FirstAbove(bits, i', i);
      assert c == First(bits, i') + bits[i'];
    }
  }

  lemma LevelsOrdered(bits: seq<nat>, j: nat, a: nat, k: nat, b: nat)
    requires j <= k && a < |bits| && b < |bits|
    requires Prior(bits, a) <= j && k < Prior(bits, b + 1)
    ensures a <= b
  {
    if b + 1 <= a { PriorMonotone(bits, b + 1, a); }
  }

  lemma SameLevel(bits: seq<nat>, k: nat, i: nat)
    requires |bits| == LENGTHS && i < LENGTHS && Prior(bits, i) <= k < Prior(bits, i + 1) && k < Count(bits)
    ensures k < |HuffSizes(bits, |bits|)| && HuffSizes(bits, |bits|)[k] == i + 1
  {
    var l := LevelOf(bits, k, LENGTHS);
    LevelsOrdered(bits, k, i, k, l);
    LevelsOrdered(bits, k, l, k, i);
  }

  lemma {:induction false} FirstZero(bits: seq<nat>, i: nat)
    requires i <= |bits| && Prior(bits, i) == 0
    ensures First(bits, i) == 0
  {
    if i > 0 { FirstZero(bits, i - 1); }
  }

  /** The code of symbol k under the lengths `bits`, as Annex C numbers it. */
  ghost function Code(bits: seq<nat>, k: nat): nat
    requires |bits| == LENGTHS && k < Count(bits)
  {
    SizesLength(bits, LENGTHS);
    HuffCode(HuffSizes(bits, |bits|), k)
  }

  ghost function Size(bits: seq<nat>, k: nat): (n: nat)
    requires |bits| == LENGTHS && k < Count(bits)
    ensures 1 <= n <= LENGTHS
  {
    SizesLength(bits, LENGTHS);
    HuffSizes(bits, |bits|)[k]
  }

  /** No code is the beginning of a later one. */
  lemma PrefixFree(bits: seq<nat>, j: nat, k: nat)
    requires |bits| == LENGTHS && j < k < Count(bits)
    ensures Size(bits, j) <= Size(bits, k)
    ensures Code(bits, j) < Code(bits, k) / Pow2(Size(bits, k) - Size(bits, j))
  {
    hide First, Prior, HuffSizes, HuffCode;
    var a := LevelOf(bits, j, LENGTHS);
    var b := LevelOf(bits, k, LENGTHS);
    CanonicalCode(bits, j, a);
    CanonicalCode(bits, k, b);
    if a == b {
      assert Pow2(0) == 1;
    } else {
      PriorStep(bits, a);
      LevelsOrdered(bits, j, a, k, b);
      FirstAbove(bits, a, b);
      DivAtLeast(Code(bits, k), First(bits, a) + bits[a], Pow2(b - a));
    }
  }
}
