/**
 What the generated tables are for: the bit-by-bit DECODE procedure of section F.2.2.3 of
 ITU-T T.81, run on them, inverts the Annex C encoder.
 */
module HuffmanDecode {
  import opened Arith
  import opened Huffman

  function Bit(b: bool): nat {
    if b then 1 else 0
  }

  /** The n low bits of a code, most significant first. */
  function Msb(code: nat, n: nat): (s: seq<bool>)
    ensures |s| == n
  {
    if n == 0 then [] else Msb(code / 2, n - 1) + [code % 2 == 1]
  }

  datatype Decoded = NoCode | Symbol(value: nat, next: nat)

  ghost predicate IsTable(t: CodeTable) {
    |t.minCodes| == |t.maxCodes| == |t.ptrs| == LENGTHS
  }

  /**
   Figure F.16 for the code that begins at `start`, once the bits before `pos` are read;
   a length marked "no code" is passed over.
   */
  function Decode(t: CodeTable, input: seq<bool>, start: nat, pos: nat, code: nat): Decoded
    requires IsTable(t) && start <= pos <= start + LENGTHS
    decreases start + LENGTHS - pos
  {
    var i := pos - start;
    if i == LENGTHS || pos >= |input| then
      NoCode
    else
      var code' := 2 * code + Bit(input[pos]);
      if t.maxCodes[i] == NO_CODE || code' > t.maxCodes[i] then
        Decode(t, input, start, pos + 1, code')
      else
        var j := t.ptrs[i] + code' - t.minCodes[i];
        if 0 <= j < |t.values| then Symbol(t.values[j], pos + 1) else NoCode
  }

  function DecodeAll(t: CodeTable, input: seq<bool>, pos: nat, n: nat): seq<nat>
    requires IsTable(t)
    decreases n
  {
    if n == 0 then []
    else match Decode(t, input, pos, pos, 0)
      case NoCode => []
      case Symbol(value, next) => [value] + DecodeAll(t, input, next, n - 1)
  }

  ghost function Encode(bits: seq<nat>, k: nat): seq<bool>
    requires |bits| == LENGTHS && k < Count(bits)
  {
    Msb(Code(bits, k), Size(bits, k))
  }

  ghost predicate AreSymbols(bits: seq<nat>, ks: seq<nat>) {
    forall j :: 0 <= j < |ks| ==> ks[j] < Count(bits)
  }

  ghost function ValuesOf(values: seq<nat>, ks: seq<nat>): seq<nat>
    requires forall j :: 0 <= j < |ks| ==> ks[j] < |values|
  {
    if ks == [] then [] else [values[ks[0]]] + ValuesOf(values, ks[1..])
  }

  ghost function EncodeAll(bits: seq<nat>, ks: seq<nat>): seq<bool>
    requires |bits| == LENGTHS && AreSymbols(bits, ks)
  {
    if ks == [] then [] else Encode(bits, ks[0]) + EncodeAll(bits, ks[1..])
  }

  /** Reading one more bit of a code moves from its quotient by 2^(n-m) to its quotient by 2^(n-m-1). */
  lemma {:induction false} MsbBit(code: nat, n: nat, m: nat)
    requires m < n
    ensures code / Pow2(n - m - 1) == 2 * (code / Pow2(n - m)) + Bit(Msb(code, n)[m])
  {
    if m == n - 1 {
      assert Pow2(1) == 2 && Pow2(0) == 1;
    } else {
      MsbBit(code / 2, n - 1, m);
      HalfFirst(code, Pow2(n - m - 2));
      HalfFirst(code, Pow2(n - m - 1));
    }
  }

  lemma HalfFirst(x: nat, d: nat)
    requires d >= 1
    ensures x / (2 * d) == (x / 2) / d
  {
    var q, r := (x / 2) / d, (x / 2) % d;
    assert x == 2 * (q * d + r) + x % 2;
    Double(q, d);
    assert x == q * (2 * d) + (2 * r + x % 2);
    QuotientUnique(x, 2 * d, q, 2 * r + x % 2);
  }

  /** Bits short of the code's length never match a shorter length. */
  lemma ShorterLengthFails(bits: seq<nat>, k: nat, m: nat)
    requires |bits| == LENGTHS && k < Count(bits) && m + 1 < Size(bits, k) && bits[m] != 0
    ensures Code(bits, k) / Pow2(Size(bits, k) - m - 1) > GenMax(bits)[m]
  {
    var l := LevelOf(bits, k, LENGTHS);
    CanonicalCode(bits, k, l);
    FirstAbove(bits, m, l);
    DivAtLeast(Code(bits, k), First(bits, m) + bits[m], Pow2(l - m));
  }

  /** The code fits its length, so nothing is in hand before the first bit. */
  lemma NothingRead(bits: seq<nat>, k: nat)
    requires Usable(bits) && k < Count(bits)
    ensures Code(bits, k) / Pow2(Size(bits, k)) == 0
  {
    var l := LevelOf(bits, k, LENGTHS);
    CanonicalCode(bits, k, l);
    CodesFit(bits, l);
    QuotientUnique(Code(bits, k), Pow2(l + 1), 0, Code(bits, k));
  }

  ghost function Quotient(x: nat, d: nat): nat
    requires d > 0
  {
    x / d
  }

  /** The bits of symbol k read so far, as a number. */
  ghost function Read(bits: seq<nat>, k: nat, m: nat): nat
    requires |bits| == LENGTHS && k < Count(bits) && m <= Size(bits, k)
  {
    Quotient(Code(bits, k), Pow2(Size(bits, k) - m))
  }

  lemma ReadNext(bits: seq<nat>, k: nat, input: seq<bool>, pos: nat, m: nat)
    requires |bits| == LENGTHS && k < Count(bits) && m < Size(bits, k) && HasAt(input, pos, Encode(bits, k))
    ensures pos + m < |input| && Read(bits, k, m + 1) == 2 * Read(bits, k, m) + Bit(input[pos + m])
  {
    var n := Size(bits, k);
    MsbBit(Code(bits, k), n, m);
    assert input[pos + m] == Encode(bits, k)[m];
  }

  /** Below the code's own length DECODE always goes on to the next length. */
  lemma PassesOver(bits: seq<nat>, values: seq<nat>, k: nat, input: seq<bool>, pos: nat, m: nat)
    requires |bits| == LENGTHS && k < Count(bits) && m + 1 < Size(bits, k) && HasAt(input, pos, Encode(bits, k))
    ensures var t := Codes(bits, values);
            Decode(t, input, pos, pos + m, Read(bits, k, m)) == Decode(t, input, pos, pos + m + 1, Read(bits, k, m + 1))
  {
    ReadNext(bits, k, input, pos, m);
    if bits[m] != 0 { ShorterLengthFails(bits, k, m); }
  }

  /** The table row of symbol k's length holds exactly what DECODE needs to find k. */
  lemma RowOf(bits: seq<nat>, k: nat) returns (l: nat)
    requires Usable(bits) && !AllOnesUsed(bits) && k < Count(bits)
    ensures l < LENGTHS && Size(bits, k) == l + 1
    ensures GenMax(bits)[l] != NO_CODE && GenMin(bits)[l] <= Code(bits, k) <= GenMax(bits)[l]
    ensures GenPtrs(bits)[l] + (Code(bits, k) - GenMin(bits)[l]) == k
  {
    hide First, Prior, HuffSizes, HuffCode, Kraft;
    l := LevelOf(bits, k, LENGTHS);
    PriorStep(bits, l);
    CanonicalCode(bits, k, l);
    SentinelIffAllOnes(bits);
    PriorMonotone(bits, l + 1, LENGTHS);
  }

  lemma Hits(bits: seq<nat>, values: seq<nat>, k: nat, input: seq<bool>, pos: nat)
    requires Usable(bits) && !AllOnesUsed(bits) && |values| == 256
    requires k < Count(bits) && HasAt(input, pos, Encode(bits, k))
    ensures var n := Size(bits, k);
            Decode(Codes(bits, values), input, pos, pos + n - 1, Read(bits, k, n - 1)) == Symbol(values[k], pos + n)
  {
    var l := RowOf(bits, k);
    ReadNext(bits, k, input, pos, l);
    assert Read(bits, k, l + 1) == Code(bits, k) by { assert Pow2(0) == 1; }
  }

  lemma {:induction false} DecodeRest(bits: seq<nat>, values: seq<nat>, k: nat, input: seq<bool>, pos: nat, m: nat)
    requires Usable(bits) && !AllOnesUsed(bits) && |values| == 256
    requires k < Count(bits) && m < Size(bits, k) && HasAt(input, pos, Encode(bits, k))
    ensures Decode(Codes(bits, values), input, pos, pos + m, Read(bits, k, m))
            == Symbol(values[k], pos + Size(bits, k))
    decreases Size(bits, k) - m
  {
    if m + 1 < Size(bits, k) {
      PassesOver(bits, values, k, input, pos, m);
      DecodeRest(bits, values, k, input, pos, m + 1);
    } else {
      Hits(bits, values, k, input, pos);
    }
  }

  /** DECODE reads exactly the code of symbol k and returns the k-th value, whatever follows. */
  lemma DecodeOne(bits: seq<nat>, values: seq<nat>, k: nat, input: seq<bool>, pos: nat)
    requires Usable(bits) && !AllOnesUsed(bits) && |values| == 256
    requires k < Count(bits) && HasAt(input, pos, Encode(bits, k))
    ensures Decode(Codes(bits, values), input, pos, pos, 0)
            == Symbol(values[k], pos + Size(bits, k))
  {
    NothingRead(bits, k);
    DecodeRest(bits, values, k, input, pos, 0);
  }

  /** Round trip: any run of symbols, encoded and decoded again, gives back their values, whatever follows. */
  lemma {:induction false} RoundTrip(bits: seq<nat>, values: seq<nat>, ks: seq<nat>, input: seq<bool>, pos: nat)
    requires Usable(bits) && !AllOnesUsed(bits) && |values| == 256
    requires AreSymbols(bits, ks) && HasAt(input, pos, EncodeAll(bits, ks))
    ensures DecodeAll(Codes(bits, values), input, pos, |ks|) == ValuesOf(values, ks)
  {
    hide Decode, EncodeAll, HasAt, First, Prior, Kraft, HuffSizes, HuffCode;
    if ks != [] {
      HeadThenRest(bits, ks, input, pos);
      DecodeOne(bits, values, ks[0], input, pos);
      RoundTrip(bits, values, ks[1..], input, pos + Size(bits, ks[0]));
      DecodeAllStep(Codes(bits, values), input, pos, |ks|, values[ks[0]], pos + Size(bits, ks[0]));
    }
  }

  lemma HeadThenRest(bits: seq<nat>, ks: seq<nat>, input: seq<bool>, pos: nat)
    requires |bits| == LENGTHS && ks != [] && AreSymbols(bits, ks) && HasAt(input, pos, EncodeAll(bits, ks))
    ensures HasAt(input, pos, Encode(bits, ks[0]))
    ensures AreSymbols(bits, ks[1..]) && HasAt(input, pos + Size(bits, ks[0]), EncodeAll(bits, ks[1..]))
  {
    SplitAt(input, pos, Encode(bits, ks[0]), EncodeAll(bits, ks[1..]));
  }

  lemma DecodeAllStep(t: CodeTable, input: seq<bool>, pos: nat, n: nat, value: nat, next: nat)
    requires IsTable(t) && n > 0 && Decode(t, input, pos, pos, 0) == Symbol(value, next)
    ensures DecodeAll(t, input, pos, n) == [value] + DecodeAll(t, input, next, n - 1)
  {
  }

  /** When the all-ones 16-bit code is in use, the symbol that owns it cannot be decoded. */
  lemma {:induction false} AllOnesLost(bits: seq<nat>, values: seq<nat>, input: seq<bool>, pos: nat, m: nat)
    requires Usable(bits) && AllOnesUsed(bits) && Count(bits) > 0
    requires m < LENGTHS == Size(bits, Count(bits) - 1) && HasAt(input, pos, Encode(bits, Count(bits) - 1))
    ensures Decode(Codes(bits, values), input, pos, pos + m, Read(bits, Count(bits) - 1, m)) == NoCode
    decreases LENGTHS - m
  {
    if m + 1 < LENGTHS {
      PassesOver(bits, values, Count(bits) - 1, input, pos, m);
      AllOnesLost(bits, values, input, pos, m + 1);
    } else {
      KraftIsFirst(bits, m);
      Pow2Of16();
      assert Pow2(0) == 1;
      assert GenMax(bits)[m] == NO_CODE;
    }
  }

  ghost predicate Decodes(bits: seq<nat>, values: seq<nat>, k: nat)
    requires |bits| == LENGTHS && k < Count(bits) <= |values|
  {
    Decode(Codes(bits, values), Encode(bits, k), 0, 0, 0) == Symbol(values[k], Size(bits, k))
  }

  /** Exactly when decoding works for every symbol: the 16-bit all-ones code must be left unused. */
  lemma EverySymbolDecodesIff(bits: seq<nat>, values: seq<nat>)
    requires Usable(bits) && |values| == 256
    ensures (forall k :: 0 <= k < Count(bits) ==> Decodes(bits, values, k)) <==> !AllOnesUsed(bits)
  {
    if AllOnesUsed(bits) {
      var k := Count(bits) - 1;
      CanonicalCode(bits, k, LENGTHS - 1);
      AllOnesLost(bits, values, Encode(bits, k), 0, 0);
      NothingRead(bits, k);
      assert !Decodes(bits, values, k);
    } else {
      forall k | 0 <= k < Count(bits)
        ensures Decodes(bits, values, k)
      {
        DecodeOne(bits, values, k, Encode(bits, k), 0);
      }
    }
  }

  /** One code of each length up to 15, and both that are left of 16: the list fills the code space. */
  function FullBits(): (bits: seq<nat>)
    ensures |bits| == LENGTHS && forall i :: 0 <= i < LENGTHS ==> bits[i] == if i < 15 then 1 else 2
  {
    Repeat(15, 1) + [2]
  }

  lemma {:induction false} FullSums(bits: seq<nat>, i: nat)
    requires bits == FullBits() && i <= 15
    ensures Kraft(bits, i) == 0x10000 - Pow2(LENGTHS - i) && Prior(bits, i) == i
    decreases i
  {
    hide FullBits;
    if i == 0 {
      Pow2Of16();
    } else {
      FullSums(bits, i - 1);
      assert Pow2(LENGTHS - (i - 1)) == 2 * Pow2(LENGTHS - i);
    }
  }

  /** A usable table with a symbol that cannot be decoded. */
  lemma LastOfFullTableLost(values: seq<nat>)
    requires |values| == 256
    ensures Usable(FullBits()) && AllOnesUsed(FullBits())
    ensures exists k :: 0 <= k < Count(FullBits()) && !Decodes(FullBits(), values, k)
  {
    hide FullBits, Decodes;
    var bits := FullBits();
    FullSums(bits, 15);
    LastRow(bits);
    EverySymbolDecodesIff(bits, values);
  }

  lemma LastRow(bits: seq<nat>)
    requires bits == FullBits() && Kraft(bits, 15) == 0x10000 - Pow2(1) && Prior(bits, 15) == 15
    ensures KraftSum(bits) == 0x10000 && Count(bits) == 17
  {
    hide FullBits;
    var n := |bits|;
    assert Pow2(0) == 1 && Pow2(1) == 2;
    assert Kraft(bits, n) == Kraft(bits, n - 1) + bits[n - 1] * Pow2(LENGTHS - n);
    assert Prior(bits, n) == Prior(bits, n - 1) + bits[n - 1];
  }
}
