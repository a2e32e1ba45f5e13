/** Single bits of a 64-bit word: tested, set and cleared through a mask. */
module WordBits {
  const WORD_BITS: nat := 64
  const ALL_SET: bv64 := 0xFFFF_FFFF_FFFF_FFFF

  function Index(bit: nat): bv7 {
    (bit % WORD_BITS) as bv7
  }

  function Mask(bit: nat): bv64 {
    1 << Index(bit)
  }

  predicate Test(w: bv64, m: bv64) {
    w & m != 0
  }

  function Join(w: bv64, m: bv64): bv64 {
    w | m
  }

  function Cut(w: bv64, m: bv64): bv64 {
    w & !m
  }

  lemma Apart(w: bv64, m: bv64, n: bv64)
    requires m & n == 0
    ensures (w | m) & n == w & n == (w & !m) & n
  {
  }

  lemma JoinOther(w: bv64, m: bv64, n: bv64)
    requires !Test(m, n)
    ensures Test(Join(w, m), n) == Test(w, n)
  {
    calc {
      Test(Join(w, m), n);
      (w | m) & n != 0;
      { Apart(w, m, n); }
      w & n != 0;
      Test(w, n);
    }
  }

  lemma CutOther(w: bv64, m: bv64, n: bv64)
    requires !Test(m, n)
    ensures Test(Cut(w, m), n) == Test(w, n)
  {
    calc {
      Test(Cut(w, m), n);
      (w & !m) & n != 0;
      { Apart(w, m, n); }
      w & n != 0;
      Test(w, n);
    }
  }

  lemma JoinOwn(w: bv64, m: bv64)
    requires m != 0
    ensures Test(Join(w, m), m)
  {
  }

  lemma CutOwn(w: bv64, m: bv64)
    ensures !Test(Cut(w, m), m)
  {
  }

  lemma Shifts(i: bv7, j: bv7)
    requires i < 64 && j < 64
    ensures (1 as bv64) << i != 0 && (i != j ==> ((1 as bv64) << i) & ((1 as bv64) << j) == 0)
  {
  }

  lemma IndexIs(bit: nat)
    ensures Index(bit) < 64 && Index(bit) as nat == bit % WORD_BITS
  {
    AsBits(bit % WORD_BITS);
  }

  lemma AsBits(i: nat)
    requires i < WORD_BITS
    ensures (i as bv7) as nat == i && i as bv7 < 64
  {
  }

  lemma Masks(i: nat, j: nat)
    ensures Mask(i) != 0 && (i % WORD_BITS == j % WORD_BITS ==> Mask(i) == Mask(j))
    ensures i % WORD_BITS != j % WORD_BITS ==> !Test(Mask(i), Mask(j))
  {
    IndexIs(i);
    IndexIs(j);
    hide Index;
    Shifts(Index(i), Index(j));
  }

  /** Setting or clearing one bit changes that bit and no other. */
  lemma OneBit(w: bv64, i: nat, j: nat)
    ensures Test(Join(w, Mask(i)), Mask(j)) <==> i % WORD_BITS == j % WORD_BITS || Test(w, Mask(j))
    ensures Test(Cut(w, Mask(i)), Mask(j)) <==> i % WORD_BITS != j % WORD_BITS && Test(w, Mask(j))
  {
    hide Mask, Test, Join, Cut;
    Masks(i, j);
    if i % WORD_BITS == j % WORD_BITS {
      JoinOwn(w, Mask(i));
      CutOwn(w, Mask(i));
    } else {
      JoinOther(w, Mask(i), Mask(j));
      CutOther(w, Mask(i), Mask(j));
    }
  }

  lemma EveryBitSet(i: nat)
    ensures Test(ALL_SET, Mask(i))
  {
    Masks(i, i);
    hide Mask;
  }
}
