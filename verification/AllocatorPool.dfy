/**
 The pool as the driver keeps it: one bit a page in 64-bit words, found and cleared in loops.
 Each method does to the pages what the functions of Allocator say.
 */
module AllocatorPool {
  import opened Allocator
  import opened WordBits
  import opened Wrappers
  import opened Arith

  predicate PageBit(words: seq<bv64>, page: nat)
    requires page < |words| * WORD_BITS
  {
    Test(words[page / WORD_BITS], Mask(page))
  }

  /** The first n bits of the words. */
  function Bits(words: seq<bv64>, n: nat): (r: seq<bool>)
    requires n <= |words| * WORD_BITS
    ensures |r| == n && forall k :: 0 <= k < n ==> r[k] == PageBit(words, k)
  {
    seq(n, k requires 0 <= k < n => PageBit(words, k))
  }

  lemma OnePage(words: seq<bv64>, n: nat, page: nat)
    requires page < n <= |words| * WORD_BITS
    ensures var w := page / WORD_BITS;
            && Bits(words[w := Join(words[w], Mask(page))], n) == Bits(words, n)[page := true]
            && Bits(words[w := Cut(words[w], Mask(page))], n) == Bits(words, n)[page := false]
  {
    hide Test, Join, Cut, Mask;
    var w := page / WORD_BITS;
    var joined, cut := words[w := Join(words[w], Mask(page))], words[w := Cut(words[w], Mask(page))];
    forall k: nat | k < n
      ensures PageBit(joined, k) == (k == page || PageBit(words, k)) && PageBit(cut, k) == (k != page && PageBit(words, k))
    {
      OneBit(words[w], page, k);
    }
  }

  /** No run of m pages begins in [from, at]: one that did would hold the taken page `at`. */
  lemma TakenPage(free: seq<bool>, m: nat, at: nat)
    requires m > 0 && at < |free| && !free[at]
    ensures forall s: nat :: s <= at < s + m ==> !Fits(free, m, s)
  {
  }

  class JpuMemoryPool {
    var baseAddr: nat
    var size: nat
    var numPages: nat
    const bitmap: array<bv64>

    ghost predicate Valid()
      reads this, bitmap
    {
      bitmap.Length == BITMAP_WORDS && numPages <= BITMAP_WORDS * WORD_BITS && size == numPages * PAGE
    }

    ghost function Contents(): Pool
      requires Valid()
      reads this, bitmap
    {
      Pool(baseAddr, Bits(bitmap[..], numPages))
    }

    /** No pages at all: every allocation fails until Init. */
    constructor ()
      ensures Valid() && fresh(bitmap) && Contents() == Pool(0, [])
    {
      baseAddr, size, numPages := 0, 0, 0;
      bitmap := new bv64[BITMAP_WORDS](_ => 0);
    }

    method InitWith(base: nat, bytes: nat)
      requires Valid()
      modifies this, bitmap
      ensures Valid() && Contents() == Init(base, bytes)
    {
      hide Test, Mask;
      var given := Min(bytes, JPU_DRAM_PHYSICAL_SIZE);
      baseAddr := (base + PAGE - 1) / PAGE * PAGE;
      size := given / PAGE * PAGE;
      numPages := size / PAGE;
      for w := 0 to BITMAP_WORDS
        invariant baseAddr == RoundUp(base) && size == given / PAGE * PAGE && numPages == size / PAGE
        invariant forall v :: 0 <= v < w ==> bitmap[v] == ALL_SET
      {
        bitmap[w] := ALL_SET;
      }
      forall k: nat | k < numPages ensures PageBit(bitmap[..], k) {
        EveryBitSet(k);
      }
      assert Contents().free == Init(base, bytes).free;
    }

    method Take(bytes: nat) returns (r: Option<PhysBuffer>)
      requires Valid()
      modifies bitmap
      ensures Valid() && (r, Contents()) == Alloc(old(Contents()), bytes)
    {
      hide Test, Bits, Fits, LowestFit, Cut, Mask, Marked;
      var npages := (bytes + PAGE - 1) / PAGE;
      ghost var free := Contents().free;
      ghost var m := if npages == 0 then 1 else npages;
      var consecutive, startPage := 0, 0;
      for page := 0 to numPages
        invariant unchanged(bitmap)
        invariant consecutive < m && (consecutive > 0 ==> startPage + consecutive == page)
        invariant forall k :: page - consecutive <= k < page ==> free[k]
        invariant forall s :: 0 <= s < page - consecutive ==> !Fits(free, m, s)
      {
        if Test(bitmap[page / WORD_BITS], Mask(page)) {
          if consecutive == 0 {
            startPage := page;
          }
          consecutive := consecutive + 1;
          if consecutive >= npages {
            Found(free, m, startPage);
            ClearRun(startPage, npages);
            return Some(PhysBuffer(baseAddr + startPage * PAGE, npages * PAGE));
          }
        } else {
          TakenPage(free, m, page);
          consecutive := 0;
        }
      }
      NotFound(free, m, numPages - consecutive);
      r := None;
    }

    method ClearRun(startPage: nat, npages: nat)
      requires Valid() && startPage + npages <= numPages
      modifies bitmap
      ensures Valid() && Contents() == old(Contents()).(free := Marked(old(Contents()).free, startPage, npages, false))
    {
      hide Bits, Cut, Mask;
      ghost var free := Contents().free;
      for i := 0 to npages
        invariant Contents().free == Marked(free, startPage, i, false)
      {
        var page := startPage + i;
        OnePage(bitmap[..], numPages, page);
        ghost var words := bitmap[..];
        bitmap[page / WORD_BITS] := Cut(bitmap[page / WORD_BITS], Mask(page));
        assert bitmap[..] == words[page / WORD_BITS := bitmap[page / WORD_BITS]];
      }
    }

    method Release(buf: PhysBuffer)
      requires Valid()
      modifies bitmap
      ensures Valid() && Contents() == Free(old(Contents()), buf)
    {
      hide Bits, Join, Mask;
      if buf.IsEmpty() || buf.addr < baseAddr || buf.addr >= baseAddr + size {
        return;
      }
      ghost var free := Contents().free;
      var startPage := (buf.addr - baseAddr) / PAGE;
      var npages := (buf.size + PAGE - 1) / PAGE;
      var i := 0;
      while i < npages && startPage + i < numPages
        invariant i <= npages && Contents().free == Marked(free, startPage, i, true)
      {
        var page := startPage + i;
        OnePage(bitmap[..], numPages, page);
        ghost var words := bitmap[..];
        bitmap[page / WORD_BITS] := Join(bitmap[page / WORD_BITS], Mask(page));
        assert bitmap[..] == words[page / WORD_BITS := bitmap[page / WORD_BITS]];
        i := i + 1;
      }
      assert Contents().free == Marked(free, startPage, npages, true);
    }
  }

  lemma Found(free: seq<bool>, m: nat, s: nat)
    requires m > 0 && s + m <= |free| && (forall k :: s <= k < s + m ==> free[k])
    requires forall t :: 0 <= t < s ==> !Fits(free, m, t)
    ensures LowestFit(free, m, 0) == Some(s)
  {
    hide LowestFit;
    LowestFitIff(free, m, 0, s);
  }

  lemma NotFound(free: seq<bool>, m: nat, from: nat)
    requires from <= |free| < from + m
    requires forall s :: 0 <= s < from ==> !Fits(free, m, s)
    ensures LowestFit(free, m, 0) == None
  {
    hide LowestFit;
    if LowestFit(free, m, 0).Some? {
      LowestFitIff(free, m, 0, LowestFit(free, m, 0).value);
    }
  }
}
