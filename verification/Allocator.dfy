/**
 The page allocator of the JPEG unit: 16 KiB pages, one bit each, set while the page is free.
 First what allocation and release do to the pages, then histories of both, then the pool itself.
 */
module Allocator {
  import opened Wrappers
  import opened Arith

  const PAGE: nat := 0x4000
  const JPU_DRAM_PHYSICAL_SIZE: nat := 0x10_0000
  const BITMAP_WORDS: nat := 1

  datatype PhysBuffer = PhysBuffer(addr: nat, size: nat) {
    predicate IsEmpty() {
      addr == 0 || size == 0
    }
  }

  /** The pages from `base` on; `free[k]` says that page k is in no buffer. */
  datatype Pool = Pool(base: nat, free: seq<bool>) {
    function End(): nat {
      base + |free| * PAGE
    }

    predicate Holds(addr: nat) {
      base <= addr < End()
    }
  }

  function PagesFor(size: nat): nat {
    (size + PAGE - 1) / PAGE
  }

  function RoundUp(base: nat): nat {
    (base + PAGE - 1) / PAGE * PAGE
  }

  // ---- Runs of free pages ---------------------------------------------------------------------

  ghost predicate Fits(free: seq<bool>, n: nat, s: nat) {
    s + n <= |free| && forall k :: s <= k < s + n ==> free[k]
  }

  function Leading(free: seq<bool>): nat {
    if free != [] && free[0] then 1 + Leading(free[1..]) else 0
  }

  /** The first page from `at` on where n free pages begin. */
  function LowestFit(free: seq<bool>, n: nat, at: nat): Option<nat>
    requires at <= |free|
    decreases |free| - at
  {
    if Leading(free[at..]) >= n then Some(at)
    else if at == |free| then None
    else LowestFit(free, n, at + 1)
  }

  lemma {:induction false} LeadingFits(free: seq<bool>, n: nat, s: nat)
    requires s <= |free|
    ensures Fits(free, n, s) <==> Leading(free[s..]) >= n
    decreases n
  {
    if n > 0 && s < |free| && free[s] {
      LeadingFits(free, n - 1, s + 1);
      assert free[s..][1..] == free[s + 1..];
    }
  }

  /** LowestFit finds the lowest run there is, and fails only when there is none. */
  lemma {:induction false} LowestFitIff(free: seq<bool>, n: nat, at: nat, s: nat)
    requires at <= |free|
    ensures LowestFit(free, n, at) == Some(s) <==> at <= s && Fits(free, n, s) && forall t :: at <= t < s ==> !Fits(free, n, t)
    ensures LowestFit(free, n, at) == None ==> at <= s ==> !Fits(free, n, s)
    decreases |free| - at
  {
    hide Fits, Leading;
    LeadingFits(free, n, at);
    if !Fits(free, n, at) && at < |free| {
      LowestFitIff(free, n, at + 1, s);
    } else if at == |free| {
      PastTheEnd(free, n, s);
    }
  }

  lemma PastTheEnd(free: seq<bool>, n: nat, s: nat)
    ensures s > |free| ==> !Fits(free, n, s)
  {
  }

  function Marked(free: seq<bool>, s: nat, n: nat, value: bool): (r: seq<bool>)
    ensures |r| == |free| && forall k :: 0 <= k < |r| ==> r[k] == if s <= k < s + n then value else free[k]
  {
    seq(|free|, k requires 0 <= k < |free| => if s <= k < s + n then value else free[k])
  }

  // ---- Allocation and release ------------------------------------------------------------------

  /** Asking for no bytes still needs a free page to point at, but takes none. */
  function Alloc(p: Pool, size: nat): (Option<PhysBuffer>, Pool) {
    var n := PagesFor(size);
    match LowestFit(p.free, if n == 0 then 1 else n, 0)
    case None => (None, p)
    case Some(s) => (Some(PhysBuffer(p.base + s * PAGE, n * PAGE)), p.(free := Marked(p.free, s, n, false)))
  }

  function Free(p: Pool, b: PhysBuffer): Pool {
    if b.IsEmpty() || !p.Holds(b.addr) then p
    else p.(free := Marked(p.free, (b.addr - p.base) / PAGE, PagesFor(b.size), true))
  }

  function Init(base: nat, size: nat): Pool {
    Pool(RoundUp(base), Marked(seq(Min(size, JPU_DRAM_PHYSICAL_SIZE) / PAGE, _ => true), 0, 0, true))
  }

  /** A new pool: up to 64 pages of 16 KiB, all free, from the first page boundary on. */
  lemma InitMeans(base: nat, size: nat)
    ensures var p := Init(base, size);
            && p.base % 0x4000 == 0 && base <= p.base < base + 0x4000
            && |p.free| == (if size >= 0x10_0000 then 64 else size / 0x4000)
            && forall k :: 0 <= k < |p.free| ==> p.free[k]
  {
  }

  /** What an allocation hands out: the lowest run that is long enough; nothing iff there is none. */
  lemma AllocMeans(p: Pool, size: nat)
    ensures var n := PagesFor(size);
            var m := if n == 0 then 1 else n;
            match Alloc(p, size).0
            case None => Alloc(p, size).1 == p && forall s :: !Fits(p.free, m, s)
            case Some(b) =>
              && b.size == n * PAGE && size <= b.size < size + PAGE && p.base <= b.addr && (b.addr - p.base) % PAGE == 0
              && var s := (b.addr - p.base) / PAGE;
                 && Fits(p.free, m, s) && (forall t :: 0 <= t < s ==> !Fits(p.free, m, t))
                 && b.addr + b.size <= p.End()
                 && Alloc(p, size).1 == p.(free := Marked(p.free, s, n, false))
  {
    hide LowestFit;
    var n := PagesFor(size);
    var m := if n == 0 then 1 else n;
    forall s ensures LowestFit(p.free, m, 0) == None ==> !Fits(p.free, m, s) {
      LowestFitIff(p.free, m, 0, s);
    }
    if Alloc(p, size).0.Some? {
      var s := LowestFit(p.free, m, 0).value;
      LowestFitIff(p.free, m, 0, s);
      assert (p.base + s * PAGE - p.base) / PAGE == s;
    }
  }

  /** Releasing an allocation restores every bit, unless the buffer starts at address 0. */
  lemma FreeUndoesAllocIff(p: Pool, size: nat)
    ensures var (r, q) := Alloc(p, size);
            r.Some? ==> (Free(q, r.value) == p <==> r.value.addr != 0 || size == 0)
  {
    hide LowestFit;
    AllocMeans(p, size);
    var (r, q) := Alloc(p, size);
    if r.Some? {
      var s, n := (r.value.addr - p.base) / PAGE, PagesFor(size);
      assert PagesFor(n * PAGE) == n;
      if n == 0 {
        assert q.free == p.free;
      } else if r.value.addr == 0 {
        assert !q.free[s] && p.free[s];
      } else {
        assert Marked(q.free, s, n, true) == p.free;
      }
    }
  }

  // ---- Histories --------------------------------------------------------------------------------

  datatype Op = AllocOp(size: nat) | FreeOp(buf: PhysBuffer)

  /** The pool, with the buffers handed out and not yet released; one of no bytes holds nothing. */
  datatype Heap = Heap(pool: Pool, live: set<PhysBuffer>)

  function Apply(h: Heap, op: Op): Heap {
    match op
    case AllocOp(size) =>
      var (r, q) := Alloc(h.pool, size);
      Heap(q, if r.Some? && r.value.size > 0 then h.live + {r.value} else h.live)
    case FreeOp(b) => Heap(Free(h.pool, b), if b.IsEmpty() then h.live else h.live - {b})
  }

  /** Whoever releases memory releases a live buffer, or one that the pool ignores. */
  predicate Legal(h: Heap, op: Op) {
    op.FreeOp? ==> op.buf in h.live || op.buf.IsEmpty() || !h.pool.Holds(op.buf.addr)
  }

  function Run(h: Heap, ops: seq<Op>): Heap
    decreases |ops|
  {
    if ops == [] then h else Run(Apply(h, ops[0]), ops[1..])
  }

  predicate LegalRun(h: Heap, ops: seq<Op>)
    decreases |ops|
  {
    ops == [] || (Legal(h, ops[0]) && LegalRun(Apply(h, ops[0]), ops[1..]))
  }

  /** Whole pages, inside the pool. */
  predicate Placed(p: Pool, b: PhysBuffer) {
    p.base <= b.addr && (b.addr - p.base) % PAGE == 0 && b.size > 0 && b.size % PAGE == 0 && b.addr + b.size <= p.End()
  }

  predicate Apart(a: PhysBuffer, b: PhysBuffer) {
    a.addr + a.size <= b.addr || b.addr + b.size <= a.addr
  }

  predicate Covers(p: Pool, b: PhysBuffer, page: nat) {
    b.addr <= p.base + page * PAGE < b.addr + b.size
  }

  /** Live buffers lie in the pool, apart from each other, and a page is taken iff one of them covers it. */
  ghost predicate Sound(h: Heap) {
    && (forall b :: b in h.live ==> Placed(h.pool, b))
    && (forall a, b :: a in h.live && b in h.live && a != b ==> Apart(a, b))
    && (forall k :: 0 <= k < |h.pool.free| ==> (!h.pool.free[k] <==> exists b :: b in h.live && Covers(h.pool, b, k)))
  }

  lemma CoversPages(p: Pool, b: PhysBuffer, k: nat)
    requires Placed(p, b)
    ensures var s := (b.addr - p.base) / PAGE;
            Covers(p, b, k) <==> s <= k < s + PagesFor(b.size)
  {
  }

  lemma AllocSound(h: Heap, size: nat)
    requires Sound(h)
    ensures Sound(Apply(h, AllocOp(size)))
  {
    hide LowestFit;
    AllocMeans(h.pool, size);
    var (r, q) := Alloc(h.pool, size);
    if r.Some? && r.value.size > 0 {
      var n, s := PagesFor(size), (r.value.addr - h.pool.base) / PAGE;
      assert PagesFor(n * PAGE) == n;
      forall b | b in h.live ensures Apart(r.value, b) {
        FreshApart(h, b, r.value);
      }
      forall k: nat | k < |q.free| ensures !q.free[k] <==> exists b :: b in h.live + {r.value} && Covers(q, b, k) {
        CoversPages(q, r.value, k);
        if !q.free[k] && h.pool.free[k] {
          assert Covers(q, r.value, k);
        } else if !q.free[k] {
          var b :| b in h.live && Covers(h.pool, b, k);
          assert Covers(q, b, k);
        }
        assert forall b :: Covers(q, b, k) == Covers(h.pool, b, k);
      }
    } else if r.Some? {
      assert q.free == h.pool.free;
    }
  }

  /** A buffer over free pages is apart from every live one. */
  lemma FreshApart(h: Heap, b: PhysBuffer, c: PhysBuffer)
    requires Sound(h) && b in h.live && Placed(h.pool, c)
    requires forall k :: (c.addr - h.pool.base) / PAGE <= k < (c.addr + c.size - h.pool.base) / PAGE ==> h.pool.free[k]
    ensures Apart(c, b)
  {
    var k := SharedPage(h.pool, c, b);
    CoversPages(h.pool, c, k);
    assert k < |h.pool.free| && Covers(h.pool, b, k) ==> !h.pool.free[k];
  }

  /** Buffers that are not apart have a page in common. */
  lemma SharedPage(p: Pool, a: PhysBuffer, b: PhysBuffer) returns (k: nat)
    requires Placed(p, a) && Placed(p, b)
    ensures k < |p.free| && (Apart(a, b) || (Covers(p, a, k) && Covers(p, b, k)))
  {
    var s, t := (a.addr - p.base) / PAGE, (b.addr - p.base) / PAGE;
    k := if s >= t then s else t;
  }

  lemma FreeSound(h: Heap, b: PhysBuffer)
    requires Sound(h) && Legal(h, FreeOp(b))
    ensures Sound(Apply(h, FreeOp(b)))
  {
    if b in h.live && !b.IsEmpty() {
      var q := Free(h.pool, b);
      var s, n := (b.addr - h.pool.base) / PAGE, PagesFor(b.size);
      forall k: nat | k < |q.free| ensures !q.free[k] <==> exists c :: c in h.live - {b} && Covers(q, c, k) {
        CoversPages(h.pool, b, k);
        assert forall c :: Covers(q, c, k) == Covers(h.pool, c, k);
        assert forall c :: c in h.live - {b} ==> Apart(b, c);
        if !q.free[k] {
          var c :| c in h.live && Covers(h.pool, c, k);
          assert Covers(q, c, k);
        }
      }
    }
  }

  /** Every legal history keeps the buffers apart and the bitmap exact. */
  lemma {:induction false} HistorySound(h: Heap, ops: seq<Op>)
    requires Sound(h) && LegalRun(h, ops)
    ensures Sound(Run(h, ops))
    decreases |ops|
  {
    hide Sound, Apply;
    if ops != [] {
      match ops[0] {
        case AllocOp(size) => AllocSound(h, size);
        case FreeOp(b) => FreeSound(h, b);
      }
      HistorySound(Apply(h, ops[0]), ops[1..]);
    }
  }

  /** From initialisation on: aligned buffers, inside the pool, disjoint, exactly the cleared bits. */
  lemma AnyHistory(base: nat, size: nat, ops: seq<Op>)
    requires LegalRun(Heap(Init(base, size), {}), ops)
    ensures var h := Run(Heap(Init(base, size), {}), ops);
            && Sound(h) && h.pool.base == RoundUp(base) && |h.pool.free| == Min(size, JPU_DRAM_PHYSICAL_SIZE) / PAGE
            && forall b :: b in h.live ==> b.addr % PAGE == 0 && RoundUp(base) <= b.addr && b.addr + b.size <= h.pool.End()
  {
    var h0 := Heap(Init(base, size), {});
    HistorySound(h0, ops);
    SamePool(h0, ops);
    var h := Run(h0, ops);
    forall b | b in h.live ensures b.addr % PAGE == 0 {
      assert Placed(h.pool, b);
    }
  }

  lemma {:induction false} SamePool(h: Heap, ops: seq<Op>)
    ensures Run(h, ops).pool.base == h.pool.base && |Run(h, ops).pool.free| == |h.pool.free|
    decreases |ops|
  {
    if ops != [] {
      SamePool(Apply(h, ops[0]), ops[1..]);
    }
  }

  /**
   Rounding the base up does not shorten the pool, so it may end past the memory it was given; it
   stays inside iff the bytes cut from the end of that memory make up for those skipped at its start.
   */
  lemma StaysInsideIff(base: nat, size: nat)
    ensures var given := Min(size, JPU_DRAM_PHYSICAL_SIZE);
            (forall n :: var r := Alloc(Init(base, size), n).0; r.Some? ==> r.value.addr + r.value.size <= base + given)
            <==> given < PAGE || RoundUp(base) - base <= given % PAGE
  {
    hide LowestFit;
    var given, p := Min(size, JPU_DRAM_PHYSICAL_SIZE), Init(base, size);
    var all := |p.free| * PAGE;
    forall n ensures var r := Alloc(p, n).0; r.Some? ==> r.value.addr + r.value.size <= p.End() && given >= PAGE {
      AllocMeans(p, n);
    }
    if given >= PAGE && given % PAGE < RoundUp(base) - base {
      AllocMeans(p, all);
      assert PagesFor(all) == |p.free| && Fits(p.free, |p.free|, 0);
      assert Alloc(p, all).0.value.size == all;
    }
  }

  /** The firmware's own pool: its one allocation takes all of it and ends 0x2000 bytes past the memory given. */
  lemma FirmwarePoolEscapes()
    ensures var base, size := 0x8FF1_E000, 0x4_0000;
            && Alloc(Init(base, size), size).0 == Some(PhysBuffer(0x8FF2_0000, size))
            && 0x8FF2_0000 + size == base + size + 0x2000
  {
    hide LowestFit;
    var p := Init(0x8FF1_E000, 0x4_0000);
    AllocMeans(p, 0x4_0000);
    LowestFitIff(p.free, 16, 0, 0);
    assert p.base == 0x8FF2_0000 && |p.free| == 16 && Fits(p.free, 16, 0);
  }

  /** One page taken from a pool at address 0 and released: the page stays taken. */
  lemma ZeroIsNeverFreed()
    ensures var p := Init(0, PAGE);
            var (r, q) := Alloc(p, 1);
            r == Some(PhysBuffer(0, PAGE)) && Free(q, r.value) == q && q.free == [false] && p.free == [true]
  {
    hide LowestFit;
    var p := Init(0, PAGE);
    AllocMeans(p, 1);
    LowestFitIff(p.free, 1, 0, 0);
    assert Fits(p.free, 1, 0) && PagesFor(1) == 1;
  }
}
