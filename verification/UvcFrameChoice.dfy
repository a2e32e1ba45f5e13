/**
 Which of the listed frames the rank picks, over all frames that 16-bit sides can describe: what the
 rank amounts to, when an exact match wins, and when the frame chosen is a nearest one.
 */
module UvcFrameChoice {
  import opened Arith
  import opened UvcDescriptor
  import opened Wrappers

  const HALF32: nat := 0x8000_0000

  predicate Exact(p: FramePick, prefs: Prefs) {
    p.w == prefs.w && p.h == prefs.h
  }

  /** Sides as a descriptor holds them. */
  predicate ShortSides(p: FramePick) {
    p.w < 0x1_0000 && p.h < 0x1_0000
  }

  function Area(p: FramePick): nat {
    p.w * p.h
  }

  function PrefArea(prefs: Prefs): nat {
    SaturatingArea(prefs.w, prefs.h)
  }

  /** So large that the rank, in 32 bits, comes around to the top. */
  predicate Oversized(p: FramePick, prefs: Prefs) {
    Area(p) > PrefArea(prefs) + HALF32
  }

  /** The area as the rank sees it: an oversized frame is smaller than none at all. */
  function SeenArea(p: FramePick, prefs: Prefs): int {
    if Oversized(p, prefs) then Area(p) - WORD32 else Area(p)
  }

  lemma AreaBound(p: FramePick)
    requires ShortSides(p)
    ensures Area(p) <= 0xFFFF * 0xFFFF < WORD32
  {
    MulMonotone(p.w, 0xFFFF, p.h);
    MulMonotone(p.h, 0xFFFF, 0xFFFF);
  }

  /** Frames come out of the descriptors with 16-bit sides. */
  lemma {:induction false} ListedShortSides(ds: seq<Descriptor>, pref: nat, p: FramePick)
    requires p in Frames(ds, pref)
    ensures ShortSides(p)
  {
    if p in Frames(ds[..|ds| - 1], pref) {
      ListedShortSides(ds[..|ds| - 1], pref, p);
    } else {
      var d := ds[|ds| - 1];
      ShortIsSmall(d[5..7]);
      ShortIsSmall(d[7..9]);
    }
  }

  lemma ShortIsSmall(bytes: seq<Byte>)
    requires |bytes| == 2
    ensures Le(bytes) < 0x1_0000
  {
    assert Le(bytes[1..]) < 0x100;
  }

  // ---- Ranks --------------------------------------------------------------------------------------

  /** Apart from an exact match, a frame ranks by how much smaller than preferred it seems. */
  lemma RankMeans(p: FramePick, prefs: Prefs)
    requires ShortSides(p)
    ensures FrameRank(p, prefs) == if Exact(p, prefs) then EXACT_RANK else PrefArea(prefs) - SeenArea(p, prefs)
  {
    AreaBound(p);
    hide SaturatingArea;
    var x := p.w * p.h;
    WrapIs(x, if x <= MAX_I32 then 0 else 1);
  }

  /** Wrapping subtracts a multiple of 2^32. */
  lemma WrapIs(x: int, k: int)
    requires -(HALF32 as int) <= x - k * WORD32 < HALF32
    ensures Wrap32(x) == x - k * WORD32
  {
  }

  // ---- Without an exact match ---------------------------------------------------------------------

  ghost predicate NoneExact(ps: seq<FramePick>, prefs: Prefs) {
    ps != [] && forall p :: p in ps ==> ShortSides(p) && !Exact(p, prefs)
  }

  function SeenSmallness(prefs: Prefs): FramePick -> int {
    (p: FramePick) => -SeenArea(p, prefs)
  }

  function Smallness(): FramePick -> int {
    (p: FramePick) => -(Area(p) as int)
  }

  /** The frame chosen is the first of the smallest, as the rank sees them. */
  lemma SmallestSeenIsChosen(ps: seq<FramePick>, prefs: Prefs) returns (i: nat)
    requires NoneExact(ps, prefs)
    ensures IsFirstBest(ps, SeenSmallness(prefs), Best(ps, RankBy(prefs)).value, i)
  {
    hide FrameRank, Best, SeenArea;
    i := BestIs(ps, RankBy(prefs));
    forall j | 0 <= j < |ps| ensures RankBy(prefs)(ps[j]) == PrefArea(prefs) + SeenSmallness(prefs)(ps[j]) {
      RankMeans(ps[j], prefs);
    }
  }

  /** It is the first of the smallest iff the list does not mix oversized frames with others. */
  lemma SmallestIsChosenIff(ps: seq<FramePick>, prefs: Prefs)
    requires NoneExact(ps, prefs)
    ensures (exists i :: IsFirstBest(ps, Smallness(), Best(ps, RankBy(prefs)).value, i))
            <==> (forall p :: p in ps ==> Oversized(p, prefs)) || (forall p :: p in ps ==> !Oversized(p, prefs))
  {
    hide FrameRank, Best, Area, PrefArea;
    var i := SmallestSeenIsChosen(ps, prefs);
    forall j | 0 <= j < |ps| ensures ShortSides(ps[j]) && Area(ps[j]) < WORD32 {
      assert ps[j] in ps;
      AreaBound(ps[j]);
    }
    assert forall j :: 0 <= j < |ps| ==> SeenSmallness(prefs)(ps[j]) == -SeenArea(ps[j], prefs) && Smallness()(ps[j]) == -(Area(ps[j]) as int);
    if (forall p :: p in ps ==> Oversized(p, prefs)) || (forall p :: p in ps ==> !Oversized(p, prefs)) {
      assert forall j :: 0 <= j < |ps| ==> (Oversized(ps[j], prefs) <==> Oversized(ps[i], prefs));
      assert IsFirstBest(ps, Smallness(), ps[i], i);
    } else {
      var p :| p in ps && Oversized(p, prefs);
      var q :| q in ps && !Oversized(q, prefs);
      var j :| 0 <= j < |ps| && ps[j] == p;
      var k :| 0 <= k < |ps| && ps[k] == q;
      assert SeenSmallness(prefs)(ps[j]) <= SeenSmallness(prefs)(ps[i]);
      assert Oversized(ps[i], prefs);
      assert Smallness()(ps[k]) > Smallness()(ps[i]);
    }
  }

  // ---- Nearest to the preferred area --------------------------------------------------------------

  /** No frame's area is nearer to the preferred one. */
  ghost predicate IsNearest(ps: seq<FramePick>, b: FramePick, prefs: Prefs) {
    forall p :: p in ps ==> Distance(Area(b), prefs.w * prefs.h) <= Distance(Area(p), prefs.w * prefs.h)
  }

  /** s is the least area in the list, as the rank sees it. */
  ghost predicate LeastSeen(ps: seq<FramePick>, prefs: Prefs, s: int) {
    (exists p :: p in ps && SeenArea(p, prefs) == s) && forall p :: p in ps ==> s <= SeenArea(p, prefs)
  }

  predicate StrictlyBetween(a: int, x: int, y: int) {
    x < a < y || y < a < x
  }

  /**
   When the frame chosen is a nearest one, as the comment on the rank has it: with a the smallest area
   listed, or the smallest oversized one if any is, exactly when no area lies strictly between a and
   its mirror image in the preferred area.
   */
  lemma NearestIff(ps: seq<FramePick>, prefs: Prefs, s: int)
    requires NoneExact(ps, prefs) && LeastSeen(ps, prefs, s)
    ensures var a := if s < 0 then s + WORD32 else s;
            IsNearest(ps, Best(ps, RankBy(prefs)).value, prefs)
            <==> forall p :: p in ps ==> !StrictlyBetween(Area(p), a, 2 * (prefs.w * prefs.h) - a)
  {
    hide FrameRank, Best;
    var i := SmallestSeenIsChosen(ps, prefs);
    var b := ps[i];
    assert b in ps;
    AreaBound(b);
    assert SeenArea(b, prefs) == s by {
      hide SeenArea;
      var p :| p in ps && SeenArea(p, prefs) == s;
      var j :| 0 <= j < |ps| && ps[j] == p;
      assert SeenSmallness(prefs)(ps[j]) <= SeenSmallness(prefs)(b);
    }
    hide Area, PrefArea;
    var preferred := prefs.w * prefs.h;
    assert Area(b) == if s < 0 then s + WORD32 else s;
    assert forall p :: Distance(Area(b), preferred) <= Distance(Area(p), preferred)
                       <==> !StrictlyBetween(Area(p), Area(b), 2 * preferred - Area(b));
  }

  /** Among frames of fewer than 2^31 pixels, a is simply the least area listed. */
  lemma NearestAmongDrawableIff(ps: seq<FramePick>, prefs: Prefs, q: FramePick)
    requires NoneExact(ps, prefs) && q in ps
    requires forall p :: p in ps ==> Area(q) <= Area(p) < HALF32
    ensures IsNearest(ps, Best(ps, RankBy(prefs)).value, prefs)
            <==> forall p :: p in ps ==> !(Area(q) < Area(p) < 2 * (prefs.w * prefs.h) - Area(q))
  {
    hide FrameRank, Best, Area;
    assert forall p :: p in ps ==> SeenArea(p, prefs) == Area(p);
    NearestIff(ps, prefs, Area(q));
  }

  /** Two frames, both no larger than preferred: the one farther from it wins. */
  lemma FartherWins()
    ensures var tiny, near := FramePick(1, 1, 160, 120, 333333, true), FramePick(1, 2, 640, 360, 333333, true);
            && Best([near, tiny], RankBy(Prefs(640, 480, 0))) == Some(tiny)
            && Distance(Area(near), 640 * 480) < Distance(Area(tiny), 640 * 480)
  {
    BestOfTwo(FramePick(1, 2, 640, 360, 333333, true), FramePick(1, 1, 160, 120, 333333, true), Prefs(640, 480, 0));
  }

  lemma BestOfTwo(p: FramePick, q: FramePick, prefs: Prefs)
    ensures Best([p, q], RankBy(prefs)) == Some(if FrameRank(q, prefs) > FrameRank(p, prefs) then q else p)
  {
    hide FrameRank;
    assert [p, q][..1] == [p] && [p][..0] == [];
  }

  // ---- With an exact match ------------------------------------------------------------------------

  /** p beats an exact match, by area; a tie is enough for a frame that is listed before it. */
  predicate Outranks(p: FramePick, prefs: Prefs, listedBefore: bool) {
    var needed := EXACT_RANK + if listedBefore then 0 else 1;
    Area(p) + needed <= PrefArea(prefs) || (Oversized(p, prefs) && Area(p) + needed <= PrefArea(prefs) + WORD32)
  }

  /** The exact match, at k, is chosen iff no other frame outranks it. */
  lemma ExactWinsIff(ps: seq<FramePick>, prefs: Prefs, k: nat)
    requires k < |ps| && Exact(ps[k], prefs) && forall p :: p in ps ==> ShortSides(p)
    requires forall j :: 0 <= j < k ==> !Exact(ps[j], prefs)
    ensures Exact(Best(ps, RankBy(prefs)).value, prefs)
            <==> forall j :: 0 <= j < |ps| && !Exact(ps[j], prefs) ==> !Outranks(ps[j], prefs, j < k)
  {
    hide FrameRank, Best;
    var i := BestIs(ps, RankBy(prefs));
    forall j | 0 <= j < |ps|
      ensures RankBy(prefs)(ps[j]) == if Exact(ps[j], prefs) then EXACT_RANK else PrefArea(prefs) - SeenArea(ps[j], prefs)
    {
      assert ps[j] in ps;
      RankMeans(ps[j], prefs);
    }
    hide Area, PrefArea, Oversized;
    assert RankBy(prefs)(ps[k]) == EXACT_RANK <= RankBy(prefs)(ps[i]);
    if !Exact(ps[i], prefs) {
      assert i > k ==> RankBy(prefs)(ps[k]) < RankBy(prefs)(ps[i]);
      assert Outranks(ps[i], prefs, i < k);
    }
  }

  /** Whatever is preferred, some list of two has an exact match that is not chosen. */
  lemma NoPreferenceIsSafe(prefs: Prefs) returns (ps: seq<FramePick>)
    requires prefs.w < 0x1_0000 && prefs.h < 0x1_0000
    ensures |ps| == 2 && (forall p :: p in ps ==> ShortSides(p)) && Exact(ps[1], prefs)
    ensures Best(ps, RankBy(prefs)) == Some(ps[0]) && !Exact(ps[0], prefs)
  {
    hide FrameRank, Best;
    var exact := FramePick(1, 2, prefs.w, prefs.h, 333333, true);
    var other := if PrefArea(prefs) >= EXACT_RANK then FramePick(1, 1, 0, 0, 333333, true) else FramePick(1, 1, 65535, 65503, 333333, true);
    ps := [other, exact];
    RankMeans(other, prefs);
    RankMeans(exact, prefs);
    BestOfTwo(other, exact, prefs);
  }

  /**
   Among frames of fewer than 2^31 pixels an exact match is always chosen iff the preferred area is
   below the rank of an exact match, or is itself too large to be matched by such a frame.
   */
  lemma ExactSafeAmongDrawableIff(prefs: Prefs)
    requires prefs.w < 0x1_0000 && prefs.h < 0x1_0000
    ensures (forall ps: seq<FramePick>, k :: ExactAmongDrawable(ps, prefs, k) ==> Exact(Best(ps, RankBy(prefs)).value, prefs))
            <==> PrefArea(prefs) < EXACT_RANK || prefs.w * prefs.h >= HALF32
  {
    hide FrameRank, Best, PrefArea, Exact, Area;
    if PrefArea(prefs) < EXACT_RANK || prefs.w * prefs.h >= HALF32 {
      forall ps: seq<FramePick>, k | ExactAmongDrawable(ps, prefs, k)
        ensures Exact(Best(ps, RankBy(prefs)).value, prefs)
      {
        SafeBelow(ps, prefs, k);
      }
    } else {
      UnsafeAbove(prefs);
    }
  }

  lemma SafeBelow(ps: seq<FramePick>, prefs: Prefs, k: nat)
    requires ExactAmongDrawable(ps, prefs, k) && (PrefArea(prefs) < EXACT_RANK || prefs.w * prefs.h >= HALF32)
    ensures Exact(Best(ps, RankBy(prefs)).value, prefs)
  {
    hide FrameRank, Best;
    assert ps[k] in ps;
    hide PrefArea;
    ExactWinsIff(ps, prefs, k);
  }

  lemma UnsafeAbove(prefs: Prefs)
    requires prefs.w < 0x1_0000 && prefs.h < 0x1_0000 && EXACT_RANK <= PrefArea(prefs) && prefs.w * prefs.h < HALF32
    ensures exists ps: seq<FramePick>, k :: ExactAmongDrawable(ps, prefs, k) && !Exact(Best(ps, RankBy(prefs)).value, prefs)
  {
    hide FrameRank, Best;
    var none, exact := FramePick(1, 1, 0, 0, 333333, true), FramePick(1, 2, prefs.w, prefs.h, 333333, true);
    RankMeans(none, prefs);
    RankMeans(exact, prefs);
    BestOfTwo(none, exact, prefs);
    assert ExactAmongDrawable([none, exact], prefs, 1);
  }

  /** The first exact match is at k, and no frame has 2^31 pixels or more. */
  ghost predicate ExactAmongDrawable(ps: seq<FramePick>, prefs: Prefs, k: nat) {
    && k < |ps| && Exact(ps[k], prefs) && (forall p :: p in ps ==> ShortSides(p) && Area(p) < HALF32)
    && forall j :: 0 <= j < k ==> !Exact(ps[j], prefs)
  }

  /** The firmware's own preference, 640x480: one oversized frame displaces the exact match, and a small frame as well. */
  lemma GiantWins()
    ensures var exact, small, giant := FramePick(1, 1, 640, 480, 333333, true), FramePick(1, 2, 160, 120, 333333, true),
                                       FramePick(1, 3, 65535, 65503, 333333, true);
            && FrameRank(giant, Prefs(640, 480, 0)) == 2535391
            && Best([exact, giant], RankBy(Prefs(640, 480, 0))) == Some(giant)
            && Best([small, giant], RankBy(Prefs(640, 480, 0))) == Some(giant)
  {
    var prefs := Prefs(640, 480, 0);
    var exact, small, giant := FramePick(1, 1, 640, 480, 333333, true), FramePick(1, 2, 160, 120, 333333, true),
                               FramePick(1, 3, 65535, 65503, 333333, true);
    RankMeans(giant, prefs);
    BestOfTwo(exact, giant, prefs);
    BestOfTwo(small, giant, prefs);
  }
}
