/**
 Micro-frames that bring nothing: a capture does not notice them, unless 80000 come in a row.
 */
module FrameGaps {
  import opened Arith
  import opened Dwc2
  import opened UsbErrors
  import opened FrameSpec
  import opened FrameCapture
  import opened Wrappers

  /** Halted without STALL or bus error, and missed, garbled, refused, incomplete or without bytes. */
  predicate Blank(u: UFrame) {
    && u.Halt? && !u.st.stall && !u.st.ahbErr
    && (|| u.st.frmOvrn || u.st.xactErr || u.st.bblErr || u.st.dataTglErr || u.st.nyet || u.st.nak
        || !u.st.xferCompl || u.bytes == [])
  }

  /** What a read makes of a micro-frame that is not blank: an error, or its first `size` bytes. */
  function Heard(u: UFrame, size: nat): Read {
    if u.NoHalt? then ReadError(Timeout)
    else if u.st.stall then ReadError(Stall)
    else if u.st.ahbErr then ReadError(Hardware("AHBERR on isoch"))
    else Packet(if |u.bytes| <= size then u.bytes else u.bytes[..size])
  }

  /** The micro-frames that are not blank. */
  function Bearing(us: seq<UFrame>): seq<UFrame> {
    if us == [] then [] else (if Blank(us[0]) then [] else [us[0]]) + Bearing(us[1..])
  }

  /** Never 80000 blanks in a row. */
  ghost predicate ShortGaps(us: seq<UFrame>) {
    forall i: nat :: !LongBlank(us, i)
  }

  ghost predicate LongBlank(us: seq<UFrame>, i: nat) {
    AllBlank(us, i, i + 80000)
  }

  ghost predicate AllBlank(us: seq<UFrame>, i: nat, j: nat) {
    j <= |us| && forall k :: i <= k < j ==> Blank(us[k])
  }

  lemma OneUframe(us: seq<UFrame>, pos: nat, mpsRaw: nat)
    requires pos < |us| && WmaxMps(mpsRaw) > 0
    ensures var (r, next) := NextUframe(us, pos, mpsRaw);
            && next == pos + 1
            && if Blank(us[pos]) then r == Ok([])
               else match Heard(us[pos], WmaxMps(mpsRaw))
                    case ReadError(e) => r == Err(e)
                    case Packet(bytes) => r == Ok(bytes) && bytes != []
  {
    hide WmaxMps;
    if us[pos].Halt? {
      assert us[pos].bytes[..|us[pos].bytes|] == us[pos].bytes;
    }
  }

  lemma NoUframe(us: seq<UFrame>, pos: nat, mpsRaw: nat)
    requires pos >= |us| && WmaxMps(mpsRaw) > 0
    ensures NextUframe(us, pos, mpsRaw) == (Err(Timeout), pos)
  {
  }

  /** A read passes over the blanks at `pos`; it is the micro-frame behind them, or a timeout when none comes in time. */
  lemma {:induction false} ReadPassesBlanks(us: seq<UFrame>, pos: nat, mpsRaw: nat, left: nat) returns (gap: nat)
    requires pos <= |us| && WmaxMps(mpsRaw) > 0
    ensures AllBlank(us, pos, pos + gap) && gap <= left
    ensures var r := FirstNonEmpty(us, pos, mpsRaw, left);
            if gap < left && pos + gap < |us| then !Blank(us[pos + gap]) && r == (Heard(us[pos + gap], WmaxMps(mpsRaw)), pos + gap + 1)
            else r == (ReadError(Timeout), pos + gap)
    decreases left
  {
    hide NextUframe, Heard, Blank, WmaxMps;
    gap := 0;
    if left > 0 {
      if pos == |us| {
        NoUframe(us, pos, mpsRaw);
      } else {
        OneUframe(us, pos, mpsRaw);
        if Blank(us[pos]) {
          var g := ReadPassesBlanks(us, pos + 1, mpsRaw, left - 1);
          gap := g + 1;
        }
      }
    }
  }

  lemma {:induction false} BearingSkips(us: seq<UFrame>, pos: nat, gap: nat)
    requires AllBlank(us, pos, pos + gap)
    ensures Bearing(us[pos..]) == Bearing(us[pos + gap..])
    decreases gap
  {
    hide Blank;
    if gap > 0 {
      assert us[pos..][1..] == us[pos + 1..];
      BearingSkips(us, pos + 1, gap - 1);
    }
  }

  /** The next read is the first micro-frame that bears anything, and a timeout when none is left. */
  lemma NextReadIs(us: seq<UFrame>, pos: nat, mpsRaw: nat)
    requires pos <= |us| && WmaxMps(mpsRaw) > 0 && ShortGaps(us)
    ensures var (r, next) := NextRead(us, pos, mpsRaw);
            var left := Bearing(us[pos..]);
            && pos <= next <= |us|
            && if left == [] then r == ReadError(Timeout) && Bearing(us[next..]) == []
               else r == Heard(left[0], WmaxMps(mpsRaw)) && Bearing(us[next..]) == left[1..]
  {
    hide Blank, Heard, FirstNonEmpty, WmaxMps;
    var gap := ReadPassesBlanks(us, pos, mpsRaw, MAX_UFRAMES);
    BearingSkips(us, pos, gap);
    if pos + gap < |us| {
      assert gap == 80000 ==> LongBlank(us, pos);
      assert us[pos + gap..][1..] == us[pos + gap + 1..];
      assert Bearing(us[pos + gap..]) == [us[pos + gap]] + Bearing(us[pos + gap + 1..]);
    } else {
      assert us[pos + gap..] == [];
    }
  }

  /** The first n reads over what bears anything. */
  function Firsts(left: seq<UFrame>, size: nat, n: nat): (rs: seq<Read>)
    ensures |rs| == n && forall k :: 0 <= k < n ==> rs[k] == if k < |left| then Heard(left[k], size) else ReadError(Timeout)
  {
    seq(n, k requires 0 <= k < n => if k < |left| then Heard(left[k], size) else ReadError(Timeout))
  }

  lemma {:induction false} ReadsAre(us: seq<UFrame>, pos: nat, mpsRaw: nat, n: nat)
    requires pos <= |us| && WmaxMps(mpsRaw) > 0 && ShortGaps(us)
    ensures var (rs, next) := Reads(us, pos, mpsRaw, n);
            var left := Bearing(us[pos..]);
            && pos <= next <= |us| && rs == Firsts(left, WmaxMps(mpsRaw), n)
            && Bearing(us[next..]) == left[Min(n, |left|)..]
  {
    hide NextRead, Bearing, Heard, WmaxMps, ShortGaps;
    if n > 0 {
      ReadsAre(us, pos, mpsRaw, n - 1);
      var (_, p) := Reads(us, pos, mpsRaw, n - 1);
      NextReadIs(us, p, mpsRaw);
    }
  }

  lemma {:induction false} NoPacketSize(us: seq<UFrame>, pos: nat, mpsRaw: nat, n: nat)
    requires WmaxMps(mpsRaw) == 0
    ensures Reads(us, pos, mpsRaw, n) == (Repeat(n, ReadError(Protocol("bad isoch mps_raw"))), pos)
  {
    if n > 0 {
      NoPacketSize(us, pos, mpsRaw, n - 1);
      BadMps(us, pos, mpsRaw);
      var e := ReadError(Protocol("bad isoch mps_raw"));
      assert Repeat(n, e) == Repeat(n - 1, e) + [e];
    }
  }

  lemma BadMps(us: seq<UFrame>, pos: nat, mpsRaw: nat)
    requires WmaxMps(mpsRaw) == 0
    ensures NextRead(us, pos, mpsRaw) == (ReadError(Protocol("bad isoch mps_raw")), pos)
  {
    assert NextUframe(us, pos, mpsRaw) == (Err(Protocol("bad isoch mps_raw")), pos);
  }

  /** Streams that differ in their blanks only give the same reads. */
  lemma SameReads(us: seq<UFrame>, pos: nat, us': seq<UFrame>, pos': nat, mpsRaw: nat, n: nat)
    requires pos <= |us| && pos' <= |us'| && ShortGaps(us) && ShortGaps(us') && Bearing(us[pos..]) == Bearing(us'[pos'..])
    ensures Reads(us, pos, mpsRaw, n).0 == Reads(us', pos', mpsRaw, n).0
  {
    hide Reads, Bearing, ShortGaps;
    if WmaxMps(mpsRaw) == 0 {
      NoPacketSize(us, pos, mpsRaw, n);
      NoPacketSize(us', pos', mpsRaw, n);
    } else {
      ReadsAre(us, pos, mpsRaw, n);
      ReadsAre(us', pos', mpsRaw, n);
    }
  }

  lemma {:induction false} FewerReads(us: seq<UFrame>, pos: nat, mpsRaw: nat, n: nat, m: nat)
    requires n <= m
    ensures |Reads(us, pos, mpsRaw, m).0| == m && Reads(us, pos, mpsRaw, n).0 == Reads(us, pos, mpsRaw, m).0[..n]
    decreases m
  {
    hide NextRead;
    if n < m {
      FewerReads(us, pos, mpsRaw, n, m - 1);
    } else if m > 0 {
      FewerReads(us, pos, mpsRaw, m - 1, m - 1);
    }
  }

  lemma {:induction false} EndedStays(init: Option<nat>, rs: seq<Read>, n: nat)
    requires n <= |rs| && Ended(Run(init, rs[..n]))
    ensures Ended(Run(init, rs))
    decreases |rs|
  {
    hide Step;
    if n < |rs| {
      var before := rs[..|rs| - 1];
      assert before[..n] == rs[..n];
      EndedStays(init, before, n);
      StepEnded(Run(init, before), rs[|rs| - 1]);
    } else {
      assert rs[..n] == rs;
    }
  }

  lemma StepEnded(s: State, r: Read)
    requires Ended(s)
    ensures Step(s, r) == s
  {
  }

  /** A capture ends at one read only. */
  lemma EndsOnce(init: Option<nat>, rs: seq<Read>, n: nat)
    requires n <= |rs| && EndsNow(init, rs) && EndsNow(init, rs[..n])
    ensures n == |rs|
  {
    hide Run, Ended;
    if n < |rs| {
      var before := rs[..|rs| - 1];
      assert before[..n] == rs[..n];
      EndedStays(init, before, n);
      assert false;
    }
  }

  /** Two streams that differ in their blanks only are captured alike, read by read. */
  lemma SameCapture(init: Option<nat>, us: seq<UFrame>, pos: nat, us': seq<UFrame>, pos': nat, mpsRaw: nat,
                    rs: seq<Read>, end: nat, rs': seq<Read>, end': nat)
    requires pos <= |us| && pos' <= |us'| && ShortGaps(us) && ShortGaps(us') && Bearing(us[pos..]) == Bearing(us'[pos'..])
    requires Captures(init, us, pos, mpsRaw, rs, end) && Captures(init, us', pos', mpsRaw, rs', end')
    ensures rs == rs' && Run(init, rs) == Run(init, rs')
  {
    hide Reads, Bearing, ShortGaps, EndsNow, Run;
    var m := if |rs| <= |rs'| then |rs'| else |rs|;
    SameReads(us, pos, us', pos', mpsRaw, m);
    FewerReads(us, pos, mpsRaw, |rs|, m);
    FewerReads(us', pos', mpsRaw, |rs'|, m);
    var all := Reads(us, pos, mpsRaw, m).0;
    assert all[..|all|] == all;
    if |rs| <= |rs'| {
      EndsOnce(init, rs', |rs|);
    } else {
      EndsOnce(init, rs, |rs'|);
    }
  }

  lemma {:induction false} BearingAppend(a: seq<UFrame>, b: seq<UFrame>)
    ensures Bearing(a + b) == Bearing(a) + Bearing(b)
  {
    hide Blank, Bearing;
    if a == [] {
      assert a + b == b;
      NothingBears();
    } else {
      BearingAppend(a[1..], b);
      BearingCons(a[0], a[1..]);
      BearingCons(a[0], a[1..] + b);
      assert [a[0]] + a[1..] == a && [a[0]] + (a[1..] + b) == a + b;
    }
  }

  lemma NothingBears()
    ensures Bearing([]) == []
  {
  }

  lemma BearingCons(u: UFrame, rest: seq<UFrame>)
    ensures Bearing([u] + rest) == (if Blank(u) then [] else [u]) + Bearing(rest)
  {
    assert ([u] + rest)[1..] == rest;
  }

  /**
   Blank micro-frames inserted anywhere in the stream, short of 80000 in a row, change nothing: the capture
   makes the same reads and so ends in the same result with the same bytes.
   */
  lemma BlanksUnseen(init: Option<nat>, us: seq<UFrame>, pos: nat, k: nat, blanks: seq<UFrame>, mpsRaw: nat,
                     rs: seq<Read>, end: nat, rs': seq<Read>, end': nat)
    requires pos <= k <= |us| && AllBlank(blanks, 0, |blanks|) && ShortGaps(us) && ShortGaps(us[..k] + blanks + us[k..])
    requires Captures(init, us, pos, mpsRaw, rs, end)
    requires Captures(init, us[..k] + blanks + us[k..], pos, mpsRaw, rs', end')
    ensures rs == rs' && Run(init, rs) == Run(init, rs')
  {
    hide Captures, Bearing, ShortGaps, Blank, Run;
    var more := us[..k] + blanks + us[k..];
    assert us[pos..] == us[pos..k] + us[k..] && more[pos..] == us[pos..k] + (blanks + us[k..]);
    BearingAppend(us[pos..k], us[k..]);
    BearingAppend(us[pos..k], blanks + us[k..]);
    var rest := blanks + us[k..];
    BearingSkips(rest, 0, |blanks|);
    assert rest[0..] == rest && rest[0 + |blanks|..] == us[k..];
    SameCapture(init, us, pos, more, pos, mpsRaw, rs, end, rs', end');
  }

  /** The limit is sharp: 80000 blanks in a row end the read. */
  lemma LongGap(us: seq<UFrame>, pos: nat, mpsRaw: nat)
    requires WmaxMps(mpsRaw) > 0 && AllBlank(us, pos, pos + 80000)
    ensures NextRead(us, pos, mpsRaw) == (ReadError(Timeout), pos + 80000)
  {
    hide Blank, FirstNonEmpty, WmaxMps;
    var gap := ReadPassesBlanks(us, pos, mpsRaw, MAX_UFRAMES);
  }
}
