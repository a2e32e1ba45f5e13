/**
 Who gives way when both cores want the line: the turn word decides. The core it names keeps its flag up,
 the other lowers its own, and the one goes in.
 */
module LineLockTurn {
  import opened LineLock
  import opened Wrappers

  // ---- One look at the turn word -------------------------------------------------------------------

  /** A core that finds the turn to be its own keeps its flag up; otherwise it lowers it with its very next step. */
  lemma TurnDecides(p: Policy, s: State, c: nat)
    requires c < 2 && s.cores.Get(c).main == ReadTurn && MainStep(p, s, c).Some?
    ensures var t := MainStep(p, s, c).value;
            if s.turn == c then t.flags == s.flags && t.cores.Get(c).main in {ReadOther, SetHeld}
            else
              && t.flags == s.flags && MainStep(p, t, c).Some?
              && MainStep(p, t, c).value.flags.Get(c) == 0 && MainStep(p, t, c).value.cores.Get(c).main == Yield
  {
  }

  /** A flag comes down only in a core that gives way or leaves. */
  lemma LoweredOnlyWhen(p: Policy, s: State, c: nat)
    requires c < 2 && s.flags.Get(c) == 1 && MainStep(p, s, c).Some? && MainStep(p, s, c).value.flags.Get(c) != 1
    ensures s.cores.Get(c).main in {Lower, Drop}
  {
  }

  /** Turn is written by a core that leaves and by nobody else, and it is given to the other. */
  lemma TurnIsGiven(p: Policy, s: State, m: Move)
    requires m.core < 2 && Next(p, s, m.core, m.act).Some?
    ensures var k, t := s.cores.Get(m.core), Next(p, s, m.core, m.act).value;
            && (t.turn != s.turn ==> t.turn == 1 - m.core && (k.main == GiveTurn || k.isr == TryGiveTurn))
            && (m.act == Main && k.main == GiveTurn ==> t.turn == 1 - m.core && t.flags == s.flags)
            && (m.act == Isr && k.isr == TryGiveTurn ==> t.turn == 1 - m.core && t.flags == s.flags)
  {
  }

  // ---- Both want the line ------------------------------------------------------------------------------

  /** How far core d, whose turn it is not, is from yielding. */
  function ToYield(pc: MainPc): nat {
    match pc
    case RaiseAgain => 4
    case ReadOther => 3
    case ReadTurn => 2
    case Lower => 1
    case _ => 0
  }

  /** How many steps core c, whose turn it is, needs to go in while the other yields. */
  function ToEnter(pc: MainPc): nat {
    match pc
    case Lower => 4
    case Yield => 3
    case RaiseAgain => 2
    case ReadTurn => 2
    case ReadOther => 1
    case _ => 0
  }

  /** Both wait, no handler runs, it is core c's turn, and nobody runs out of spins within n more steps. */
  predicate Contend(s: State, c: nat, n: nat)
    requires c < 2
  {
    var k, d := s.cores.Get(c), s.cores.Get(1 - c);
    && k.isr == Off && d.isr == Off && s.turn == c
    && Waiting(k) && Waiting(d)
    && (k.main in {ReadOther, ReadTurn, Lower} <==> s.flags.Get(c) == 1)
    && (d.main in {ReadOther, ReadTurn, Lower} <==> s.flags.Get(1 - c) == 1)
    && k.spins + n <= LOCK_SPIN_LIMIT && d.spins + n <= LOCK_SPIN_LIMIT
  }

  /** One of them has read a lowered flag and goes in, its spins not used up. */
  predicate GoesIn(s: State, c: nat)
    requires c < 2
  {
    s.cores.Get(c).main == SetHeld && s.cores.Get(c).spins <= LOCK_SPIN_LIMIT && s.flags.Get(1 - c) != 1
  }

  /** A step of the core whose turn it is. */
  lemma OwnerStep(p: Policy, s: State, c: nat, n: nat)
    requires c < 2 && Contend(s, c, n + 1) && MainStep(p, s, c).Some?
    ensures var t := MainStep(p, s, c).value;
            && t.cores.Get(1 - c) == s.cores.Get(1 - c)
            && if s.cores.Get(c).main == ReadOther && s.flags.Get(1 - c) != 1 then GoesIn(t, c)
               else
                 && Contend(t, c, n)
                 && (s.cores.Get(1 - c).main == Yield ==> ToEnter(t.cores.Get(c).main) < ToEnter(s.cores.Get(c).main))
                 && (s.cores.Get(c).main in {ReadOther, ReadTurn} ==> t.cores.Get(c).main in {ReadOther, ReadTurn})
  {
  }

  /** A step of the other. */
  lemma OtherStep(p: Policy, s: State, c: nat, n: nat)
    requires c < 2 && Contend(s, c, n + 1) && MainStep(p, s, 1 - c).Some?
    ensures var t := MainStep(p, s, 1 - c).value;
            && t.cores.Get(c) == s.cores.Get(c)
            && if s.cores.Get(1 - c).main == ReadOther && s.flags.Get(c) != 1 then GoesIn(t, 1 - c)
               else
                 && Contend(t, c, n)
                 && (var d, d' := s.cores.Get(1 - c).main, t.cores.Get(1 - c).main;
                     if d == Yield then d' == Yield else ToYield(d') < ToYield(d))
  {
  }

  /** Along the run somebody goes in: core c itself, or the other. */
  ghost predicate SomeoneIn(p: Policy, s: State, c: nat, moves: seq<Move>)
    requires c < 2
  {
    exists n: nat :: n <= |moves| && Run(p, s, moves[..n]).Some?
                     && (GoesIn(Run(p, s, moves[..n]).value, c) || GoesIn(Run(p, s, moves[..n]).value, 1 - c))
  }

  ghost predicate OwnerIn(p: Policy, s: State, c: nat, moves: seq<Move>)
    requires c < 2
  {
    exists n: nat :: n <= |moves| && Run(p, s, moves[..n]).Some? && GoesIn(Run(p, s, moves[..n]).value, c)
  }

  lemma InBefore(p: Policy, s: State, c: nat, moves: seq<Move>, m: Move)
    requires c < 2
    ensures SomeoneIn(p, s, c, moves) ==> SomeoneIn(p, s, c, moves + [m])
    ensures OwnerIn(p, s, c, moves) ==> OwnerIn(p, s, c, moves + [m])
  {
    hide Run, GoesIn;
    forall n: nat | n <= |moves| ensures (moves + [m])[..n] == moves[..n] {
    }
    if SomeoneIn(p, s, c, moves) {
      var n: nat :| n <= |moves| && Run(p, s, moves[..n]).Some?
                    && (GoesIn(Run(p, s, moves[..n]).value, c) || GoesIn(Run(p, s, moves[..n]).value, 1 - c));
      assert (moves + [m])[..n] == moves[..n];
    }
    if OwnerIn(p, s, c, moves) {
      var n: nat :| n <= |moves| && Run(p, s, moves[..n]).Some? && GoesIn(Run(p, s, moves[..n]).value, c);
      assert (moves + [m])[..n] == moves[..n];
    }
  }

  lemma InNow(p: Policy, s: State, c: nat, moves: seq<Move>)
    requires c < 2 && Run(p, s, moves).Some?
    ensures GoesIn(Run(p, s, moves).value, c) ==> OwnerIn(p, s, c, moves)
    ensures GoesIn(Run(p, s, moves).value, c) || GoesIn(Run(p, s, moves).value, 1 - c) ==> SomeoneIn(p, s, c, moves)
  {
    hide Run, GoesIn;
    assert moves[..|moves|] == moves;
  }

  predicate Raised(k: Core) {
    k.main in {ReadOther, ReadTurn}
  }

  /** Nobody has gone in that could: core c if its flag was up to begin with, otherwise either. */
  ghost predicate NobodyIn(p: Policy, s: State, c: nat, moves: seq<Move>)
    requires c < 2
  {
    if Raised(s.cores.Get(c)) then !OwnerIn(p, s, c, moves) else !SomeoneIn(p, s, c, moves)
  }

  /** In contention handlers stand still, so every move is a step of one of the two waits. */
  lemma OnlyMains(p: Policy, s: State, c: nat, m: Move, n: nat)
    requires c < 2 && !p.isrInWindow && Contend(s, c, n) && m.core < 2 && Next(p, s, m.core, m.act).Some?
    ensures (m == Move(c, Main) || m == Move(1 - c, Main)) && MainStep(p, s, m.core).Some?
    ensures Next(p, s, m.core, m.act) == MainStep(p, s, m.core)
  {
    hide MainStep, IsrStep;
  }

  /** How far the two have come when t is reached from s by the given numbers of their steps. */
  ghost predicate Progress(s: State, t: State, c: nat, owner: nat, other: nat)
    requires c < 2
  {
    var k, d, k', d' := s.cores.Get(c).main, s.cores.Get(1 - c).main, t.cores.Get(c).main, t.cores.Get(1 - c).main;
    && (d' == Yield || ToYield(d') + other <= ToYield(d))
    && (d == Yield ==> d' == Yield && ToEnter(k') + owner <= ToEnter(k))
    && (Raised(s.cores.Get(c)) ==> Raised(t.cores.Get(c)))
  }

  lemma OneMoreMove(p: Policy, s: State, c: nat, before: seq<Move>, m: Move)
    requires NobodyInBefore(p, s, c, before, m)
    ensures Run(p, s, before).Some? && m.core < 2 && Next(p, Run(p, s, before).value, m.core, m.act) == Run(p, s, before + [m])
    ensures NobodyIn(p, s, c, before)
  {
    hide Next;
    assert (before + [m])[..|before|] == before;
    InBefore(p, s, c, before, m);
  }

  ghost predicate NobodyInBefore(p: Policy, s: State, c: nat, before: seq<Move>, m: Move) {
    c < 2 && Run(p, s, before + [m]).Some? && NobodyIn(p, s, c, before + [m])
  }

  lemma {:induction false} StillContend(p: Policy, s: State, c: nat, moves: seq<Move>, n: nat)
    requires c < 2 && !p.isrInWindow && Contend(s, c, |moves| + n) && Run(p, s, moves).Some? && NobodyIn(p, s, c, moves)
    ensures var t := Run(p, s, moves).value;
            Contend(t, c, n) && Progress(s, t, c, OwnSteps(moves, c), OwnSteps(moves, 1 - c))
    decreases |moves|
  {
    hide Next, MainStep, Contend, GoesIn, NobodyIn, Run;
    if moves == [] {
      NoMoves(p, s);
    } else {
      var before, m := moves[..|moves| - 1], moves[|moves| - 1];
      assert before + [m] == moves;
      OneMoreMove(p, s, c, before, m);
      StillContend(p, s, c, before, n + 1);
      ContendStep(p, s, c, before, m, n);
    }
  }

  lemma NoMoves(p: Policy, s: State)
    ensures Run(p, s, []) == Some(s)
  {
  }

  lemma ContendStep(p: Policy, s: State, c: nat, before: seq<Move>, m: Move, n: nat)
    requires NobodyInBefore(p, s, c, before, m) && !p.isrInWindow && m.core < 2 && Run(p, s, before).Some?
    requires Next(p, Run(p, s, before).value, m.core, m.act) == Run(p, s, before + [m])
    requires var t := Run(p, s, before).value;
             Contend(t, c, n + 1) && Progress(s, t, c, OwnSteps(before, c), OwnSteps(before, 1 - c))
    ensures var u := Run(p, s, before + [m]).value;
            Contend(u, c, n) && Progress(s, u, c, OwnSteps(before + [m], c), OwnSteps(before + [m], 1 - c))
  {
    hide Next, MainStep, Run, Contend, GoesIn;
    var t := Run(p, s, before).value;
    OnlyMains(p, t, c, m, n + 1);
    InNow(p, s, c, before + [m]);
    OwnSnoc(before, m);
    WaitingPcs(t, c, n + 1);
    if m.core == c {
      OwnerStep(p, t, c, n);
    } else {
      OtherStep(p, t, c, n);
    }
  }

  lemma OwnSnoc(before: seq<Move>, m: Move)
    ensures forall c {:trigger OwnSteps(before, c)} :: OwnSteps(before + [m], c) == OwnSteps(before, c) + if m == Move(c, Main) then 1 else 0
  {
    assert (before + [m])[..|before|] == before;
  }

  /** A core whose flag is up keeps the other out. */
  lemma WaitingPcs(t: State, c: nat, n: nat)
    requires c < 2 && Contend(t, c, n)
    ensures Raised(t.cores.Get(c)) ==> t.flags.Get(c) == 1
    ensures ToYield(t.cores.Get(1 - c).main) == 0 <==> t.cores.Get(1 - c).main == Yield
    ensures ToEnter(t.cores.Get(c).main) > 0
  {
  }

  // ---- Whole runs --------------------------------------------------------------------------------------

  lemma {:induction false} RunAppend(p: Policy, s: State, first: seq<Move>, second: seq<Move>)
    requires Run(p, s, first + second).Some?
    ensures Run(p, s, first).Some? && Run(p, Run(p, s, first).value, second) == Run(p, s, first + second)
    decreases |second|
  {
    hide Next;
    if second == [] {
      assert first + second == first;
    } else {
      assert (first + second)[..|first + second| - 1] == first + second[..|second| - 1];
      RunAppend(p, s, first, second[..|second| - 1]);
    }
  }

  lemma InWhole(p: Policy, s: State, c: nat, first: seq<Move>, second: seq<Move>)
    requires c < 2 && Run(p, s, first + second).Some? && NobodyIn(p, s, c, first + second)
    requires Run(p, s, first).Some? && (Raised(s.cores.Get(c)) ==> Raised(Run(p, s, first).value.cores.Get(c)))
    ensures NobodyIn(p, s, c, first)
    ensures Raised(s.cores.Get(c)) ==> NobodyIn(p, Run(p, s, first).value, c, second)
    ensures !Raised(s.cores.Get(c)) ==> !SomeoneIn(p, Run(p, s, first).value, c, second)
  {
    hide Run, GoesIn;
    var all, t := first + second, Run(p, s, first).value;
    forall n: nat | n <= |first| ensures all[..n] == first[..n] {
    }
    forall n: nat | n <= |second| && Run(p, t, second[..n]).Some?
      ensures Run(p, s, all[..|first| + n]) == Run(p, t, second[..n])
    {
      assert all[..|first| + n] == first + second[..n];
      RunOn(p, s, first, second[..n]);
    }
    if n: nat :| n <= |first| && Run(p, s, first[..n]).Some? && (GoesIn(Run(p, s, first[..n]).value, c) || GoesIn(Run(p, s, first[..n]).value, 1 - c)) {
      assert all[..n] == first[..n];
    }
    if n: nat :| n <= |second| && Run(p, t, second[..n]).Some? && (GoesIn(Run(p, t, second[..n]).value, c) || GoesIn(Run(p, t, second[..n]).value, 1 - c)) {
      assert Run(p, s, all[..|first| + n]) == Run(p, t, second[..n]);
    }
  }

  lemma {:induction false} RunOn(p: Policy, s: State, first: seq<Move>, second: seq<Move>)
    requires Run(p, s, first).Some?
    ensures Run(p, s, first + second) == Run(p, Run(p, s, first).value, second)
    decreases |second|
  {
    hide Next;
    if second == [] {
      assert first + second == first;
    } else {
      assert (first + second)[..|first + second| - 1] == first + second[..|second| - 1];
      RunOn(p, s, first, second[..|second| - 1]);
    }
  }

  lemma OwnerIsSomeone(p: Policy, s: State, c: nat, moves: seq<Move>)
    requires c < 2 && OwnerIn(p, s, c, moves)
    ensures SomeoneIn(p, s, c, moves)
  {
  }

  /** Four steps of the other and then as many of the owner as it needs: nobody can still be outside. */
  lemma TooLongOutside(p: Policy, s: State, c: nat, first: seq<Move>, second: seq<Move>)
    requires c < 2 && !p.isrInWindow && Contend(s, c, |first| + |second|) && Run(p, s, first + second).Some?
    requires OwnSteps(first, 1 - c) >= 4 && OwnSteps(second, c) >= if Raised(s.cores.Get(c)) then 2 else 4
    ensures !NobodyIn(p, s, c, first + second)
  {
    hide Run, SomeoneIn, OwnerIn;
    if NobodyIn(p, s, c, first + second) {
      RunAppend(p, s, first, second);
      var t := Run(p, s, first).value;
      NobodyInFirst(p, s, c, first, second);
      StillContend(p, s, c, first, |second|);
      InWhole(p, s, c, first, second);
      if SomeoneIn(p, t, c, second) {
        assert Raised(s.cores.Get(c));
      } else if OwnerIn(p, t, c, second) {
        OwnerIsSomeone(p, t, c, second);
      }
      assert NobodyIn(p, t, c, second);
      StillContend(p, t, c, second, 0);
      WaitingPcs(t, c, |second|);
      WaitingPcs(Run(p, t, second).value, c, 0);
      assert false;
    }
  }

  lemma NobodyInFirst(p: Policy, s: State, c: nat, first: seq<Move>, second: seq<Move>)
    requires c < 2 && NobodyIn(p, s, c, first + second)
    ensures NobodyIn(p, s, c, first)
  {
    hide Run, GoesIn;
    forall n: nat | n <= |first| ensures (first + second)[..n] == first[..n] {
    }
    if n: nat :| n <= |first| && Run(p, s, first[..n]).Some? && (GoesIn(Run(p, s, first[..n]).value, c) || GoesIn(Run(p, s, first[..n]).value, 1 - c)) {
      assert (first + second)[..n] == first[..n];
    }
  }

  /**
   The core whose turn it is and whose flag is up goes in, unforced, in every interleaving: once the other
   has taken four steps of its wait, two of its own are enough.
   */
  lemma OwnerGoesIn(p: Policy, s: State, c: nat, first: seq<Move>, second: seq<Move>)
    requires c < 2 && !p.isrInWindow && Contend(s, c, |first| + |second|) && Run(p, s, first + second).Some?
    requires Raised(s.cores.Get(c)) && OwnSteps(first, 1 - c) >= 4 && OwnSteps(second, c) >= 2
    ensures OwnerIn(p, s, c, first + second)
  {
    hide Run, Contend, OwnerIn;
    TooLongOutside(p, s, c, first, second);
  }

  /** If its flag is still down from an earlier turn of the other, one of the two goes in, after four steps of each. */
  lemma SomeoneGoesIn(p: Policy, s: State, c: nat, first: seq<Move>, second: seq<Move>)
    requires c < 2 && !p.isrInWindow && Contend(s, c, |first| + |second|) && Run(p, s, first + second).Some?
    requires OwnSteps(first, 1 - c) >= 4 && OwnSteps(second, c) >= 4
    ensures SomeoneIn(p, s, c, first + second)
  {
    hide Run, Contend, OwnerIn, SomeoneIn;
    TooLongOutside(p, s, c, first, second);
    if OwnerIn(p, s, c, first + second) {
      OwnerIsSomeone(p, s, c, first + second);
    }
  }

  /** Both raise their flags and see each other's: it is core 1's turn, with all its spins to go. */
  lemma ContentionHappens(p: Policy)
    ensures var s := At(ReadTurn, false, ReadTurn, Off, false, 1, 1);
            Reached(p, s) && Contend(s, 1, LOCK_SPIN_LIMIT) && Raised(s.cores.Get(1))
  {
    hide Run;
    ReachedStart(p);
    Reaches(p, START, 0, Main, At(Raise, false, Idle, Off, false, 0, 0));
    Reaches(p, At(Raise, false, Idle, Off, false, 0, 0), 1, Main, At(Raise, false, Raise, Off, false, 0, 0));
    Reaches(p, At(Raise, false, Raise, Off, false, 0, 0), 0, Main, At(ReadOther, false, Raise, Off, false, 1, 0));
    Reaches(p, At(ReadOther, false, Raise, Off, false, 1, 0), 1, Main, At(ReadOther, false, ReadOther, Off, false, 1, 1));
    Reaches(p, At(ReadOther, false, ReadOther, Off, false, 1, 1), 0, Main, At(ReadTurn, false, ReadOther, Off, false, 1, 1));
    Reaches(p, At(ReadTurn, false, ReadOther, Off, false, 1, 1), 1, Main, At(ReadTurn, false, ReadTurn, Off, false, 1, 1));
  }
}
