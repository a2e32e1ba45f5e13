/**
 The cross-core UART line lock: two cores run the same Dekker code on two flag words and a turn
 word. On each core an interrupt handler may try the lock between any two steps of the main code.
 Every load and store is one step; the words are sequentially consistent (the code fences them).
 */
module LineLock {
  import opened Wrappers

  const LOCK_SPIN_LIMIT: nat := 2_000_000

  /** The next step of `line_lock_wait`, of the critical section, and of `line_unlock`. */
  datatype MainPc =
    | Idle | Raise | ReadOther | ReadTurn | Lower | Yield | RaiseAgain | SetHeld
    | Critical | ClearHeld | GiveTurn | Drop

  /** The next step of the handler: `line_lock_try`, its critical section, `line_unlock`. */
  datatype IsrPc =
    | Off | LoadHeld | TryRaise | TryRead | TryLower | TrySetHeld
    | TryCritical | TryClearHeld | TryGiveTurn | TryDrop

  datatype Core = Core(main: MainPc, isr: IsrPc, held: bool, spins: nat)

  datatype Two<T> = Two(a: T, b: T) {
    function Get(c: nat): T
      requires c < 2
    {
      if c == 0 then a else b
    }

    function Set(c: nat, v: T): Two<T>
      requires c < 2
    {
      if c == 0 then this.(a := v) else this.(b := v)
    }
  }

  datatype State = State(cores: Two<Core>, flags: Two<nat>, turn: nat)

  /** Whether a core may break in when its spins run out, and whether a handler may run while main is acquiring. */
  datatype Policy = Policy(forcedEntry: bool, isrInWindow: bool)

  datatype Act = Main | EnterIsr | Isr

  /** Main has raised its flag and not yet set LOCK_HELD. */
  predicate InWindow(pc: MainPc) {
    pc in {ReadOther, ReadTurn, Lower, Yield, RaiseAgain, SetHeld}
  }

  /** The end of one round of the wait loop: count it, and give up waiting beyond the limit. */
  function Count(p: Policy, k: Core): Option<Core> {
    var spins := k.spins + 1;
    if spins <= LOCK_SPIN_LIMIT then Some(k.(main := ReadOther, spins := spins))
    else if p.forcedEntry then Some(k.(main := SetHeld, spins := spins))
    else None
  }

  /** One step of the main code of core c. */
  function MainStep(p: Policy, s: State, c: nat): Option<State>
    requires c < 2
  {
    var k := s.cores.Get(c);
    match k.main
    case Idle => Some(s.(cores := s.cores.Set(c, k.(main := Raise, spins := 0))))
    case Raise => Some(s.(cores := s.cores.Set(c, k.(main := ReadOther)), flags := s.flags.Set(c, 1)))
    case ReadOther =>
      Some(s.(cores := s.cores.Set(c, k.(main := if s.flags.Get(1 - c) == 1 then ReadTurn else SetHeld))))
    case ReadTurn =>
      if s.turn != c then Some(s.(cores := s.cores.Set(c, k.(main := Lower))))
      else (match Count(p, k)
            case None => None
            case Some(k') => Some(s.(cores := s.cores.Set(c, k'))))
    case Lower => Some(s.(cores := s.cores.Set(c, k.(main := Yield)), flags := s.flags.Set(c, 0)))
    case Yield =>
      Some(s.(cores := s.cores.Set(c, if s.turn != c && k.spins < LOCK_SPIN_LIMIT then k.(spins := k.spins + 1)
                                      else k.(main := RaiseAgain))))
    case RaiseAgain =>
      (match Count(p, k)
       case None => None
       case Some(k') => Some(s.(cores := s.cores.Set(c, k'), flags := s.flags.Set(c, 1))))
    case SetHeld => Some(s.(cores := s.cores.Set(c, k.(main := Critical, held := true))))
    case Critical => Some(s.(cores := s.cores.Set(c, k.(main := ClearHeld))))
    case ClearHeld => Some(s.(cores := s.cores.Set(c, k.(main := GiveTurn, held := false))))
    case GiveTurn => Some(s.(cores := s.cores.Set(c, k.(main := Drop)), turn := 1 - c))
    case Drop => Some(s.(cores := s.cores.Set(c, k.(main := Idle)), flags := s.flags.Set(c, 0)))
  }

  /** One step of the handler of core c. */
  function IsrStep(s: State, c: nat): State
    requires c < 2
  {
    var k := s.cores.Get(c);
    match k.isr
    case Off => s
    case LoadHeld => s.(cores := s.cores.Set(c, k.(isr := if k.held then Off else TryRaise)))
    case TryRaise => s.(cores := s.cores.Set(c, k.(isr := TryRead)), flags := s.flags.Set(c, 1))
    case TryRead => s.(cores := s.cores.Set(c, k.(isr := if s.flags.Get(1 - c) == 1 then TryLower else TrySetHeld)))
    case TryLower => s.(cores := s.cores.Set(c, k.(isr := Off)), flags := s.flags.Set(c, 0))
    case TrySetHeld => s.(cores := s.cores.Set(c, k.(isr := TryCritical, held := true)))
    case TryCritical => s.(cores := s.cores.Set(c, k.(isr := TryClearHeld)))
    case TryClearHeld => s.(cores := s.cores.Set(c, k.(isr := TryGiveTurn, held := false)))
    case TryGiveTurn => s.(cores := s.cores.Set(c, k.(isr := TryDrop)), turn := 1 - c)
    case TryDrop => s.(cores := s.cores.Set(c, k.(isr := Off)), flags := s.flags.Set(c, 0))
  }

  /** One step of core c, if it may take it: main stands still while its handler runs. */
  function Next(p: Policy, s: State, c: nat, act: Act): Option<State>
    requires c < 2
  {
    var k := s.cores.Get(c);
    match act
    case Main => if k.isr == Off then MainStep(p, s, c) else None
    case EnterIsr =>
      if k.isr == Off && (p.isrInWindow || !InWindow(k.main)) then Some(s.(cores := s.cores.Set(c, k.(isr := LoadHeld))))
      else None
    case Isr => if k.isr != Off then Some(IsrStep(s, c)) else None
  }

  datatype Move = Move(core: nat, act: Act)

  /** The state a whole interleaving leads to, if every step of it may be taken. */
  function Run(p: Policy, s: State, moves: seq<Move>): Option<State> {
    if moves == [] then Some(s)
    else
      var m := moves[|moves| - 1];
      match Run(p, s, moves[..|moves| - 1])
      case None => None
      case Some(t) => if m.core < 2 then Next(p, t, m.core, m.act) else None
  }

  /** Both cores idle; whatever power-on left in the flag words and in turn. */
  predicate Initial(s: State) {
    s.cores == Two(Core(Idle, Off, false, 0), Core(Idle, Off, false, 0))
  }

  /** The core prints: its main or its handler is between taking the lock and giving it up. */
  predicate Holds(k: Core) {
    k.main in {Critical, ClearHeld} || k.isr in {TryCritical, TryClearHeld}
  }

  ghost predicate MutualExclusion(p: Policy) {
    forall s0: State, moves: seq<Move> :: Initial(s0) && Run(p, s0, moves).Some? ==>
      var s := Run(p, s0, moves).value;
      !(Holds(s.cores.a) && Holds(s.cores.b))
  }

  // ---- The invariant ------------------------------------------------------------------------

  /** Past the test that admits it, and not yet past LOCK_HELD := false. */
  predicate Owns(k: Core) {
    k.main in {SetHeld, Critical, ClearHeld} || k.isr in {TrySetHeld, TryCritical, TryClearHeld}
  }

  /** Owns the lock or is about to look whether it may. */
  predicate Claims(k: Core) {
    Owns(k) || (k.isr == Off && k.main in {ReadOther, ReadTurn}) || k.isr == TryRead
  }

  /** What holds of a core and its own flag at all times. */
  predicate CoreInv(k: Core, flag: nat) {
    && (Claims(k) ==> flag == 1)
    && (k.isr != Off ==> !InWindow(k.main))
    && (k.main in {Critical, ClearHeld} ==> k.held && k.isr in {Off, LoadHeld})
  }

  predicate Inv(s: State) {
    CoreInv(s.cores.a, s.flags.a) && CoreInv(s.cores.b, s.flags.b) && !(Owns(s.cores.a) && Owns(s.cores.b))
  }

  const STRICT: Policy := Policy(false, false)

  lemma MainKeepsInv(s: State, c: nat)
    requires c < 2 && Inv(s) && s.cores.Get(c).isr == Off && MainStep(STRICT, s, c).Some?
    ensures Inv(MainStep(STRICT, s, c).value)
  {
    MainStepLocal(s, c);
    hide MainStep;
  }

  /** A step of main touches its own core and flag only, and takes the lock only against a lowered flag. */
  lemma MainStepLocal(s: State, c: nat)
    requires c < 2 && CoreInv(s.cores.Get(c), s.flags.Get(c)) && s.cores.Get(c).isr == Off && MainStep(STRICT, s, c).Some?
    ensures var t := MainStep(STRICT, s, c).value;
            && t.cores.Get(1 - c) == s.cores.Get(1 - c) && t.flags.Get(1 - c) == s.flags.Get(1 - c)
            && CoreInv(t.cores.Get(c), t.flags.Get(c))
            && (Owns(t.cores.Get(c)) ==> Owns(s.cores.Get(c)) || s.flags.Get(1 - c) != 1)
  {
  }

  lemma IsrKeepsInv(s: State, c: nat)
    requires c < 2 && Inv(s) && s.cores.Get(c).isr != Off
    ensures Inv(IsrStep(s, c))
  {
    IsrStepLocal(s, c);
    hide IsrStep;
  }

  lemma IsrStepLocal(s: State, c: nat)
    requires c < 2 && CoreInv(s.cores.Get(c), s.flags.Get(c)) && s.cores.Get(c).isr != Off
    ensures var t := IsrStep(s, c);
            && t.cores.Get(1 - c) == s.cores.Get(1 - c) && t.flags.Get(1 - c) == s.flags.Get(1 - c)
            && CoreInv(t.cores.Get(c), t.flags.Get(c))
            && (Owns(t.cores.Get(c)) ==> Owns(s.cores.Get(c)) || s.flags.Get(1 - c) != 1)
  {
  }

  lemma {:induction false} AlwaysInv(s0: State, moves: seq<Move>)
    requires Initial(s0) && Run(STRICT, s0, moves).Some?
    ensures Inv(Run(STRICT, s0, moves).value)
  {
    if moves != [] {
      var m := moves[|moves| - 1];
      AlwaysInv(s0, moves[..|moves| - 1]);
      var s := Run(STRICT, s0, moves[..|moves| - 1]).value;
      match m.act
      case Main => MainKeepsInv(s, m.core);
      case Isr => IsrKeepsInv(s, m.core);
      case EnterIsr =>
    }
  }

  /** Main and handler of one core never both hold the lock, either. */
  lemma {:induction false} NoNesting(s0: State, moves: seq<Move>, c: nat)
    requires c < 2 && Initial(s0) && Run(STRICT, s0, moves).Some?
    ensures var k := Run(STRICT, s0, moves).value.cores.Get(c);
            k.main in {Critical, ClearHeld} ==> k.isr in {Off, LoadHeld} && k.held
  {
    AlwaysInv(s0, moves);
  }

  // ---- Why both side conditions are needed ----------------------------------------------------

  /** t can be reached from the idle state with clear flags and turn 1. */
  ghost predicate Reached(p: Policy, t: State) {
    exists moves: seq<Move> :: Run(p, START, moves) == Some(t)
  }

  const START: State := State(Two(Core(Idle, Off, false, 0), Core(Idle, Off, false, 0)), Two(0, 0), 1)

  lemma ReachedStart(p: Policy)
    ensures Reached(p, START)
  {
    assert Run(p, START, []) == Some(START);
  }

  lemma Reaches(p: Policy, t: State, c: nat, act: Act, u: State)
    requires Reached(p, t) && c < 2 && Next(p, t, c, act) == Some(u)
    ensures Reached(p, u)
  {
    var moves: seq<Move> :| Run(p, START, moves) == Some(t);
    assert (moves + [Move(c, act)])[..|moves|] == moves;
    assert Run(p, START, moves + [Move(c, act)]) == Some(u);
  }

  /** A state with both main programs at the given points, core 1's handler at another, and no spins. */
  function At(main0: MainPc, held0: bool, main1: MainPc, isr1: IsrPc, held1: bool, flag0: nat, flag1: nat): State {
    State(Two(Core(main0, Off, held0, 0), Core(main1, isr1, held1, 0)), Two(flag0, flag1), 1)
  }

  /** A handler that runs after main has seen the way free lowers main's flag: then both get in. */
  lemma IsrInWindowBreaks(p: Policy)
    requires p.isrInWindow
    ensures Reached(p, At(Critical, true, Critical, Off, true, 1, 0))
  {
    hide Run;
    ReachedStart(p);
    Reaches(p, START, 1, Main, At(Idle, false, Raise, Off, false, 0, 0));
    Reaches(p, At(Idle, false, Raise, Off, false, 0, 0), 1, Main, At(Idle, false, ReadOther, Off, false, 0, 1));
    Reaches(p, At(Idle, false, ReadOther, Off, false, 0, 1), 1, Main, At(Idle, false, SetHeld, Off, false, 0, 1));
    Reaches(p, At(Idle, false, SetHeld, Off, false, 0, 1), 1, EnterIsr, At(Idle, false, SetHeld, LoadHeld, false, 0, 1));
    Reaches(p, At(Idle, false, SetHeld, LoadHeld, false, 0, 1), 1, Isr, At(Idle, false, SetHeld, TryRaise, false, 0, 1));
    Reaches(p, At(Idle, false, SetHeld, TryRaise, false, 0, 1), 1, Isr, At(Idle, false, SetHeld, TryRead, false, 0, 1));
    Reaches(p, At(Idle, false, SetHeld, TryRead, false, 0, 1), 0, Main, At(Raise, false, SetHeld, TryRead, false, 0, 1));
    Reaches(p, At(Raise, false, SetHeld, TryRead, false, 0, 1), 0, Main, At(ReadOther, false, SetHeld, TryRead, false, 1, 1));
    Reaches(p, At(ReadOther, false, SetHeld, TryRead, false, 1, 1), 1, Isr, At(ReadOther, false, SetHeld, TryLower, false, 1, 1));
    Reaches(p, At(ReadOther, false, SetHeld, TryLower, false, 1, 1), 1, Isr, At(ReadOther, false, SetHeld, Off, false, 1, 0));
    Reaches(p, At(ReadOther, false, SetHeld, Off, false, 1, 0), 0, Main, At(SetHeld, false, SetHeld, Off, false, 1, 0));
    Reaches(p, At(SetHeld, false, SetHeld, Off, false, 1, 0), 0, Main, At(Critical, true, SetHeld, Off, false, 1, 0));
    Reaches(p, At(Critical, true, SetHeld, Off, false, 1, 0), 1, Main, At(Critical, true, Critical, Off, true, 1, 0));
  }

  /** Core 0 prints; core 1 has the turn and spins. */
  function Spinning(pc: MainPc, spins: nat): State {
    State(Two(Core(Critical, Off, true, 0), Core(pc, Off, false, spins)), Two(1, 1), 1)
  }

  lemma {:induction false} SpinsOn(p: Policy, k: nat)
    requires k <= LOCK_SPIN_LIMIT
    ensures Reached(p, Spinning(ReadOther, k))
    decreases k
  {
    hide Run;
    if k == 0 {
      ReachedStart(p);
      Reaches(p, START, 0, Main, At(Raise, false, Idle, Off, false, 0, 0));
      Reaches(p, At(Raise, false, Idle, Off, false, 0, 0), 0, Main, At(ReadOther, false, Idle, Off, false, 1, 0));
      Reaches(p, At(ReadOther, false, Idle, Off, false, 1, 0), 0, Main, At(SetHeld, false, Idle, Off, false, 1, 0));
      Reaches(p, At(SetHeld, false, Idle, Off, false, 1, 0), 0, Main, At(Critical, true, Idle, Off, false, 1, 0));
      Reaches(p, At(Critical, true, Idle, Off, false, 1, 0), 1, Main, At(Critical, true, Raise, Off, false, 1, 0));
      Reaches(p, At(Critical, true, Raise, Off, false, 1, 0), 1, Main, Spinning(ReadOther, 0));
    } else {
      SpinsOn(p, k - 1);
      Reaches(p, Spinning(ReadOther, k - 1), 1, Main, Spinning(ReadTurn, k - 1));
      Reaches(p, Spinning(ReadTurn, k - 1), 1, Main, Spinning(ReadOther, k));
    }
  }

  /** A core that has spun out breaks in on the one that prints. */
  lemma ForcedEntryBreaks(p: Policy)
    requires p.forcedEntry
    ensures Reached(p, State(Two(Core(Critical, Off, true, 0), Core(Critical, Off, true, LOCK_SPIN_LIMIT + 1)), Two(1, 1), 1))
  {
    hide Run;
    var n := LOCK_SPIN_LIMIT;
    SpinsOn(p, n);
    Reaches(p, Spinning(ReadOther, n), 1, Main, Spinning(ReadTurn, n));
    Reaches(p, Spinning(ReadTurn, n), 1, Main, Spinning(SetHeld, n + 1));
    Reaches(p, Spinning(SetHeld, n + 1), 1, Main,
            State(Two(Core(Critical, Off, true, 0), Core(Critical, Off, true, n + 1)), Two(1, 1), 1));
  }

  lemma BreaksExclusion(p: Policy, t: State)
    requires Reached(p, t) && Holds(t.cores.a) && Holds(t.cores.b)
    ensures !MutualExclusion(p)
  {
    var moves: seq<Move> :| Run(p, START, moves) == Some(t);
    assert Initial(START) && Run(p, START, moves).Some?;
  }

  /** Mutual exclusion holds in every interleaving exactly when nobody breaks in and no handler runs inside main's acquire window. */
  lemma MutualExclusionIff(p: Policy)
    ensures MutualExclusion(p) <==> !p.forcedEntry && !p.isrInWindow
  {
    if p.forcedEntry {
      ForcedEntryBreaks(p);
      BreaksExclusion(p, State(Two(Core(Critical, Off, true, 0), Core(Critical, Off, true, LOCK_SPIN_LIMIT + 1)), Two(1, 1), 1));
    } else if p.isrInWindow {
      IsrInWindowBreaks(p);
      BreaksExclusion(p, At(Critical, true, Critical, Off, true, 1, 0));
    } else {
      assert p == STRICT;
      forall s0: State, moves: seq<Move> | Initial(s0) && Run(p, s0, moves).Some?
        ensures Inv(Run(p, s0, moves).value)
      {
        AlwaysInv(s0, moves);
      }
    }
  }

  // ---- Waiting comes to an end ------------------------------------------------------------------

  /** What is left of a core's wait: five steps to every round it may still count, less those made in this one. */
  function WaitLeft(k: Core): int {
    5 * (LOCK_SPIN_LIMIT + 1 - k.spins)
    + match k.main
      case ReadOther => 4
      case ReadTurn => 3
      case Lower => 2
      case Yield => 1
      case _ => 0
  }

  predicate SpinsBounded(k: Core) {
    k.spins <= LOCK_SPIN_LIMIT + 1 && ((k.main == Raise || InWindow(k.main)) && k.main != SetHeld ==> k.spins <= LOCK_SPIN_LIMIT)
  }

  /**
   Whatever the other core and the handlers do, each step of a waiting core either takes it out of
   the wait or uses some of it up, so it waits at most 5 * (LOCK_SPIN_LIMIT + 1) + 4 steps; it breaks
   in only once its count exceeds the limit.
   */
  lemma WaitEnds(p: Policy, s: State, c: nat)
    requires c < 2 && SpinsBounded(s.cores.Get(c)) && MainStep(p, s, c).Some?
    requires InWindow(s.cores.Get(c).main) && s.cores.Get(c).main != SetHeld
    ensures var k, k' := s.cores.Get(c), MainStep(p, s, c).value.cores.Get(c);
            && SpinsBounded(k') && 0 < WaitLeft(k) <= 5 * (LOCK_SPIN_LIMIT + 1) + 4
            && k.spins <= k'.spins <= k.spins + 1
            && (k'.main == SetHeld || (InWindow(k'.main) && WaitLeft(k') < WaitLeft(k)))
            && (k'.main == SetHeld ==> k'.spins > LOCK_SPIN_LIMIT || (k.main == ReadOther && s.flags.Get(1 - c) != 1))
  {
  }

  lemma {:induction false} SpinsAlwaysBounded(p: Policy, s0: State, moves: seq<Move>, c: nat)
    requires c < 2 && Initial(s0) && Run(p, s0, moves).Some?
    ensures SpinsBounded(Run(p, s0, moves).value.cores.Get(c))
  {
    if moves != [] {
      SpinsAlwaysBounded(p, s0, moves[..|moves| - 1], c);
      var s := Run(p, s0, moves[..|moves| - 1]).value;
      var m := moves[|moves| - 1];
      if m.act == Main && m.core == c && InWindow(s.cores.Get(c).main) && s.cores.Get(c).main != SetHeld {
        WaitEnds(p, s, c);
      }
    }
  }

  /** Main has raised its flag and does not yet know that it may go in. */
  predicate Waiting(k: Core) {
    InWindow(k.main) && k.main != SetHeld
  }

  /** Core c is waiting in s and stays so through all of `moves`. */
  ghost predicate WaitsThroughout(p: Policy, s: State, c: nat, moves: seq<Move>)
    requires c < 2
  {
    && Run(p, s, moves).Some? && Waiting(Run(p, s, moves).value.cores.Get(c))
    && (moves == [] || WaitsThroughout(p, s, c, moves[..|moves| - 1]))
  }

  /** The steps of core c's main code. */
  function OwnSteps(moves: seq<Move>, c: nat): nat {
    if moves == [] then 0
    else OwnSteps(moves[..|moves| - 1], c) + if moves[|moves| - 1] == Move(c, Main) then 1 else 0
  }

  /** A step that is not core c's own main leaves its main code and its spins alone. */
  lemma OthersLeaveMain(p: Policy, s: State, m: Move, c: nat)
    requires c < 2 && m.core < 2 && m != Move(c, Main) && Next(p, s, m.core, m.act).Some?
    ensures var k, k' := s.cores.Get(c), Next(p, s, m.core, m.act).value.cores.Get(c); k'.main == k.main && k'.spins == k.spins
  {
  }

  lemma {:induction false} WaitUsedUp(p: Policy, s: State, c: nat, moves: seq<Move>)
    requires c < 2 && SpinsBounded(s.cores.Get(c)) && WaitsThroughout(p, s, c, moves)
    ensures var k := Run(p, s, moves).value.cores.Get(c);
            OwnSteps(moves, c) + WaitLeft(k) <= WaitLeft(s.cores.Get(c)) && SpinsBounded(k)
    decreases |moves|
  {
    hide MainStep, IsrStep, Next, WaitLeft, SpinsBounded, InWindow;
    if moves != [] {
      var m := moves[|moves| - 1];
      WaitUsedUp(p, s, c, moves[..|moves| - 1]);
      var t := Run(p, s, moves[..|moves| - 1]).value;
      if m == Move(c, Main) {
        OwnStep(p, t, c);
      } else {
        OthersLeaveMain(p, t, m, c);
        SameWait(t.cores.Get(c), Run(p, s, moves).value.cores.Get(c));
      }
    }
  }

  lemma OwnStep(p: Policy, t: State, c: nat)
    requires c < 2 && SpinsBounded(t.cores.Get(c)) && Waiting(t.cores.Get(c)) && Next(p, t, c, Main).Some?
    requires Waiting(Next(p, t, c, Main).value.cores.Get(c))
    ensures var k' := Next(p, t, c, Main).value.cores.Get(c); WaitLeft(k') < WaitLeft(t.cores.Get(c)) && SpinsBounded(k')
  {
    hide MainStep, WaitLeft, SpinsBounded;
    WaitEnds(p, t, c);
  }

  lemma SameWait(k: Core, k': Core)
    requires k.main == k'.main && k.spins == k'.spins
    ensures WaitLeft(k) == WaitLeft(k') && (SpinsBounded(k) <==> SpinsBounded(k'))
  {
  }

  /**
   In every run, whatever the other core and the handlers do: a core still waits only after fewer than
   5 * (LOCK_SPIN_LIMIT + 1) + 4 steps of its own since it raised its flag. The next one at the latest
   takes it to SetHeld.
   */
  lemma WaitBounded(p: Policy, s0: State, before: seq<Move>, c: nat, moves: seq<Move>)
    requires c < 2 && Initial(s0) && Run(p, s0, before).Some?
    requires WaitsThroughout(p, Run(p, s0, before).value, c, moves)
    ensures OwnSteps(moves, c) < 5 * (LOCK_SPIN_LIMIT + 1) + 4
  {
    hide Next, MainStep, WaitsThroughout, Run;
    var s := Run(p, s0, before).value;
    SpinsAlwaysBounded(p, s0, before, c);
    WaitUsedUp(p, s, c, moves);
    AtBothEnds(p, s, c, moves);
  }

  lemma {:induction false} AtBothEnds(p: Policy, s: State, c: nat, moves: seq<Move>)
    requires c < 2 && WaitsThroughout(p, s, c, moves)
    ensures Waiting(s.cores.Get(c)) && Run(p, s, moves).Some? && Waiting(Run(p, s, moves).value.cores.Get(c))
    decreases |moves|
  {
    hide Next;
    if moves != [] {
      AtBothEnds(p, s, c, moves[..|moves| - 1]);
    }
  }

  /** Once turn names a core it always does; so of two cores that yield to each other one may go on at once. */
  lemma {:induction false} NeverBothBlocked(p: Policy, s0: State, moves: seq<Move>)
    requires Initial(s0) && s0.turn < 2 && Run(p, s0, moves).Some?
    ensures var s := Run(p, s0, moves).value;
            && s.turn < 2
            && (s.cores.a.main == Yield && s.cores.b.main == Yield ==>
                exists c: nat :: c < 2 && MainStep(p, s, c).Some? && MainStep(p, s, c).value.cores.Get(c).main == RaiseAgain)
  {
    if moves != [] {
      NeverBothBlocked(p, s0, moves[..|moves| - 1]);
    }
    var s := Run(p, s0, moves).value;
    if s.cores.a.main == Yield && s.cores.b.main == Yield {
      assert MainStep(p, s, s.turn).value.cores.Get(s.turn).main == RaiseAgain;
    }
  }

  // ---- The code of one core, against whatever the other writes -----------------------------------

  /** What the code does to the shared words: it stores its own flag and turn, and loads the other's flag and turn. */
  datatype Op = StoreFlag(v: nat) | LoadOther(v: nat) | LoadTurn(v: nat) | StoreTurn(v: nat)

  /** The flag comes down only right after the other's was read as up and a turn that is not one's own was read. */
  ghost predicate LowersForOther(me: nat, ops: seq<Op>) {
    forall i :: 0 <= i < |ops| && ops[i] == StoreFlag(0) ==>
      2 <= i && ops[i - 2] == LoadOther(1) && ops[i - 1].LoadTurn? && ops[i - 1].v != me
  }

  /** With the other's flag up: keep the flag up and look again if the turn is one's own, lower it at once if not. */
  ghost predicate ObeysTurn(me: nat, ops: seq<Op>) {
    forall i :: 0 <= i < |ops| - 2 && ops[i] == LoadOther(1) ==>
      && ops[i + 1].LoadTurn?
      && if ops[i + 1].v == me then ops[i + 2].LoadOther? else ops[i + 2] == StoreFlag(0)
  }

  ghost predicate Polite(me: nat, ops: seq<Op>) {
    |ops| >= 2 && ops[0] == StoreFlag(1) && ops[1].LoadOther? && LowersForOther(me, ops) && ObeysTurn(me, ops)
  }

  /** The last thing done was to read the other's flag. */
  ghost predicate Looked(me: nat, ops: seq<Op>, other: nat) {
    Polite(me, ops) && ops[|ops| - 1] == LoadOther(other) && !ops[|ops| - 2].LoadOther?
  }

  /** The other's flag may be read again. */
  ghost predicate MayLook(me: nat, ops: seq<Op>) {
    Polite(me, ops) && !ops[|ops| - 1].LoadOther? && (ops[|ops| - 2] == LoadOther(1) ==> ops[|ops| - 1] == LoadTurn(me))
  }

  lemma PoliteStart(me: nat, other: nat)
    ensures Looked(me, [StoreFlag(1), LoadOther(other)], other)
  {
  }

  lemma LookAgain(me: nat, ops: seq<Op>, other: nat)
    requires MayLook(me, ops)
    ensures Looked(me, ops + [LoadOther(other)], other)
  {
    hide LowersForOther, ObeysTurn;
    PoliteSnoc(me, ops, LoadOther(other));
  }

  lemma LookedIsPolite(me: nat, ops: seq<Op>, other: nat)
    ensures Looked(me, ops, other) || MayLook(me, ops) ==> Polite(me, ops)
  {
  }

  lemma PoliteSnoc(me: nat, ops: seq<Op>, op: Op)
    requires Polite(me, ops)
    requires op == StoreFlag(0) ==> |ops| >= 2 && ops[|ops| - 2] == LoadOther(1) && ops[|ops| - 1].LoadTurn? && ops[|ops| - 1].v != me
    requires ops[|ops| - 2] == LoadOther(1) ==>
               ops[|ops| - 1].LoadTurn? && if ops[|ops| - 1].v == me then op.LoadOther? else op == StoreFlag(0)
    ensures Polite(me, ops + [op])
  {
    var more := ops + [op];
    forall i | 0 <= i < |more| && more[i] == StoreFlag(0)
      ensures 2 <= i && more[i - 2] == LoadOther(1) && more[i - 1].LoadTurn? && more[i - 1].v != me
    {
      assert i < |ops| ==> ops[i] == StoreFlag(0) && more[i - 1] == ops[i - 1] && more[i - 2] == ops[i - 2];
    }
    forall i | 0 <= i < |more| - 2 && more[i] == LoadOther(1)
      ensures more[i + 1].LoadTurn? && if more[i + 1].v == me then more[i + 2].LoadOther? else more[i + 2] == StoreFlag(0)
    {
      assert ops[i] == LoadOther(1) && more[i + 1] == ops[i + 1];
      assert i + 2 < |ops| ==> more[i + 2] == ops[i + 2];
    }
  }

  /** The words as core `me` sees them: its own flag, and what each read of the others returns. */
  class Words {
    const me: nat
    const otherAt: nat -> nat
    const turnAt: nat -> nat
    var time: nat
    var flag: nat
    var held: bool
    ghost var log: seq<Op>

    constructor (me: nat, otherAt: nat -> nat, turnAt: nat -> nat)
      ensures this.me == me && this.otherAt == otherAt && this.turnAt == turnAt && !held && log == []
    {
      this.me, this.otherAt, this.turnAt := me, otherAt, turnAt;
      time, flag, held := 0, 0, false;
      log := [];
    }

    method WriteFlag(v: nat)
      modifies `flag, `log
      ensures flag == v && log == old(log) + [StoreFlag(v)]
    {
      flag := v;
      log := log + [StoreFlag(v)];
    }

    method ReadOtherFlag() returns (v: nat)
      modifies `time, `log
      ensures v == otherAt(old(time)) && time == old(time) + 1 && log == old(log) + [LoadOther(v)]
    {
      v := otherAt(time);
      time := time + 1;
      log := log + [LoadOther(v)];
    }

    method ReadTurnWord() returns (v: nat)
      modifies `time, `log
      ensures v == turnAt(old(time)) && time == old(time) + 1 && log == old(log) + [LoadTurn(v)]
    {
      v := turnAt(time);
      time := time + 1;
      log := log + [LoadTurn(v)];
    }

    /**
     Returns with the flag up and LOCK_HELD set, after at most LOCK_SPIN_LIMIT + 1 rounds of its two
     loops together, whatever is read; it goes in against a raised flag only beyond the limit, and it
     gives way exactly when the turn is not its own.
     */
    method LineLockWait() returns (rounds: nat, forced: bool, ghost ops: seq<Op>)
      modifies this
      ensures flag == 1 && held && rounds <= LOCK_SPIN_LIMIT + 1
      ensures old(time) < time
      ensures if forced then rounds == LOCK_SPIN_LIMIT + 1 else otherAt(time - 1) != 1
      ensures log == old(log) + ops && Polite(me, ops)
    {
      hide Polite, Looked, MayLook;
      WriteFlag(1);
      var spins := 0;
      rounds, forced := 0, false;
      var other := ReadOtherFlag();
      ops := [StoreFlag(1), LoadOther(other)];
      PoliteStart(me, other);
      while other == 1
        invariant rounds == spins <= LOCK_SPIN_LIMIT && flag == 1
        invariant old(time) < time && other == otherAt(time - 1)
        invariant log == old(log) + ops && Looked(me, ops, other)
        decreases LOCK_SPIN_LIMIT - spins
      {
        ghost var more;
        spins, more := LookAtTurn(ops, spins);
        ops := ops + more;
        spins := spins + 1;
        rounds := spins;
        if spins > LOCK_SPIN_LIMIT {
          forced := true;
          break;
        }
        other := ReadOtherFlag();
        LookAgain(me, ops, other);
        ops := ops + [LoadOther(other)];
      }
      LookedIsPolite(me, ops, other);
      held := true;
    }

    /** The turn is read; if it is the other's, this core gives way. */
    method LookAtTurn(ghost ops: seq<Op>, spins0: nat) returns (spins: nat, ghost more: seq<Op>)
      requires spins0 <= LOCK_SPIN_LIMIT && flag == 1 && Looked(me, ops, 1)
      modifies `flag, `time, `log
      ensures spins0 <= spins <= LOCK_SPIN_LIMIT && flag == 1 && old(time) < time
      ensures log == old(log) + more && MayLook(me, ops + more)
      ensures turnAt(old(time)) == me ==> spins == spins0 && more == [LoadTurn(me)]
    {
      hide LowersForOther, ObeysTurn;
      spins := spins0;
      var turn := ReadTurnWord();
      PoliteSnoc(me, ops, LoadTurn(turn));
      more := [LoadTurn(turn)];
      if turn != me {
        ghost var yielding;
        spins, yielding := GiveWay(ops + [LoadTurn(turn)], spins0);
        assert (ops + [LoadTurn(turn)]) + yielding == ops + (more + yielding);
        more := more + yielding;
      }
    }

    /** The n reads of turn from time t on. */
    ghost function TurnReads(t: nat, n: nat): seq<Op> {
      seq(n, i requires 0 <= i < n => LoadTurn(turnAt(t + i)))
    }

    /** Lower the flag, wait for the turn or the end of the spins, raise it again. */
    method GiveWay(ghost ops: seq<Op>, spins0: nat) returns (spins: nat, ghost yielding: seq<Op>)
      requires spins0 <= LOCK_SPIN_LIMIT && Polite(me, ops)
      requires ops[|ops| - 2] == LoadOther(1) && ops[|ops| - 1].LoadTurn? && ops[|ops| - 1].v != me
      modifies `flag, `time, `log
      ensures spins0 <= spins <= LOCK_SPIN_LIMIT && flag == 1 && old(time) < time
      ensures yielding == [StoreFlag(0)] + TurnReads(old(time), time - old(time)) + [StoreFlag(1)]
      ensures forall t :: old(time) <= t < time - 1 ==> turnAt(t) != me
      ensures turnAt(time - 1) == me || spins == LOCK_SPIN_LIMIT
      ensures log == old(log) + yielding && Polite(me, ops + yielding)
      ensures (ops + yielding)[|ops + yielding| - 2].LoadTurn? && (ops + yielding)[|ops + yielding| - 1] == StoreFlag(1)
    {
      hide LowersForOther, ObeysTurn, TurnReads;
      spins := spins0;
      WriteFlag(0);
      PoliteSnoc(me, ops, StoreFlag(0));
      var turn := ReadTurnWord();
      FirstRead(ops, old(time), turn);
      yielding := [StoreFlag(0)] + TurnReads(old(time), 1);
      while turn != me && spins < LOCK_SPIN_LIMIT
        invariant spins0 <= spins <= LOCK_SPIN_LIMIT && old(time) < time && turn == turnAt(time - 1)
        invariant log == old(log) + yielding && Polite(me, ops + yielding)
        invariant yielding == [StoreFlag(0)] + TurnReads(old(time), time - old(time))
        invariant forall t :: old(time) <= t < time - 1 ==> turnAt(t) != me
        decreases LOCK_SPIN_LIMIT - spins
      {
        spins := spins + 1;
        turn := ReadTurnWord();
        MoreReads(ops, old(time), time - old(time) - 1, turn);
        yielding := yielding + [LoadTurn(turn)];
      }
      WriteFlag(1);
      LastRead(ops, old(time), time - old(time));
      PoliteSnoc(me, ops + yielding, StoreFlag(1));
      assert (ops + yielding) + [StoreFlag(1)] == ops + (yielding + [StoreFlag(1)]);
      yielding := yielding + [StoreFlag(1)];
    }

    lemma FirstRead(ops: seq<Op>, t: nat, turn: nat)
      requires Polite(me, ops + [StoreFlag(0)]) && turn == turnAt(t) && |ops| >= 1 && ops[|ops| - 1].LoadTurn?
      ensures [StoreFlag(0)] + TurnReads(t, 1) == [StoreFlag(0), LoadTurn(turn)] && Polite(me, ops + ([StoreFlag(0)] + TurnReads(t, 1)))
    {
      hide LowersForOther, ObeysTurn;
      assert TurnReads(t, 0) == [] && [StoreFlag(0)] + [] == [StoreFlag(0)];
      MoreReads(ops, t, 0, turn);
    }

    /** One more read of turn after the flag was lowered. */
    lemma MoreReads(ops: seq<Op>, t: nat, n: nat, turn: nat)
      requires Polite(me, ops + ([StoreFlag(0)] + TurnReads(t, n))) && turn == turnAt(t + n)
      requires |ops| >= 1 && ops[|ops| - 1].LoadTurn?
      ensures var more := [StoreFlag(0)] + TurnReads(t, n + 1);
              more == [StoreFlag(0)] + TurnReads(t, n) + [LoadTurn(turn)] && Polite(me, ops + more)
    {
      hide LowersForOther, ObeysTurn;
      LastRead(ops, t, n);
      var yielding, more := [StoreFlag(0)] + TurnReads(t, n), [StoreFlag(0)] + TurnReads(t, n + 1);
      PoliteSnoc(me, ops + yielding, LoadTurn(turn));
      assert more == yielding + [LoadTurn(turn)] && (ops + yielding) + [LoadTurn(turn)] == ops + more;
    }

    lemma LastRead(ops: seq<Op>, t: nat, n: nat)
      requires |ops| >= 1
      ensures var all := ops + ([StoreFlag(0)] + TurnReads(t, n));
              |all| >= 2 && if n == 0 then all[|all| - 1] == StoreFlag(0) else all[|all| - 1].LoadTurn? && !all[|all| - 2].LoadOther?
      ensures n == 0 ==> (ops + ([StoreFlag(0)] + TurnReads(t, n)))[|ops| - 1] == ops[|ops| - 1]
    {
    }

    /** One try, as the handler makes it: never waits, never touches the flag of a main that holds the lock. */
    method LineLockTry() returns (ok: bool)
      modifies this
      ensures old(held) ==> !ok && flag == old(flag) && held && time == old(time) && log == old(log)
      ensures !old(held) ==>
                && time == old(time) + 1 && ok == (otherAt(old(time)) != 1) && held == ok && flag == (if ok then 1 else 0)
                && log == old(log) + [StoreFlag(1), LoadOther(otherAt(old(time)))] + if ok then [] else [StoreFlag(0)]
    {
      if held {
        return false;
      }
      WriteFlag(1);
      var other := ReadOtherFlag();
      if other == 1 {
        WriteFlag(0);
        return false;
      }
      held := true;
      return true;
    }

    /** Give the turn away, then lower the flag. */
    method LineUnlock()
      requires me < 2
      modifies `flag, `held, `log
      ensures !held && flag == 0 && log == old(log) + [StoreTurn(1 - me), StoreFlag(0)]
    {
      held := false;
      log := log + [StoreTurn(1 - me)];
      WriteFlag(0);
    }
  }
}
