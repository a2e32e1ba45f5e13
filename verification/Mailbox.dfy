/**
 The big-to-small mailbox: the big core waits for its enable bit to clear, writes the payload, sets
 the bit by a split read-modify-write and rings; the small core's handler claims the message, acts
 on it and answers. Every register access of either side is one step, in any interleaving.
 */
module Mailbox {

  const MAX_DRAIN: nat := 4

  datatype SenderPc = Poll | WritePayload | ReadEnable | WriteEnable(seen: bool) | Ring

  /** The next step of `handle_mailbox_irq`, with `claim_b2s` and `write_reply` written out. */
  datatype ReceiverPc =
    | Out
    | ReadPending
    | ReadPayload
    | ClearPayload(msg: nat)
    | ClearPending(msg: nat)
    | ClearEnable(msg: nat)
    | Dispatch(msg: nat)
    | ReadSeq(msg: nat)
    | WriteData(msg: nat, replied: nat)
    | WriteSeq(msg: nat, replied: nat)
    | WriteMagic(msg: nat)

  /** The run-time switches that control messages set. */
  datatype Switches = Switches(paused: bool, muted: bool)

  /** A claimed message and its place, from 1, among the claims of one handler entry. */
  datatype Claim = Claim(msg: nat, nth: nat)

  datatype State = State(
    // the mailbox controller
    payload: nat, enable: bool, pending: bool,
    // the reply half of the shared memory
    replyData: nat, replySeq: nat, replyValid: bool,
    switches: Switches,
    // the two programs
    sender: SenderPc, next: nat, receiver: ReceiverPc, drain: nat,
    // what has happened
    claimed: seq<Claim>, replied: seq<nat>)

  /** Messages 0xF0_49_cc_aa: command 0x50 pauses, 0x57 mutes. */
  function Act(w: Switches, msg: nat): Switches {
    if msg / 0x1_0000 != 0xF049 then w
    else
      var cmd, arg := msg / 0x100 % 0x100, msg % 0x100;
      if cmd == 0x50 then w.(paused := arg != 0)
      else if cmd == 0x57 then w.(muted := arg != 0)
      else w
  }

  datatype Move = Sender | Receiver

  function SenderStep(msgs: seq<nat>, s: State): State {
    match s.sender
    case Poll => if s.next < |msgs| && !s.enable then s.(sender := WritePayload) else s
    case WritePayload => if s.next < |msgs| then s.(payload := msgs[s.next], sender := ReadEnable) else s
    case ReadEnable => s.(sender := WriteEnable(s.enable))
    case WriteEnable(_) => s.(enable := true, sender := Ring)
    case Ring => s.(pending := s.pending || s.enable, sender := Poll, next := s.next + 1)
  }

  /** A step of the handler; from outside it may be entered at any time. */
  function ReceiverStep(s: State): State {
    match s.receiver
    case Out => s.(receiver := ReadPending, drain := 0)
    case ReadPending => s.(receiver := if s.pending then ReadPayload else Out)
    case ReadPayload => s.(receiver := ClearPayload(s.payload))
    case ClearPayload(m) => s.(payload := 0, receiver := ClearPending(m))
    case ClearPending(m) => s.(pending := false, receiver := ClearEnable(m))
    case ClearEnable(m) =>
      s.(enable := false, receiver := Dispatch(m), drain := s.drain + 1, claimed := s.claimed + [Claim(m, s.drain + 1)])
    case Dispatch(m) =>
      if s.drain > MAX_DRAIN then s.(receiver := Out) else s.(switches := Act(s.switches, m), receiver := ReadSeq(m))
    case ReadSeq(m) => s.(receiver := WriteData(m, s.replySeq))
    case WriteData(m, n) => s.(replyData := m, receiver := WriteSeq(m, n))
    case WriteSeq(m, n) =>
      s.(replySeq := (n + 1) % 0x1_0000_0000, replied := s.replied + [m], receiver := WriteMagic(m))
    case WriteMagic(m) => s.(replyValid := true, receiver := ReadPending)
  }

  function Step(msgs: seq<nat>, s: State, m: Move): State {
    if m.Sender? then SenderStep(msgs, s) else ReceiverStep(s)
  }

  function Run(msgs: seq<nat>, s: State, moves: seq<Move>): State {
    if moves == [] then s else Step(msgs, Run(msgs, s, moves[..|moves| - 1]), moves[|moves| - 1])
  }

  /** Nothing sent, nothing pending; payload, reply words and switches hold anything. */
  predicate Initial(s: State) {
    && !s.enable && !s.pending && s.sender == Poll && s.next == 0 && s.receiver == Out
    && s.claimed == [] && s.replied == [] && s.replySeq < 0x1_0000_0000
  }

  // ---- The invariant -------------------------------------------------------------------------

  /** The message the handler has in hand before it counts as claimed. */
  predicate MidClaim(r: ReceiverPc) {
    r.ReadPayload? || r.ClearPayload? || r.ClearPending? || r.ClearEnable?
  }

  /** Message number `next` is being prepared: the controller is quiet and the last message has been claimed. */
  predicate Preparing(msgs: seq<nat>, s: State) {
    && |s.claimed| == s.next && !MidClaim(s.receiver) && !s.pending
    && s.enable == (s.sender == Ring)
    && (s.sender.WriteEnable? ==> !s.sender.seen)
    && (s.sender.ReadEnable? || s.sender.WriteEnable? || s.sender.Ring? ==> s.next < |msgs| && s.payload == msgs[s.next])
  }

  /** Message number next - 1 is on its way: rung, and not yet released by the handler. */
  predicate Delivering(msgs: seq<nat>, s: State) {
    && s.sender == Poll && s.enable && 0 < s.next <= |msgs| && |s.claimed| == s.next - 1
    && match s.receiver
       case ClearPayload(m) => s.pending && m == msgs[s.next - 1]
       case ClearPending(m) => s.pending && m == msgs[s.next - 1]
       case ClearEnable(m) => !s.pending && m == msgs[s.next - 1]
       case _ => s.pending && s.payload == msgs[s.next - 1]
  }

  predicate InOrder(msgs: seq<nat>, s: State) {
    |s.claimed| <= |msgs| && forall k :: 0 <= k < |s.claimed| ==> s.claimed[k].msg == msgs[k]
  }

  /** The first four claims of a handler entry are answered, in order; a fifth is not. */
  function Answered(claims: seq<Claim>): seq<nat> {
    if claims == [] then []
    else
      var c := claims[|claims| - 1];
      Answered(claims[..|claims| - 1]) + if c.nth <= 4 then [c.msg] else []
  }

  /** The claims that are answered, or will be by the message in hand. */
  function Expected(s: State): seq<nat> {
    match s.receiver
    case Dispatch(m) => if s.drain <= MAX_DRAIN then s.replied + [m] else s.replied
    case ReadSeq(m) => s.replied + [m]
    case WriteData(m, _) => s.replied + [m]
    case WriteSeq(m, _) => s.replied + [m]
    case _ => s.replied
  }

  predicate RepliesInv(s: State, seq0: nat) {
    && Answered(s.claimed) == Expected(s)
    && s.replySeq == (seq0 + |s.replied|) % 0x1_0000_0000
    && (s.receiver.WriteData? || s.receiver.WriteSeq? ==> s.receiver.replied == s.replySeq)
    && (s.receiver.Dispatch? ==> 1 <= s.drain <= MAX_DRAIN + 1)
    && (!s.receiver.Out? && !s.receiver.Dispatch? ==> s.drain <= MAX_DRAIN)
    && forall k :: 0 <= k < |s.claimed| ==> 1 <= s.claimed[k].nth <= MAX_DRAIN + 1
  }

  predicate OrderInv(msgs: seq<nat>, s: State) {
    (Preparing(msgs, s) || Delivering(msgs, s)) && InOrder(msgs, s) && s.next <= |msgs|
  }

  predicate Inv(msgs: seq<nat>, s: State, seq0: nat) {
    OrderInv(msgs, s) && RepliesInv(s, seq0)
  }

  lemma SenderKeeps(msgs: seq<nat>, s: State, seq0: nat)
    requires Inv(msgs, s, seq0)
    ensures Inv(msgs, SenderStep(msgs, s), seq0)
  {
    hide Answered;
  }

  lemma AnsweredSnoc(claims: seq<Claim>, c: Claim)
    ensures Answered(claims + [c]) == Answered(claims) + if c.nth <= MAX_DRAIN then [c.msg] else []
  {
    assert (claims + [c])[..|claims|] == claims;
  }

  lemma ReceiverKeepsOrder(msgs: seq<nat>, s: State)
    requires OrderInv(msgs, s)
    ensures OrderInv(msgs, ReceiverStep(s))
  {
  }

  lemma NextSeq(seq0: nat, n: nat)
    ensures ((seq0 + n) % 0x1_0000_0000 + 1) % 0x1_0000_0000 == (seq0 + (n + 1)) % 0x1_0000_0000
  {
  }

  lemma ReceiverKeepsReplies(s: State, seq0: nat)
    requires RepliesInv(s, seq0)
    ensures RepliesInv(ReceiverStep(s), seq0)
  {
    hide Answered;
    NextSeq(seq0, |s.replied|);
    match s.receiver
    case ClearEnable(m) =>
      AnsweredSnoc(s.claimed, Claim(m, s.drain + 1));
      assert s.replied + [] == s.replied;
    case _ =>
  }

  lemma {:induction false} AlwaysInv(msgs: seq<nat>, s0: State, moves: seq<Move>)
    requires Initial(s0)
    ensures Inv(msgs, Run(msgs, s0, moves), s0.replySeq)
  {
    if moves != [] {
      AlwaysInv(msgs, s0, moves[..|moves| - 1]);
      var s := Run(msgs, s0, moves[..|moves| - 1]);
      if moves[|moves| - 1].Sender? {
        SenderKeeps(msgs, s, s0.replySeq);
      } else {
        ReceiverKeepsOrder(msgs, s);
        ReceiverKeepsReplies(s, s0.replySeq);
      }
    }
  }

  // ---- Theorems --------------------------------------------------------------------------------

  /** In every interleaving the claims are the messages rung so far, each once, in order, with its own payload; at most the last is still on its way. */
  lemma ClaimedExactlyOnce(msgs: seq<nat>, s0: State, moves: seq<Move>)
    requires Initial(s0)
    ensures var s := Run(msgs, s0, moves);
            && s.next <= |msgs| && s.next - 1 <= |s.claimed| <= s.next
            && forall k :: 0 <= k < |s.claimed| ==> s.claimed[k].msg == msgs[k]
  {
    AlwaysInv(msgs, s0, moves);
  }

  /** A sender that finds its bit still set is never left waiting for nothing: the handler has the message or will find it pending. */
  lemma NeverStranded(msgs: seq<nat>, s0: State, moves: seq<Move>)
    requires Initial(s0)
    ensures var s := Run(msgs, s0, moves);
            s.sender == Poll && s.enable ==>
              0 < s.next <= |msgs| && (s.pending || s.receiver == ClearEnable(msgs[s.next - 1]))
  {
    AlwaysInv(msgs, s0, moves);
  }

  /** The handler's replies are its claims in order, without the fifth of an entry; the sequence word counts them modulo 2^32. */
  lemma RepliesFollowClaims(msgs: seq<nat>, s0: State, moves: seq<Move>)
    requires Initial(s0)
    ensures var s := Run(msgs, s0, moves);
            && s.replySeq == (s0.replySeq + |s.replied|) % 0x1_0000_0000
            && (s.receiver == Out || s.receiver == ReadPending ==> s.replied == Answered(s.claimed))
            && forall k :: 0 <= k < |s.claimed| ==> 1 <= s.claimed[k].nth <= 5
  {
    hide Answered, Run;
    AlwaysInv(msgs, s0, moves);
  }

  function ActAll(w: Switches, msgs: seq<nat>): Switches {
    if msgs == [] then w else Act(ActAll(w, msgs[..|msgs| - 1]), msgs[|msgs| - 1])
  }

  /** The messages acted on: those answered, and one whose answer is being written. */
  function ActedOn(s: State): seq<nat> {
    match s.receiver
    case ReadSeq(m) => s.replied + [m]
    case WriteData(m, _) => s.replied + [m]
    case WriteSeq(m, _) => s.replied + [m]
    case _ => s.replied
  }

  lemma ActAllSnoc(w: Switches, msgs: seq<nat>, m: nat)
    ensures ActAll(w, msgs + [m]) == Act(ActAll(w, msgs), m)
  {
    assert (msgs + [m])[..|msgs|] == msgs;
  }

  lemma SwitchesStep(s: State, w: Switches)
    requires s.switches == ActAll(w, ActedOn(s))
    ensures ReceiverStep(s).switches == ActAll(w, ActedOn(ReceiverStep(s)))
  {
    hide Act, ActAll;
    if s.receiver.Dispatch? {
      ActAllSnoc(w, s.replied, s.receiver.msg);
    }
  }

  lemma SenderKeepsSwitches(msgs: seq<nat>, s: State)
    ensures SenderStep(msgs, s).switches == s.switches && ActedOn(SenderStep(msgs, s)) == ActedOn(s)
  {
  }

  /** The switches are those of the messages acted on, in order. */
  lemma {:induction false} SwitchesFollow(msgs: seq<nat>, s0: State, moves: seq<Move>)
    requires Initial(s0)
    ensures var s := Run(msgs, s0, moves);
            s.switches == ActAll(s0.switches, ActedOn(s))
  {
    hide Act, ActAll, ReceiverStep;
    if moves == [] {
      NoMessages(s0.switches);
    } else {
      SwitchesFollow(msgs, s0, moves[..|moves| - 1]);
      if moves[|moves| - 1].Receiver? {
        SwitchesStep(Run(msgs, s0, moves[..|moves| - 1]), s0.switches);
      } else {
        SenderKeepsSwitches(msgs, Run(msgs, s0, moves[..|moves| - 1]));
      }
    }
  }

  lemma NoMessages(w: Switches)
    ensures ActAll(w, []) == w
  {
  }

  /** Message k is the last of the 256 that begin at `base`, which differ in their argument. */
  ghost predicate LastOf(msgs: seq<nat>, base: nat, k: nat) {
    k < |msgs| && base <= msgs[k] < base + 0x100 && forall j :: k < j < |msgs| ==> !(base <= msgs[j] < base + 0x100)
  }

  /** The switch as the last such message leaves it: on unless its argument is 0. */
  ghost predicate SetBy(msgs: seq<nat>, base: nat, before: bool, after: bool) {
    if exists k: nat :: LastOf(msgs, base, k) then exists k: nat :: LastOf(msgs, base, k) && after == (msgs[k] != base)
    else after == before
  }

  lemma SetBySnoc(msgs: seq<nat>, m: nat, base: nat, before: bool, after: bool)
    requires SetBy(msgs, base, before, after)
    ensures SetBy(msgs + [m], base, before, if base <= m < base + 0x100 then m != base else after)
  {
    var more := msgs + [m];
    if base <= m < base + 0x100 {
      assert LastOf(more, base, |msgs|);
    } else {
      forall k: nat ensures LastOf(more, base, k) <==> LastOf(msgs, base, k) {
        SameLast(msgs, m, base, k);
      }
    }
  }

  lemma SameLast(msgs: seq<nat>, m: nat, base: nat, k: nat)
    requires !(base <= m < base + 0x100)
    ensures LastOf(msgs + [m], base, k) <==> LastOf(msgs, base, k)
  {
    if LastOf(msgs + [m], base, k) {
      assert forall j :: k < j < |msgs| ==> (msgs + [m])[j] == msgs[j];
    }
  }

  lemma ActIs(w: Switches, m: nat)
    ensures Act(w, m).paused == if 0xF049_5000 <= m < 0xF049_5100 then m != 0xF049_5000 else w.paused
    ensures Act(w, m).muted == if 0xF049_5700 <= m < 0xF049_5800 then m != 0xF049_5700 else w.muted
  {
  }

  lemma {:induction false} ActAllIs(w: Switches, msgs: seq<nat>)
    ensures SetBy(msgs, 0xF049_5000, w.paused, ActAll(w, msgs).paused) && SetBy(msgs, 0xF049_5700, w.muted, ActAll(w, msgs).muted)
  {
    hide Act;
    if msgs != [] {
      var before, m := msgs[..|msgs| - 1], msgs[|msgs| - 1];
      ActAllIs(w, before);
      assert before + [m] == msgs;
      ActIs(ActAll(w, before), m);
      SetBySnoc(before, m, 0xF049_5000, w.paused, ActAll(w, before).paused);
      SetBySnoc(before, m, 0xF049_5700, w.muted, ActAll(w, before).muted);
    }
  }

  /** Pause is what the last message 0xF049_50aa acted on says, mute what the last 0xF049_57aa does; no other message touches them. */
  lemma SwitchesAre(msgs: seq<nat>, s0: State, moves: seq<Move>)
    requires Initial(s0)
    ensures var s := Run(msgs, s0, moves);
            && SetBy(ActedOn(s), 0xF049_5000, s0.switches.paused, s.switches.paused)
            && SetBy(ActedOn(s), 0xF049_5700, s0.switches.muted, s.switches.muted)
  {
    hide Run, SetBy;
    SwitchesFollow(msgs, s0, moves);
    ActAllIs(s0.switches, ActedOn(Run(msgs, s0, moves)));
  }

  /** What the reply words hold: the last message answered, and it is marked valid; or the next one while it is being written. */
  predicate ReplyWordsInv(s: State) {
    match s.receiver
    case WriteSeq(m, _) => s.replyData == m
    case WriteMagic(m) => s.replied != [] && s.replied[|s.replied| - 1] == s.replyData == m
    case _ => s.replied != [] ==> s.replyData == s.replied[|s.replied| - 1] && s.replyValid
  }

  /** In every run, unless a reply is being written, the reply words hold the last message answered, valid. */
  lemma {:induction false} ReplyWords(msgs: seq<nat>, s0: State, moves: seq<Move>)
    requires Initial(s0)
    ensures ReplyWordsInv(Run(msgs, s0, moves))
  {
    hide Run, Step, ReplyWordsInv;
    if moves == [] {
      NothingReplied(msgs, s0);
    } else {
      var before, m := moves[..|moves| - 1], moves[|moves| - 1];
      assert before + [m] == moves;
      ReplyWords(msgs, s0, before);
      ReplyWordsStep(msgs, Run(msgs, s0, before), m);
      RunSnoc(msgs, s0, before, m);
    }
  }

  lemma NothingReplied(msgs: seq<nat>, s0: State)
    requires Initial(s0)
    ensures Run(msgs, s0, []) == s0 && ReplyWordsInv(s0)
  {
  }

  lemma RunSnoc(msgs: seq<nat>, s0: State, before: seq<Move>, m: Move)
    ensures Run(msgs, s0, before + [m]) == Step(msgs, Run(msgs, s0, before), m)
  {
    hide Step;
    assert (before + [m])[..|before|] == before;
  }

  lemma ReplyWordsStep(msgs: seq<nat>, s: State, m: Move)
    requires ReplyWordsInv(s)
    ensures ReplyWordsInv(Step(msgs, s, m))
  {
    hide Act;
  }
}
