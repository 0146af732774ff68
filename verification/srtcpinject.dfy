/**
 The runs of SrtcpHandler with a network that also puts in packets of its own.  SRTCP reads the index from
 the packet in the clear.  Before the packet is authenticated, that index has been looked at for
 re-keying, and the replay check has shifted the bit map by it
 (srtpcryptohandlersrtcp.cpp:543-563, 606-641, 482-498).  So the runs keep the map, as the handler object does.
 */
module SrtcpInjection {
  import opened Machine
  import opened Octets
  import opened Outcomes
  import opened ReplayWindow
  import opened SrtpPacket
  import opened Srtcp
  import opened SrtcpHandler

  datatype Attacked = Attacked(s: System, bits: Word64) {
    function Guard(): Guarded { Guarded(s.receiver, bits) }
  }

  datatype Move = Regular(step: Step) | Inject(wire: Bytes)

  const UNTOUCHED := Attacked(INITIAL, ZERO)

  /** Any octets may be put in, as long as they are not accepted: the tag keeps invented packets out. */
  predicate Permitted(t: Stream, a: Attacked, move: Move)
    requires t.context.Valid() && t.policy.window <= 64
  {
    match move
    case Regular(step) => Allowed(t, a.s, step)
    case Inject(wire) => OutcomeByMap(t.context, t.policy, a.Guard(), wire).Leave?
  }

  function Play(t: Stream, a: Attacked, move: Move): Attacked
    requires t.context.Valid() && t.policy.window <= 64 && Permitted(t, a, move)
  {
    match move
    case Regular(Send(_)) => a.(s := Apply(t, a.s, move.step))
    case Regular(Deliver(position)) => Received(t, a, position)
    case Inject(wire) =>
      var g := StepByMap(t.context, t.policy, a.Guard(), wire);
      Attacked(a.s.(receiver := g.receiver), g.bits)
  }

  function Received(t: Stream, a: Attacked, position: nat): Attacked
    requires t.context.Valid() && t.policy.window <= 64 && position < |a.s.sent|
  {
    var wire := a.s.sent[position].wire;
    var r, g := OutcomeByMap(t.context, t.policy, a.Guard(), wire), StepByMap(t.context, t.policy, a.Guard(), wire);
    if r.Leave? then Attacked(a.s.(receiver := g.receiver), g.bits)
    else Attacked(a.s.(receiver := g.receiver, log := a.s.log + [position], plains := a.s.plains + [r.value]), g.bits)
  }

  /** Any sequence of moves; a move that is not permitted does nothing. */
  function RunUnder(t: Stream, moves: seq<Move>): Attacked
    requires t.context.Valid() && t.policy.window <= 64
    decreases |moves|
  {
    if moves == [] then UNTOUCHED
    else
      var a := RunUnder(t, moves[..|moves| - 1]);
      if Permitted(t, a, moves[|moves| - 1]) then Play(t, a, moves[|moves| - 1]) else a
  }

  lemma OneMoveMore(t: Stream, moves: seq<Move>, move: Move)
    requires t.context.Valid() && t.policy.window <= 64
    ensures var a := RunUnder(t, moves);
            RunUnder(t, moves + [move]) == if Permitted(t, a, move) then Play(t, a, move) else a
  {
    hide Permitted, Play;
    assert (moves + [move])[..|moves|] == moves;
  }

  // ----- What every run keeps, whatever is put in -----

  /** What was taken is what was sent, and the memory is the set of the indices taken. */
  ghost predicate LogInv(t: Stream, s: System) {
    && |s.plains| == |s.log| == s.receiver.packets
    && (forall k | 0 <= k < |s.log| ::
          s.log[k] < |s.sent| && PaddingFits(s.sent[s.log[k]]) && s.plains[k] == s.sent[s.log[k]].plain)
    && (t.policy.protection ==> History(s))
  }

  ghost predicate History(s: System) {
    var m := s.receiver.memory;
    && 0 <= m.top < 0x8000_0000
    && (if m.seen == {} then m.top == 0 else m.top in m.seen)
    && (forall i | i in m.seen :: i <= m.top && exists k :: 0 <= k < |s.log| && s.log[k] % 0x8000_0000 == i)
    && (forall k | 0 <= k < |s.log| :: s.log[k] % 0x8000_0000 in m.seen)
  }

  ghost predicate Safe(t: Stream, a: Attacked)
    requires t.context.Valid()
  {
    SenderInv(t, a.s) && LogInv(t, a.s)
  }

  /** The receiver with its flag and its last index set anew. */
  function Looked(r: Receiver, after: Receiver): Receiver { r.(stripped := after.stripped, reKey := after.reKey) }

  /** A delivery, in terms of the position and the map. */
  lemma DeliverByMap(t: Stream, a: Attacked, position: nat)
    requires t.context.Valid() && t.context.encAlg.AesCm? && t.policy.window <= 64 && Safe(t, a) && position < |a.s.sent|
    ensures var index, m, after := position % 0x8000_0000, a.s.receiver.memory, Received(t, a, position);
            && after.s.sender == a.s.sender && after.s.sent == a.s.sent
            && if a.s.receiver.reKey || t.context.mki == KMKINULL || !PaddingFits(a.s.sent[position])
                  || (t.policy.protection && !Passes(a.bits, t.policy.window, index - m.top))
               then after.s.log == a.s.log && after.s.plains == a.s.plains && after.bits == a.bits
                    && after.s.receiver == Looked(a.s.receiver, after.s.receiver)
               else
                 && after.s.log == a.s.log + [position] && after.s.plains == a.s.plains + [a.s.sent[position].plain]
                 && after.s.receiver.packets == a.s.receiver.packets + 1
                 && (t.policy.protection ==>
                       && after.s.receiver.memory == Memory(m.seen + {index}, if index > m.top then index else m.top)
                       && -64 < index - m.top
                       && after.bits == Committed(Checked(a.bits, t.policy.window, index - m.top), index - m.top))
  {
    hide ProtectRtcp, ParseRtcp, OpenRtcp, StripEBit, ReKeyDue, Passes, Checked, Committed, Delta, Read16, IsPadded;
    var index: u32 := position % 0x8000_0000;
    ProtectedSize(t.context, index, a.s.sent[position].plain);
    RtcpRoundTrip(t.context, index, a.s.sent[position].plain);
    if t.policy.protection {
      NarrowExact(index, a.s.receiver.memory.top);
      PassesOrStays(a.bits, t.policy.window, index as int - a.s.receiver.memory.top);
    }
  }

  /** The packet is checked against the map, and so shifts it. */
  predicate Checks(t: Stream, a: Attacked, wire: Bytes)
    requires t.context.Valid() && t.policy.window <= 64
  {
    && t.policy.protection && ParseRtcp(t.context, wire).Ok?
    && AdmitByMap(t.context, t.policy, a.Guard(), ParseRtcp(t.context, wire).value).Ok?
  }

  /** How far ahead of the highest accepted index the receiver takes a packet to be. */
  function Ahead(t: Stream, a: Attacked, wire: Bytes): int
    requires t.context.Valid() && ParseRtcp(t.context, wire).Ok?
  {
    Delta(IndexOf(t.context, a.s.receiver, ParseRtcp(t.context, wire).value), a.s.receiver.memory.top)
  }

  /** A packet that was put in can raise the re-keying flag and shift the map, and nothing else but the last
      index, which the next packet sets again. */
  lemma InjectEffect(t: Stream, a: Attacked, wire: Bytes)
    requires t.context.Valid() && t.policy.window <= 64 && Permitted(t, a, Inject(wire))
    ensures var after := Play(t, a, Inject(wire));
            && after.s == a.s.(receiver := Looked(a.s.receiver, after.s.receiver))
            && after.bits == if Checks(t, a, wire) then Checked(a.bits, t.policy.window, Ahead(t, a, wire)) else a.bits
  {
    hide ParseRtcp, OpenRtcp, IndexOf, SrtcpHandler.MkiMatches, Passes, Checked, Delta, ReKeyDue;
  }

  lemma PlayKeepsSafe(t: Stream, a: Attacked, move: Move)
    requires t.context.Valid() && t.context.encAlg.AesCm? && t.policy.window <= 64 && Safe(t, a) && Permitted(t, a, move)
    ensures Safe(t, Play(t, a, move))
  {
    hide Received, OutcomeByMap, StepByMap, SenderInv, LogInv, Passes, Checked, Committed, Checks, ProtectStep, Ahead,
      PaddingFits;
    match move {
      case Regular(Send(plain)) =>
        SendKeepsSender(t, a.s, plain);
        SendingKeepsLog(t, a.s, Apply(t, a.s, move.step));
      case Regular(Deliver(position)) =>
        DeliverByMap(t, a, position);
        var after := Received(t, a, position).s;
        SameSender(t, a.s, after);
        if after.log == a.s.log {
          SameLog(t, a.s, after);
        } else {
          TakingKeepsLog(t, a.s, after, position);
        }
      case Inject(wire) =>
        InjectEffect(t, a, wire);
        SameSender(t, a.s, Play(t, a, move).s);
        SameLog(t, a.s, Play(t, a, move).s);
    }
  }

  lemma SameSender(t: Stream, s: System, s': System)
    requires t.context.Valid() && SenderInv(t, s) && s'.sender == s.sender && s'.sent == s.sent
    ensures SenderInv(t, s')
  {
  }

  lemma SendingKeepsLog(t: Stream, s: System, s': System)
    requires LogInv(t, s) && s'.receiver == s.receiver && s'.log == s.log && s'.plains == s.plains
    requires |s.sent| < |s'.sent| && s'.sent[..|s.sent|] == s.sent
    ensures LogInv(t, s')
  {
    assert forall k | 0 <= k < |s.sent| :: s'.sent[k] == s'.sent[..|s.sent|][k];
  }

  lemma SameLog(t: Stream, s: System, s': System)
    requires LogInv(t, s) && s'.sent == s.sent && s'.log == s.log && s'.plains == s.plains
    requires s'.receiver == Looked(s.receiver, s'.receiver)
    ensures LogInv(t, s')
  {
  }

  lemma TakingKeepsLog(t: Stream, s: System, s': System, position: nat)
    requires LogInv(t, s) && position < |s.sent| && PaddingFits(s.sent[position]) && s'.sent == s.sent
    requires s'.log == s.log + [position] && s'.plains == s.plains + [s.sent[position].plain]
    requires s'.receiver.packets == s.receiver.packets + 1
    requires var index, m := position % 0x8000_0000, s.receiver.memory;
             t.policy.protection ==> s'.receiver.memory == Memory(m.seen + {index}, if index > m.top then index else m.top)
    ensures LogInv(t, s')
  {
    hide PaddingFits;
    if t.policy.protection {
      var seen, seen' := s.receiver.memory.seen, s'.receiver.memory.seen;
      assert s'.log[|s.log|] % 0x8000_0000 == position % 0x8000_0000;
      forall i | i in seen' ensures exists k :: 0 <= k < |s'.log| && s'.log[k] % 0x8000_0000 == i {
        if i in seen {
          var k :| 0 <= k < |s.log| && s.log[k] % 0x8000_0000 == i;
          assert s'.log[k] == s.log[k];
        }
      }
      assert position % 0x8000_0000 in seen';
    }
  }

  lemma UntouchedSafe(t: Stream)
    requires t.context.Valid()
    ensures Safe(t, UNTOUCHED)
  {
  }

  lemma {:induction false} RunKeepsSafe(t: Stream, moves: seq<Move>)
    requires t.context.Valid() && t.context.encAlg.AesCm? && t.policy.window <= 64
    ensures Safe(t, RunUnder(t, moves))
    decreases |moves|
  {
    hide Safe, Permitted, Play;
    UntouchedSafe(t);
    if moves != [] {
      var a, move := RunUnder(t, moves[..|moves| - 1]), moves[|moves| - 1];
      RunKeepsSafe(t, moves[..|moves| - 1]);
      if Permitted(t, a, move) {
        PlayKeepsSafe(t, a, move);
      }
    }
  }

  // ----- What is handed on -----

  /** Whatever is put in, every packet handed on is the one the sender protected at that position, and with
      replay protection the top of the map is the largest index handed on. */
  lemma OnlyWhatWasSent(t: Stream, moves: seq<Move>)
    requires t.context.Valid() && t.context.encAlg.AesCm? && t.policy.window <= 64
    ensures var s := RunUnder(t, moves).s;
            && |s.plains| == |s.log|
            && (forall k | 0 <= k < |s.log| :: s.log[k] < |s.sent| && s.plains[k] == s.sent[s.log[k]].plain)
            && (t.policy.protection ==>
                  && (forall k | 0 <= k < |s.log| :: s.log[k] % 0x8000_0000 <= s.receiver.memory.top)
                  && (s.log != [] ==> exists k :: 0 <= k < |s.log| && s.log[k] % 0x8000_0000 == s.receiver.memory.top))
  {
    hide SenderInv, RunUnder;
    RunKeepsSafe(t, moves);
    var s := RunUnder(t, moves).s;
    if t.policy.protection && s.log != [] {
      assert s.log[0] % 0x8000_0000 in s.receiver.memory.seen;
    }
  }

  /** With or without put-in packets, a delivered packet is handed on exactly if re-keying is not due,
      the MKI can be recognised, its padding passes and, with replay protection, it is ahead of everything taken or its
      bit in the window is clear. */
  lemma AcceptedExactlyByMap(t: Stream, moves: seq<Move>, position: nat)
    requires t.context.Valid() && t.context.encAlg.AesCm? && t.policy.window <= 64
    requires position < |RunUnder(t, moves).s.sent|
    ensures var a := RunUnder(t, moves);
            var behind := a.s.receiver.memory.top - position % 0x8000_0000;
            Received(t, a, position).s.log != a.s.log <==>
            && !a.s.receiver.reKey && t.context.mki != KMKINULL && PaddingFits(a.s.sent[position])
            && (t.policy.protection ==> behind < 0 || (behind < t.policy.window && !a.bits[behind]))
  {
    hide RunUnder, Received, Safe, Checked, Committed, PaddingFits;
    RunKeepsSafe(t, moves);
    DeliverByMap(t, RunUnder(t, moves), position);
  }

  // ----- The runs without packets put in -----

  function Regulars(steps: seq<Step>): (moves: seq<Move>)
    ensures |moves| == |steps| && forall i | 0 <= i < |steps| :: moves[i] == Regular(steps[i])
  {
    seq(|steps|, i requires 0 <= i < |steps| => Regular(steps[i]))
  }

  /** A packet the sender made has the E bit and is never dropped after its replay check. */
  lemma DeliveryIsNotDropped(t: Stream, s: System, position: nat)
    requires t.context.Valid() && t.context.encAlg.AesCm? && SenderInv(t, s) && position < |s.sent|
    ensures HasEBit(t.context, s.sent[position].wire)
    ensures !DroppedAfterCheck(t.context, t.policy, s.receiver, s.sent[position].wire)
  {
    hide ProtectRtcp, ParseRtcp, OpenRtcp, Fresh;
    RtcpRoundTrip(t.context, position % 0x8000_0000, s.sent[position].plain);
  }

  lemma RegularMove(t: Stream, a: Attacked, step: Step)
    requires t.context.Valid() && t.context.encAlg.AesCm? && t.policy.window <= 64
    requires SenderInv(t, a.s) && MapIsMemory(t.policy, a.Guard()) && Allowed(t, a.s, step)
    ensures var b := Play(t, a, Regular(step)); b.s == Apply(t, a.s, step) && MapIsMemory(t.policy, b.Guard())
  {
    hide OutcomeByMap, StepByMap, Outcome, UnprotectStep, SenderInv, MapIsMemory, DroppedAfterCheck, HasEBit, ProtectStep;
    match step {
      case Send(_) =>
      case Deliver(position) =>
        DeliveryIsNotDropped(t, a.s, position);
        MapRemembers(t.context, t.policy, a.Guard(), a.s.sent[position].wire);
    }
  }

  /** Without packets put in, the receiver with the map does what the remembering receiver of SrtcpHandler.Run
      does, and the map is the set of accepted indices all along. */
  lemma {:induction false} RegularRun(t: Stream, steps: seq<Step>)
    requires t.context.Valid() && t.context.encAlg.AesCm? && t.policy.window <= 64
    ensures var a := RunUnder(t, Regulars(steps)); a.s == Run(t, steps) && MapIsMemory(t.policy, a.Guard())
    decreases |steps|
  {
    hide MapIsMemory, Permitted, Play, Apply, Allowed, Inv;
    StartIsMemory(t);
    if steps != [] {
      var before, step := steps[..|steps| - 1], steps[|steps| - 1];
      RegularRun(t, before);
      assert Regulars(steps) == Regulars(before) + [Regular(step)];
      OneMoveMore(t, Regulars(before), Regular(step));
      StepIsMove(t, RunUnder(t, Regulars(before)), step);
      RunKeepsInv(t, before);
      SenderOfInv(t, Run(t, before));
      if Allowed(t, Run(t, before), step) {
        RegularMove(t, RunUnder(t, Regulars(before)), step);
      }
    }
  }

  lemma StartIsMemory(t: Stream)
    requires t.policy.window <= 64
    ensures MapIsMemory(t.policy, UNTOUCHED.Guard())
  {
  }

  lemma StepIsMove(t: Stream, a: Attacked, step: Step)
    requires t.context.Valid() && t.policy.window <= 64
    ensures Permitted(t, a, Regular(step)) <==> Allowed(t, a.s, step)
  {
  }

  lemma SenderOfInv(t: Stream, s: System)
    requires t.context.Valid() && Inv(t, s)
    ensures SenderInv(t, s)
  {
  }

  // ----- When nothing is handed on twice -----

  /** No accepted index within the window is missing from the map. */
  ghost predicate Guarding(t: Stream, a: Attacked)
    requires t.policy.window <= 64
  {
    Covers(a.bits, t.policy.window, a.s.receiver.memory.top, a.s.receiver.memory.seen)
  }

  /** The position was handed on before, and would be handed on again. */
  ghost predicate Replayable(t: Stream, a: Attacked, position: nat)
    requires t.context.Valid() && t.policy.window <= 64
  {
    position in a.s.log && position < |a.s.sent| && Received(t, a, position).s.log != a.s.log
  }

  /** At the end of any run, some packet can be handed on a second time exactly if the map lacks an
      accepted index of the window, unless the receiver refuses everything anyway. */
  lemma ReplayPossible(t: Stream, moves: seq<Move>)
    requires t.context.Valid() && t.context.encAlg.AesCm? && t.policy.window <= 64 && t.policy.protection
    ensures var a := RunUnder(t, moves);
            (exists position :: Replayable(t, a, position)) <==>
            !a.s.receiver.reKey && t.context.mki != KMKINULL && !Guarding(t, a)
  {
    hide RunUnder, Replayable, Guarding;
    var a := RunUnder(t, moves);
    if position :| Replayable(t, a, position) {
      ReplayLacksBit(t, moves, position);
    }
    if !a.s.receiver.reKey && t.context.mki != KMKINULL && !Guarding(t, a) {
      var k := LackingBit(t, a);
      var position := LackingBitReplays(t, moves, k);
    }
  }

  lemma LackingBit(t: Stream, a: Attacked) returns (k: nat)
    requires t.policy.window <= 64 && !Guarding(t, a)
    ensures k < t.policy.window && a.s.receiver.memory.top - k in a.s.receiver.memory.seen && !a.bits[k]
  {
    var m := a.s.receiver.memory;
    var j :| 0 <= j < t.policy.window && m.top - j in m.seen && !a.bits[j];
    k := j;
  }

  lemma ReplayLacksBit(t: Stream, moves: seq<Move>, position: nat)
    requires t.context.Valid() && t.context.encAlg.AesCm? && t.policy.window <= 64 && t.policy.protection
    requires Replayable(t, RunUnder(t, moves), position)
    ensures var a := RunUnder(t, moves); !a.s.receiver.reKey && t.context.mki != KMKINULL && !Guarding(t, a)
  {
    hide RunUnder, Received, SenderInv;
    var a := RunUnder(t, moves);
    RunKeepsSafe(t, moves);
    AcceptedExactlyByMap(t, moves, position);
    var k :| 0 <= k < |a.s.log| && a.s.log[k] == position;
    var behind := a.s.receiver.memory.top - position % 0x8000_0000;
    assert a.s.receiver.memory.top - behind in a.s.receiver.memory.seen;
  }

  lemma LackingBitReplays(t: Stream, moves: seq<Move>, k: nat) returns (position: nat)
    requires t.context.Valid() && t.context.encAlg.AesCm? && t.policy.window <= 64 && t.policy.protection
    requires var a := RunUnder(t, moves);
             && !a.s.receiver.reKey && t.context.mki != KMKINULL
             && k < t.policy.window && a.s.receiver.memory.top - k in a.s.receiver.memory.seen && !a.bits[k]
    ensures position % 0x8000_0000 == RunUnder(t, moves).s.receiver.memory.top - k
    ensures Replayable(t, RunUnder(t, moves), position)
  {
    hide RunUnder, Received, SenderInv, PaddingFits;
    var a := RunUnder(t, moves);
    RunKeepsSafe(t, moves);
    var j :| 0 <= j < |a.s.log| && a.s.log[j] % 0x8000_0000 == a.s.receiver.memory.top - k;
    position := a.s.log[j];
    AcceptedExactlyByMap(t, moves, position);
  }

  /** No taken index of the window is lost by the shift. */
  ghost predicate Harmless(t: Stream, a: Attacked, wire: Bytes)
    requires t.context.Valid() && t.policy.window <= 64
  {
    Checks(t, a, wire) && Ahead(t, a, wire) > 0 ==>
      forall k | 0 < k < t.policy.window && a.s.receiver.memory.top - k in a.s.receiver.memory.seen ::
        Kept(a.bits, Ahead(t, a, wire), k)
  }

  ghost predicate HarmlessMove(t: Stream, a: Attacked, move: Move)
    requires t.context.Valid() && t.policy.window <= 64
  {
    move.Inject? && Permitted(t, a, move) ==> Harmless(t, a, move.wire)
  }

  /** Sending and receiving keep the map complete; a put-in packet does exactly if it is harmless. */
  lemma MoveKeepsGuard(t: Stream, a: Attacked, move: Move)
    requires t.context.Valid() && t.context.encAlg.AesCm? && t.policy.window <= 64 && t.policy.protection
    requires Safe(t, a) && Guarding(t, a) && Permitted(t, a, move)
    ensures Guarding(t, Play(t, a, move)) <==> HarmlessMove(t, a, move)
  {
    hide Received, OutcomeByMap, StepByMap, SenderInv, LogInv, Passes, Checked, Committed, Checks, ProtectStep, Covers, Ahead;
    match move {
      case Regular(Send(plain)) =>
      case Regular(Deliver(position)) => DeliverKeepsGuard(t, a, position);
      case Inject(wire) =>
        InjectEffect(t, a, wire);
        if Checks(t, a, wire) {
          ChecksParses(t, a, wire);
          var m := a.s.receiver.memory;
          DropKeepsCover(a.bits, t.policy.window, m.top, m.seen, Ahead(t, a, wire));
        }
    }
  }

  lemma ChecksParses(t: Stream, a: Attacked, wire: Bytes)
    requires t.context.Valid() && t.policy.window <= 64 && Checks(t, a, wire)
    ensures ParseRtcp(t.context, wire).Ok?
  {
  }

  lemma DeliverKeepsGuard(t: Stream, a: Attacked, position: nat)
    requires t.context.Valid() && t.context.encAlg.AesCm? && t.policy.window <= 64 && t.policy.protection
    requires Safe(t, a) && Guarding(t, a) && position < |a.s.sent|
    ensures Guarding(t, Received(t, a, position))
  {
    hide Received, SenderInv, Passes, Checked, Committed, Covers;
    DeliverByMap(t, a, position);
    if Received(t, a, position).s.log != a.s.log {
      var m, index := a.s.receiver.memory, position % 0x8000_0000;
      CommitKeepsCover(a.bits, t.policy.window, m.top, m.seen, index - m.top);
      assert m.top + (index - m.top) == index;
    }
  }

  ghost predicate AlwaysGuarding(t: Stream, moves: seq<Move>)
    requires t.context.Valid() && t.policy.window <= 64
  {
    forall n | 0 <= n <= |moves| :: Guarding(t, RunUnder(t, moves[..n]))
  }

  ghost predicate AllHarmless(t: Stream, moves: seq<Move>)
    requires t.context.Valid() && t.policy.window <= 64
  {
    forall n | 0 <= n < |moves| :: HarmlessMove(t, RunUnder(t, moves[..n]), moves[n])
  }

  /** The map stays complete all along a run exactly if every packet put in was harmless when it came. */
  lemma {:induction false} GuardingExactlyWhenHarmless(t: Stream, moves: seq<Move>)
    requires t.context.Valid() && t.context.encAlg.AesCm? && t.policy.window <= 64 && t.policy.protection
    ensures AlwaysGuarding(t, moves) <==> AllHarmless(t, moves)
    decreases |moves|
  {
    hide Guarding, HarmlessMove, Permitted, Play, Safe, AlwaysGuarding, AllHarmless;
    if moves == [] {
      EmptyRun(t);
    } else {
      var last := |moves| - 1;
      var a := RunUnder(t, moves[..last]);
      GuardingExactlyWhenHarmless(t, moves[..last]);
      OnePrefixMore(t, moves);
      RunKeepsSafe(t, moves[..last]);
      if AlwaysGuarding(t, moves[..last]) {
        EndGuarding(t, moves[..last]);
        if Permitted(t, a, moves[last]) {
          MoveKeepsGuard(t, a, moves[last]);
        } else {
          NotMade(t, a, moves[last]);
        }
      }
    }
  }

  lemma EmptyRun(t: Stream)
    requires t.context.Valid() && t.policy.window <= 64
    ensures AlwaysGuarding(t, []) && AllHarmless(t, [])
  {
    UntouchedGuarding(t);
  }

  lemma UntouchedGuarding(t: Stream)
    requires t.policy.window <= 64
    ensures Guarding(t, UNTOUCHED)
  {
  }

  lemma NotMade(t: Stream, a: Attacked, move: Move)
    requires t.context.Valid() && t.policy.window <= 64 && !Permitted(t, a, move)
    ensures HarmlessMove(t, a, move)
  {
  }

  lemma EndGuarding(t: Stream, moves: seq<Move>)
    requires t.context.Valid() && t.policy.window <= 64 && AlwaysGuarding(t, moves)
    ensures Guarding(t, RunUnder(t, moves))
  {
    hide Guarding, RunUnder;
    assert moves[..|moves|] == moves;
  }

  lemma OnePrefixMore(t: Stream, moves: seq<Move>)
    requires t.context.Valid() && t.policy.window <= 64 && moves != []
    ensures var before := moves[..|moves| - 1];
            && (AlwaysGuarding(t, moves) <==> AlwaysGuarding(t, before) && Guarding(t, RunUnder(t, moves)))
            && (AllHarmless(t, moves) <==> AllHarmless(t, before) && HarmlessMove(t, RunUnder(t, before), moves[|before|]))
  {
    hide Guarding, HarmlessMove, RunUnder;
    var before := moves[..|moves| - 1];
    assert moves[..|moves|] == moves;
    assert forall n | 0 <= n <= |before| :: moves[..n] == before[..n];
  }

  /** No index was handed on twice; within 2^31 packets sent, that is no packet. */
  ghost predicate Distinct(log: seq<nat>) {
    forall i, j | 0 <= i < j < |log| :: log[i] % 0x8000_0000 != log[j] % 0x8000_0000
  }

  /** A run in which every packet put in was harmless hands no index on twice. */
  lemma {:induction false} NothingTwiceWhileHarmless(t: Stream, moves: seq<Move>)
    requires t.context.Valid() && t.context.encAlg.AesCm? && t.policy.window <= 64 && t.policy.protection
    requires AllHarmless(t, moves)
    ensures Distinct(RunUnder(t, moves).s.log)
    decreases |moves|
  {
    hide Guarding, HarmlessMove, Permitted, Play, Safe, AlwaysGuarding, AllHarmless, Distinct;
    if moves == [] {
      NothingTaken(t);
    } else {
      var before := moves[..|moves| - 1];
      var a, move := RunUnder(t, before), moves[|moves| - 1];
      OnePrefixMore(t, moves);
      NothingTwiceWhileHarmless(t, before);
      GuardingExactlyWhenHarmless(t, before);
      EndGuarding(t, before);
      if Permitted(t, a, move) {
        RunKeepsSafe(t, before);
        MoveKeepsDistinct(t, a, move);
      }
    }
  }

  lemma NothingTaken(t: Stream)
    requires t.context.Valid() && t.policy.window <= 64
    ensures Distinct(RunUnder(t, []).s.log)
  {
  }

  lemma MoveKeepsDistinct(t: Stream, a: Attacked, move: Move)
    requires t.context.Valid() && t.context.encAlg.AesCm? && t.policy.window <= 64 && t.policy.protection
    requires Safe(t, a) && Guarding(t, a) && Distinct(a.s.log) && Permitted(t, a, move)
    ensures Distinct(Play(t, a, move).s.log)
  {
    hide Received, OutcomeByMap, StepByMap, SenderInv, Checked, Committed, Checks, ProtectStep, Ahead;
    match move {
      case Regular(Send(_)) =>
      case Inject(wire) => InjectEffect(t, a, wire);
      case Regular(Deliver(position)) =>
        DeliverByMap(t, a, position);
        if Received(t, a, position).s.log != a.s.log {
          PassedIsNew(t, a, position);
        }
    }
  }

  /** What a complete map lets pass was not taken. */
  lemma PassedIsNew(t: Stream, a: Attacked, position: nat)
    requires t.policy.window <= 64 && t.policy.protection && LogInv(t, a.s) && Guarding(t, a)
    requires Passes(a.bits, t.policy.window, position % 0x8000_0000 - a.s.receiver.memory.top)
    ensures forall k | 0 <= k < |a.s.log| :: a.s.log[k] % 0x8000_0000 != position % 0x8000_0000
  {
    hide Passes, Covers;
    var m := a.s.receiver.memory;
    forall k | 0 <= k < |a.s.log| ensures a.s.log[k] % 0x8000_0000 != position % 0x8000_0000 {
      TakenIsStopped(a, t.policy.window, a.s.log[k] % 0x8000_0000);
    }
  }

  lemma TakenIsStopped(a: Attacked, w: int, index: int)
    requires var m := a.s.receiver.memory; w <= 64 && Covers(a.bits, w, m.top, m.seen) && index in m.seen && index <= m.top
    ensures !Passes(a.bits, w, index - a.s.receiver.memory.top)
  {
    var m := a.s.receiver.memory;
    assert m.top - (m.top - index) in m.seen;
  }

  // ----- Re-keying -----

  /** The index of an encrypted packet is the last of the 2^31, by the clear word it carries, or the key's
      life time is used up. */
  predicate Raises(t: Stream, a: Attacked, wire: Bytes)
    requires t.context.Valid()
  {
    && ParseRtcp(t.context, wire).Ok?
    && ((t.context.encAlg.AesCm? && ParseRtcp(t.context, wire).value.word % 0x8000_0000 == 0x7FFF_FFFF)
        || a.s.receiver.packets >= t.policy.lifeTime)
  }

  /** The packet the receiver is given by a move. */
  predicate Processes(t: Stream, a: Attacked, move: Move, wire: Bytes)
    requires t.context.Valid() && t.policy.window <= 64
  {
    && Permitted(t, a, move)
    && match move
       case Regular(Send(_)) => false
       case Regular(Deliver(position)) => wire == a.s.sent[position].wire
       case Inject(put) => wire == put
  }

  /** Under the null cipher the receiver stays at index 0. */
  ghost predicate Stays(t: Stream, a: Attacked) {
    t.context.encAlg.NullCipher? ==> a.s.receiver.stripped == 0
  }

  /** One packet: whoever made it and whether or not it is authentic, the flag rises exactly with the last
      index or the life time used up.  With the E bit, the last index is the word 0xFFFF_FFFF. */
  lemma FlagAfter(t: Stream, a: Attacked, wire: Bytes)
    requires t.context.Valid() && t.policy.window <= 64 && Stays(t, a)
    ensures StepByMap(t.context, t.policy, a.Guard(), wire).receiver.reKey <==> a.s.receiver.reKey || Raises(t, a, wire)
    ensures t.context.encAlg.AesCm? && ParseRtcp(t.context, wire).Ok? && HasEBit(t.context, wire) && !a.s.receiver.reKey ==>
              (StepByMap(t.context, t.policy, a.Guard(), wire).receiver.reKey <==>
               ParseRtcp(t.context, wire).value.word == 0xFFFF_FFFF || a.s.receiver.packets >= t.policy.lifeTime)
    ensures t.context.encAlg.NullCipher? ==> StepByMap(t.context, t.policy, a.Guard(), wire).receiver.stripped == 0
  {
    hide ParseRtcp, OpenRtcp, Passes, Checked, Committed, Delta, SrtcpHandler.MkiMatches;
  }

  /** The flag was raised by the n-th move. */
  ghost predicate RaisedAt(t: Stream, moves: seq<Move>, n: nat)
    requires t.context.Valid() && t.policy.window <= 64 && n < |moves|
  {
    exists wire :: Processes(t, RunUnder(t, moves[..n]), moves[n], wire) && Raises(t, RunUnder(t, moves[..n]), wire)
  }

  /** In every run, re-keying is due exactly if some packet, sent or put in, authentic or not, carried the
      last index or came when the key's life time was used up. */
  lemma {:induction false} FlagExactly(t: Stream, moves: seq<Move>)
    requires t.context.Valid() && t.policy.window <= 64
    ensures Stays(t, RunUnder(t, moves))
    ensures RunUnder(t, moves).s.receiver.reKey <==> exists n :: 0 <= n < |moves| && RaisedAt(t, moves, n)
    decreases |moves|
  {
    hide Permitted, Play, RaisedAt, Raises, Processes;
    if moves != [] {
      var before := moves[..|moves| - 1];
      FlagExactly(t, before);
      FlagAfterMove(t, moves);
      forall n | 0 <= n < |before| ensures RaisedAt(t, moves, n) <==> RaisedAt(t, before, n) {
        RaisedBefore(t, moves, n);
      }
      if RunUnder(t, before).s.receiver.reKey {
        var n :| 0 <= n < |before| && RaisedAt(t, before, n);
        assert RaisedAt(t, moves, n);
      }
    }
  }

  lemma RaisedBefore(t: Stream, moves: seq<Move>, n: nat)
    requires t.context.Valid() && t.policy.window <= 64 && n < |moves| - 1
    ensures RaisedAt(t, moves, n) <==> RaisedAt(t, moves[..|moves| - 1], n)
  {
    assert moves[..|moves| - 1][..n] == moves[..n];
  }

  lemma FlagAfterMove(t: Stream, moves: seq<Move>)
    requires t.context.Valid() && t.policy.window <= 64 && moves != []
    requires Stays(t, RunUnder(t, moves[..|moves| - 1]))
    ensures Stays(t, RunUnder(t, moves))
    ensures RunUnder(t, moves).s.receiver.reKey <==>
            RunUnder(t, moves[..|moves| - 1]).s.receiver.reKey || RaisedAt(t, moves, |moves| - 1)
  {
    hide Raises, Processes, Play, Permitted;
    var a, move := RunUnder(t, moves[..|moves| - 1]), moves[|moves| - 1];
    if Permitted(t, a, move) {
      FlagAfterPlay(t, a, move);
    } else {
      NothingProcessed(t, a, move);
    }
  }

  lemma NothingProcessed(t: Stream, a: Attacked, move: Move)
    requires t.context.Valid() && t.policy.window <= 64 && !Permitted(t, a, move)
    ensures forall wire :: !Processes(t, a, move, wire)
  {
  }

  lemma FlagAfterPlay(t: Stream, a: Attacked, move: Move)
    requires t.context.Valid() && t.policy.window <= 64 && Stays(t, a) && Permitted(t, a, move)
    ensures Stays(t, Play(t, a, move))
    ensures Play(t, a, move).s.receiver.reKey <==>
            a.s.receiver.reKey || exists wire :: Processes(t, a, move, wire) && Raises(t, a, wire)
  {
    hide Raises, StepByMap, OutcomeByMap, ProtectStep, IsPadded;
    match move {
      case Regular(Send(_)) =>
      case Regular(Deliver(position)) =>
        FlagAfter(t, a, a.s.sent[position].wire);
        assert Processes(t, a, move, a.s.sent[position].wire);
      case Inject(wire) =>
        FlagAfter(t, a, wire);
        assert Processes(t, a, move, wire);
    }
  }

  /** Once re-keying is due, nothing is handed on and no move lowers the flag again. */
  lemma {:induction false} LockedForGood(t: Stream, moves: seq<Move>, more: seq<Move>)
    requires t.context.Valid() && t.policy.window <= 64 && RunUnder(t, moves).s.receiver.reKey
    ensures var a, b := RunUnder(t, moves), RunUnder(t, moves + more);
            b.s.receiver == a.s.receiver && b.s.log == a.s.log && b.s.plains == a.s.plains && b.bits == a.bits
    decreases |more|
  {
    hide Permitted, Play;
    if more == [] {
      assert moves + more == moves;
    } else {
      var less, move := more[..|more| - 1], more[|more| - 1];
      LockedForGood(t, moves, less);
      assert moves + more == (moves + less) + [move];
      OneMoveMore(t, moves + less, move);
      if Permitted(t, RunUnder(t, moves + less), move) {
        LockedMove(t, RunUnder(t, moves + less), move);
      }
    }
  }

  lemma LockedMove(t: Stream, a: Attacked, move: Move)
    requires t.context.Valid() && t.policy.window <= 64 && a.s.receiver.reKey && Permitted(t, a, move)
    ensures var b := Play(t, a, move);
            b.s.receiver == a.s.receiver && b.s.log == a.s.log && b.s.plains == a.s.plains && b.bits == a.bits
  {
    hide ParseRtcp, OpenRtcp, ProtectStep, IsPadded;
  }

  // ----- Packets nobody protected -----

  /** The octets with their last one changed. */
  function Wrong(tag: Bytes): (wrong: Bytes)
    ensures |wrong| == |tag| && (tag != [] ==> wrong != tag)
  {
    if tag == [] then [] else
      var wrong := tag[..|tag| - 1] + [(tag[|tag| - 1] as int + 1) % 0x100];
      assert wrong[|tag| - 1] != tag[|tag| - 1];
      wrong
  }

  const BARE_REPORT: Bytes := [0x80, 201, 0, 1, 0, 0, 0, 0]

  /** A receiver report without a block, with any index word and with a tag that is not its own. */
  function Forged(c: Context, word: u32): Bytes
    requires c.Valid()
  {
    BARE_REPORT + [] + Write32(word) + c.mki + Wrong(RtcpTag(c, BARE_REPORT + Write32(word)))
  }

  lemma ForgedParses(c: Context, word: u32)
    requires c.Valid()
    ensures var wire := Forged(c, word);
            && ParseRtcp(c, wire) == Ok(ParsedRtcp(8, 0, word, Wrong(RtcpTag(c, BARE_REPORT + Write32(word))),
                                                   if c.mki == KMKINULL then [] else c.mki))
            && wire[..12] == BARE_REPORT + Write32(word)
  {
    hide RtcpTag, ParseRtcp, Write32, Wrong;
    var tag := Wrong(RtcpTag(c, BARE_REPORT + Write32(word)));
    Seams(BARE_REPORT, [], Write32(word), c.mki, tag);
    ReportHeader(Forged(c, word));
    Srtcp.ParseParts(c, BARE_REPORT, [], word, tag);
    assert Forged(c, word)[..12] == BARE_REPORT + Write32(word);
  }

  lemma ReportHeader(wire: Bytes)
    requires |wire| >= 8 && wire[..8] == BARE_REPORT
    ensures RtcpHeaderLength(wire) == Ok(8)
  {
    assert forall i | 0 <= i < 8 :: wire[i] == wire[..8][i] == BARE_REPORT[i];
  }

  /** With authentication on, no index makes it authentic. */
  lemma ForgedIsNotAuthentic(c: Context, word: u32, index: u32)
    requires c.Valid() && c.authAlg.HmacSha1?
    ensures ParseRtcp(c, Forged(c, word)).Ok?
    ensures OpenRtcp(c, index, Forged(c, word), ParseRtcp(c, Forged(c, word)).value) == Leave(NotFound)
  {
    hide RtcpTag, ParseRtcp, Write32, Wrong, Forged;
    ForgedParses(c, word);
  }

  lemma ForgedIsRefused(t: Stream, a: Attacked, word: u32)
    requires t.context.Valid() && t.context.authAlg.HmacSha1? && t.policy.window <= 64
    ensures Permitted(t, a, Inject(Forged(t.context, word)))
  {
    hide OpenRtcp, ParseRtcp, Forged, AdmitByMap;
    var wire := Forged(t.context, word);
    ForgedIsNotAuthentic(t.context, word, 0);
    var admitted := AdmitByMap(t.context, t.policy, a.Guard(), ParseRtcp(t.context, wire).value);
    if admitted.Ok? {
      ForgedIsNotAuthentic(t.context, word, admitted.value);
    }
  }

  /** The lock-out, in any run: one unauthentic packet with the index word 0xFFFF_FFFF, and whatever follows,
      no packet is handed on any more. */
  lemma ForgedLocksOut(t: Stream, moves: seq<Move>, more: seq<Move>)
    requires t.context.Valid() && t.context.encAlg.AesCm? && t.context.authAlg.HmacSha1? && t.policy.window <= 64
    ensures var bad := Inject(Forged(t.context, 0xFFFF_FFFF));
            && Permitted(t, RunUnder(t, moves), bad)
            && RunUnder(t, moves + [bad] + more).s.receiver.reKey
            && RunUnder(t, moves + [bad] + more).s.log == RunUnder(t, moves).s.log
  {
    hide RunUnder, StepByMap, OutcomeByMap, Forged, ParseRtcp, Permitted;
    var a, wire := RunUnder(t, moves), Forged(t.context, 0xFFFF_FFFF);
    ForgedIsRefused(t, a, 0xFFFF_FFFF);
    ForgedParses(t.context, 0xFFFF_FFFF);
    FlagAfter(t, a, wire);
    OneMoveMore(t, moves, Inject(wire));
    LockedForGood(t, moves + [Inject(wire)], more);
  }

  /** The replay, in any run: one unauthentic packet whose index is a window or more ahead, and every packet of
      the window already handed on, the one at the top aside, is handed on a second time. */
  lemma ForgedOpensReplay(t: Stream, moves: seq<Move>, index: u32, taken: nat)
    requires t.context.Valid() && t.context.encAlg.AesCm? && t.context.authAlg.HmacSha1? && t.context.mki != KMKINULL
    requires t.policy.window <= 64 && t.policy.protection
    requires var a := RunUnder(t, moves);
             var top := a.s.receiver.memory.top;
             && !a.s.receiver.reKey && a.s.receiver.packets < t.policy.lifeTime
             && top + t.policy.window <= index as int < 0x7FFF_FFFF
             && taken in a.s.log && 0 < top - taken % 0x8000_0000 < t.policy.window
    ensures var a := RunUnder(t, moves);
            var bad := Inject(Forged(t.context, E_BIT + index));
            && Permitted(t, a, bad) && RunUnder(t, moves + [bad]).s.log == a.s.log
            && RunUnder(t, moves + [bad]).bits == ONE && Replayable(t, RunUnder(t, moves + [bad]), taken)
  {
    hide RunUnder, Safe, Permitted, Play, Forged, Replayable;
    var a, bad := RunUnder(t, moves), Inject(Forged(t.context, E_BIT + index));
    RunKeepsSafe(t, moves);
    ForgedIsRefused(t, a, E_BIT + index);
    OneMoveMore(t, moves, bad);
    ForgedClearsMap(t, a, index);
    TakenAgain(t, moves + [bad], taken);
  }

  /** The dropped packet has emptied the map but for the top. */
  lemma ForgedClearsMap(t: Stream, a: Attacked, index: u32)
    requires t.context.Valid() && t.context.encAlg.AesCm? && t.context.mki != KMKINULL
    requires 1 < t.policy.window <= 64 && t.policy.protection && Safe(t, a)
    requires !a.s.receiver.reKey && a.s.receiver.packets < t.policy.lifeTime
    requires a.s.receiver.memory.top + t.policy.window <= index as int < 0x7FFF_FFFF
    requires Permitted(t, a, Inject(Forged(t.context, E_BIT + index)))
    ensures var after := Play(t, a, Inject(Forged(t.context, E_BIT + index)));
            after.bits == ONE && after.s == a.s.(receiver := a.s.receiver.(stripped := index))
  {
    hide StepByMap, OutcomeByMap, Forged, ParseRtcp, Safe, Permitted, Play, Checks, Ahead;
    var wire := Forged(t.context, E_BIT + index);
    TopInRange(t, a);
    ForgedIsAhead(t, a, index);
    InjectEffect(t, a, wire);
    LooksAt(t, a, wire);
  }

  lemma TopInRange(t: Stream, a: Attacked)
    requires t.context.Valid() && t.policy.protection && Safe(t, a)
    ensures 0 <= a.s.receiver.memory.top < 0x8000_0000
  {
    hide SenderInv, PaddingFits;
  }

  lemma ForgedIsAhead(t: Stream, a: Attacked, index: u32)
    requires t.context.Valid() && t.context.encAlg.AesCm? && t.context.mki != KMKINULL
    requires t.policy.window <= 64 && t.policy.protection && !a.s.receiver.reKey
    requires 0 <= a.s.receiver.memory.top < index as int < 0x8000_0000
    ensures var wire := Forged(t.context, E_BIT + index);
            && ParseRtcp(t.context, wire).Ok? && ParseRtcp(t.context, wire).value.word == E_BIT + index
            && Checks(t, a, wire) && Ahead(t, a, wire) == index as int - a.s.receiver.memory.top
  {
    hide Forged, ParseRtcp, Delta, Wrong, RtcpTag, Write32;
    ForgedParses(t.context, E_BIT + index);
    NarrowExact(index, a.s.receiver.memory.top);
  }

  /** A packet put in: the receiver keeps its index and looks at the life time. */
  lemma LooksAt(t: Stream, a: Attacked, wire: Bytes)
    requires t.context.Valid() && t.policy.window <= 64 && Permitted(t, a, Inject(wire)) && ParseRtcp(t.context, wire).Ok?
    ensures Play(t, a, Inject(wire)).s.receiver == Counted(t.context, t.policy, a.s.receiver, ParseRtcp(t.context, wire).value)
  {
    hide ParseRtcp, OpenRtcp, Counted, Checked, Committed, Passes;
  }

  lemma TakenAgain(t: Stream, moves: seq<Move>, taken: nat)
    requires t.context.Valid() && t.context.encAlg.AesCm? && t.policy.window <= 64 && t.policy.protection
    requires var a := RunUnder(t, moves);
             && !a.s.receiver.reKey && t.context.mki != KMKINULL && taken in a.s.log && a.bits == ONE
             && 0 < a.s.receiver.memory.top - taken % 0x8000_0000 < t.policy.window
    ensures Replayable(t, RunUnder(t, moves), taken)
  {
    hide RunUnder, Received, SenderInv;
    RunKeepsSafe(t, moves);
    AcceptedExactlyByMap(t, moves, taken);
  }

  /** The run up to the replay: two reports sent and taken, then the forged one. */
  const TWO_TAKEN: seq<Step> := [Send(BARE_REPORT), Send(BARE_REPORT), Deliver(0), Deliver(1)]

  lemma SendBare(t: Stream, s: System)
    requires t.context.Valid() && SenderInv(t, s)
    ensures Allowed(t, s, Send(BARE_REPORT))
    ensures var after := Apply(t, s, Send(BARE_REPORT));
            && |after.sent| == |s.sent| + 1 && after.sent[..|s.sent|] == s.sent && after.sent[|s.sent|].plain == BARE_REPORT
            && after.receiver == s.receiver && after.log == s.log
  {
    hide SenderInv, Transform;
    ReportHeader(BARE_REPORT);
    assert BARE_REPORT[8..] == [];
    NoText(t.context, NextIndex(s.sender));
  }

  lemma TwoTaken(t: Stream)
    requires t.context.Valid() && t.context.encAlg.AesCm? && t.context.mki != KMKINULL
    requires t.policy.protection && 1 < t.policy.window <= 64 && t.policy.lifeTime > 2
    ensures var s := Run(t, TWO_TAKEN);
            s.log == [0, 1] && |s.sent| == 2 && s.receiver == Receiver(1, Memory({0, 1}, 1), 2, false)
  {
    hide Apply, Allowed, SenderInv;
    var sent := Run(t, TWO_TAKEN[..2]);
    assert TWO_TAKEN[..1] == [Send(BARE_REPORT)] && TWO_TAKEN[..2][..1] == [Send(BARE_REPORT)] && TWO_TAKEN[..1][..0] == [];
    StartSender(t);
    SendBare(t, INITIAL);
    SenderAfter(t, TWO_TAKEN[..1]);
    SendBare(t, Run(t, TWO_TAKEN[..1]));
    SenderAfter(t, TWO_TAKEN[..2]);
    assert sent.receiver == LISTENING && |sent.sent| == 2 && sent.log == [];
    assert TWO_TAKEN[..3][..2] == TWO_TAKEN[..2] && TWO_TAKEN[..4] == TWO_TAKEN && TWO_TAKEN[..3][2] == Deliver(0);
    TakesNext(t, sent, 0);
    SenderAfter(t, TWO_TAKEN[..3]);
    TakesNext(t, Run(t, TWO_TAKEN[..3]), 1);
  }

  lemma StartSender(t: Stream)
    requires t.context.Valid()
    ensures SenderInv(t, INITIAL)
  {
  }

  lemma SenderAfter(t: Stream, steps: seq<Step>)
    requires t.context.Valid()
    ensures SenderInv(t, Run(t, steps))
  {
    hide Run, Inv;
    RunKeepsInv(t, steps);
    SenderOfInv(t, Run(t, steps));
  }

  /** The packet of index 0, and then that of index 1, is taken. */
  lemma TakesNext(t: Stream, s: System, position: nat)
    requires t.context.Valid() && t.context.encAlg.AesCm? && t.context.mki != KMKINULL
    requires t.policy.protection && 1 < t.policy.window <= 64 && t.policy.lifeTime > 2
    requires SenderInv(t, s) && position < 2 <= |s.sent| && s.sent[position].plain == BARE_REPORT
    requires s.receiver == if position == 0 then LISTENING else Receiver(0, Memory({0}, 0), 1, false)
    ensures Allowed(t, s, Deliver(position))
    ensures var after := Apply(t, s, Deliver(position));
            && after.log == s.log + [position] && after.sent == s.sent
            && after.receiver == if position == 0 then Receiver(0, Memory({0}, 0), 1, false)
                                 else Receiver(1, Memory({0, 1}, 1), 2, false)
  {
    hide SenderInv, ParseRtcp, Outcome, IndexOf;
    DeliverOutcome(t, s, position);
    assert {0} + {1} == {0, 1};
  }

  /** A replay, step by step: reports 0 and 1 are taken, a forged report a window ahead is dropped, and report 0
      is handed on again. */
  lemma ReplayRun(t: Stream)
    requires t.context.Valid() && t.context.encAlg.AesCm? && t.context.authAlg.HmacSha1? && t.context.mki != KMKINULL
    requires t.policy.protection && 1 < t.policy.window <= 64 && t.policy.lifeTime > 2
    ensures var forged := Inject(Forged(t.context, E_BIT + (1 + t.policy.window)));
            RunUnder(t, Regulars(TWO_TAKEN) + [forged] + [Regular(Deliver(0))]).s.log == [0, 1, 0]
  {
    hide RunUnder, Run, Forged, Received;
    var forged := Inject(Forged(t.context, E_BIT + (1 + t.policy.window)));
    var moves := Regulars(TWO_TAKEN);
    TwoTaken(t);
    RegularRun(t, TWO_TAKEN);
    ForgedOpensReplay(t, moves, 1 + t.policy.window, 0);
    OneMoveMore(t, moves + [forged], Regular(Deliver(0)));
    AppendsPosition(t, RunUnder(t, moves + [forged]), 0);
  }

  lemma AppendsPosition(t: Stream, a: Attacked, position: nat)
    requires t.context.Valid() && t.policy.window <= 64 && Replayable(t, a, position)
    ensures Permitted(t, a, Regular(Deliver(position)))
    ensures Play(t, a, Regular(Deliver(position))).s.log == a.s.log + [position]
  {
    hide OutcomeByMap, StepByMap;
  }

  // ----- The null cipher -----

  /** The receiver stays at index 0, and the map holds at most that one. */
  ghost predicate Stuck(t: Stream, a: Attacked)
    requires t.policy.window <= 64
  {
    && a.s.receiver.stripped == 0 && a.s.receiver.memory.top == 0
    && |a.s.log| <= 1 && (a.s.log != [] ==> a.bits[0])
  }

  lemma MoveKeepsStuck(t: Stream, a: Attacked, move: Move)
    requires t.context.Valid() && t.context.encAlg.NullCipher? && t.policy.protection && t.policy.window <= 64
    requires Stuck(t, a) && Permitted(t, a, move)
    ensures Stuck(t, Play(t, a, move))
  {
    hide ParseRtcp, OpenRtcp, SrtcpHandler.MkiMatches, ProtectStep, IsPadded, ReKeyDue;
    assert Delta(0, 0) == 0;
  }

  /** With the null cipher nothing put in helps a second packet through: at most one of every run is handed on. */
  lemma {:induction false} NullCipherTakesOnePacketUnder(t: Stream, moves: seq<Move>)
    requires t.context.Valid() && t.context.encAlg.NullCipher? && t.policy.protection && t.policy.window <= 64
    ensures |RunUnder(t, moves).s.log| <= 1 && Stuck(t, RunUnder(t, moves))
    decreases |moves|
  {
    hide Permitted, Play;
    if moves != [] {
      var a, move := RunUnder(t, moves[..|moves| - 1]), moves[|moves| - 1];
      NullCipherTakesOnePacketUnder(t, moves[..|moves| - 1]);
      if Permitted(t, a, move) {
        MoveKeepsStuck(t, a, move);
      }
    }
  }
}
