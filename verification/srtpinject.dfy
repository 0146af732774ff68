/**
 The runs of SrtpProtocol with a network that also puts in packets of its own: altered, cut or
 invented octets, anything the receiver does not accept.  Such a packet leaves the accepted indices
 alone, but one that passes the replay check and fails authentication has already shifted the bit
 map.  So the runs keep the map, as the handler object does, and the set of accepted indices is the
 history it is compared with.
 */
module SrtpInjection {
  import opened Machine
  import opened Octets
  import opened Outcomes
  import opened InitVector
  import opened Rollover
  import opened ReplayWindow
  import opened SrtpPacket
  import opened SrtpHandler
  import opened SrtpProtocol

  datatype Attacked = Attacked(s: System, bits: Word64) {
    function Guard(): Guarded { Guarded(s.receiver, bits) }

    /** The system whose receiver remembers what the map says. */
    function ByMap(): System { s.(receiver := Remembered(Guard())) }
  }

  datatype Move = Regular(step: Step) | Inject(wire: Bytes)

  const UNTOUCHED := Attacked(INITIAL, ZERO)

  /** Any octets may be put in, as long as they are not accepted: the tag keeps invented packets out. */
  predicate Permitted(t: Stream, a: Attacked, move: Move)
    requires t.context.Valid()
  {
    match move
    case Regular(step) => Allowed(t, a.s, step)
    case Inject(wire) => InRange(a.s.receiver) && OutcomeByMap(t.context, t.policy, a.Guard(), wire).Leave?
  }

  function Play(t: Stream, a: Attacked, move: Move): Attacked
    requires t.context.Valid() && t.policy.window <= 64 && Permitted(t, a, move)
  {
    match move
    case Regular(Send(_)) => a.(s := Apply(t, a.s, move.step))
    case Regular(Deliver(position)) => Received(t, a, position)
    case Inject(wire) =>
      var g := StepByMap(t.context, t.policy, a.Guard(), wire);
      Attacked(a.s.(receiver := g.receiver), g.bits)
  }

  function Received(t: Stream, a: Attacked, position: nat): Attacked
    requires t.context.Valid() && t.policy.window <= 64 && Allowed(t, a.s, Deliver(position))
  {
    var wire := a.s.sent[position].wire;
    var r, g := OutcomeByMap(t.context, t.policy, a.Guard(), wire), StepByMap(t.context, t.policy, a.Guard(), wire);
    var log := if r.Leave? then [] else [Delivery(position, IndexFor(a.s.receiver, SequenceNumber(wire)), r.value)];
    Attacked(a.s.(receiver := g.receiver, log := a.s.log + log), g.bits)
  }

  /** Any sequence of moves; a move that is not permitted does nothing. */
  function RunUnder(t: Stream, moves: seq<Move>): Attacked
    requires t.context.Valid() && t.policy.window <= 64
    decreases |moves|
  {
    if moves == [] then UNTOUCHED
    else
      var a := RunUnder(t, moves[..|moves| - 1]);
      if Permitted(t, a, moves[|moves| - 1]) then Play(t, a, moves[|moves| - 1]) else a
  }

  lemma OneMoveMore(t: Stream, moves: seq<Move>, move: Move)
    requires t.context.Valid() && t.policy.window <= 64
    ensures var a := RunUnder(t, moves);
            RunUnder(t, moves + [move]) == if Permitted(t, a, move) then Play(t, a, move) else a
  {
    hide Permitted, Play;
    assert (moves + [move])[..|moves|] == moves;
  }

  // ----- What every run keeps, whatever is put in -----

  ghost predicate Safe(t: Stream, a: Attacked)
    requires t.context.Valid()
  {
    SenderInv(t, a.s) && LogInv(t, a.s) && History(a.s)
  }

  /** A delivery, in terms of the position and the map. */
  lemma DeliverByMap(t: Stream, a: Attacked, position: nat)
    requires t.context.Valid() && t.policy.window <= 64 && Safe(t, a) && Allowed(t, a.s, Deliver(position))
    ensures var index, delta := t.first + position, t.first + position - a.s.receiver.highest;
            var after := Received(t, a, position);
            && after.s.sender == a.s.sender && after.s.sent == a.s.sent
            && if a.s.receiver.reKey || t.context.mki == KMKINULL
                  || (t.policy.protection && !Passes(a.bits, t.policy.window, delta))
               then after.s.log == a.s.log && after.bits == a.bits
                    && after.s.receiver == a.s.receiver.(reKey := after.s.receiver.reKey)
               else
                 && after.s.log == a.s.log + [Delivery(position, index, a.s.sent[position].plain)]
                 && after.s.receiver == AcceptedAt(a.s.receiver.(reKey := after.s.receiver.reKey), index)
                 && (t.policy.protection ==>
                       -64 < delta && after.bits == Committed(Checked(a.bits, t.policy.window, delta), delta))
  {
    hide Parse, Open, Outcome, StepByMap, Protect, HeaderLength, Nearest, InReach, Passes, Checked, Committed, Denoted,
      ReKeyDue, LogInv;
    DeliverOutcome(t, a.ByMap(), position);
    DeliveryIsNotDropped(t, a.ByMap(), position);
    StepCases(t.context, t.policy, a.Guard(), a.s.sent[position].wire);
    if t.policy.protection {
      PassesIsFresh(t.policy, a.Guard(), t.first + position);
    }
  }

  /** The packet is checked against the map, and so shifts it. */
  predicate Checks(t: Stream, a: Attacked, wire: Bytes)
    requires t.context.Valid()
  {
    && t.policy.protection && Parse(t.context, wire).Ok?
    && Admit(t.context, t.policy, Remembered(a.Guard()), SequenceNumber(wire), Parse(t.context, wire).value).Ok?
  }

  /** How far ahead of the highest accepted index the receiver takes a packet to be. */
  function Ahead(a: Attacked, wire: Bytes): int
    requires |wire| >= 12
  {
    IndexFor(a.s.receiver, SequenceNumber(wire)) - a.s.receiver.highest
  }

  /** A packet that was put in can raise the re-keying flag and shift the map, and nothing else. */
  lemma InjectEffect(t: Stream, a: Attacked, wire: Bytes)
    requires t.context.Valid() && t.policy.window <= 64 && Permitted(t, a, Inject(wire))
    ensures var after := Play(t, a, Inject(wire));
            && after.s == a.s.(receiver := a.s.receiver.(reKey := after.s.receiver.reKey))
            && after.bits == if Checks(t, a, wire) then Checked(a.bits, t.policy.window, Ahead(a, wire)) else a.bits
  {
    hide Parse, Admit, Open, OutcomeByMap, StepByMap, IndexFor, Checked, Denoted;
    StepCases(t.context, t.policy, a.Guard(), wire);
  }

  lemma PlayKeepsSafe(t: Stream, a: Attacked, move: Move)
    requires t.context.Valid() && t.policy.window <= 64 && Safe(t, a) && Permitted(t, a, move)
    ensures Safe(t, Play(t, a, move))
  {
    hide Allowed, Received, OutcomeByMap, StepByMap, SenderInv, LogInv, History, Passes, Checked, Committed, Checks, ProtectStep,
      AcceptedAt;
    match move {
      case Regular(Send(plain)) =>
        SendKeepsSender(t, a.s, plain);
        SendLeavesReceiver(t, a.s, plain);
      case Regular(Deliver(position)) =>
        DeliverByMap(t, a, position);
        assert position < |a.s.sent| by { PositionSent(t, a.s, position); }
        SameSender(t, a.s, Received(t, a, position).s);
        TakingKeepsLog(t, a.s, Received(t, a, position).s, position);
      case Inject(wire) =>
        InjectEffect(t, a, wire);
        var after := Play(t, a, move).s;
        SameSender(t, a.s, after);
        SameLog(t, a.s, after);
    }
  }

  lemma PositionSent(t: Stream, s: System, position: nat)
    requires t.context.Valid() && Allowed(t, s, Deliver(position))
    ensures position < |s.sent|
  {
  }

  lemma SendLeavesReceiver(t: Stream, s: System, plain: Bytes)
    requires t.context.Valid() && LogInv(t, s) && History(s) && Allowed(t, s, Send(plain))
    ensures LogInv(t, Apply(t, s, Send(plain))) && History(Apply(t, s, Send(plain)))
  {
    hide ProtectStep, LogInv;
    SendingKeepsLog(t, s, Apply(t, s, Send(plain)));
  }

  lemma SameSender(t: Stream, s: System, s': System)
    requires t.context.Valid() && SenderInv(t, s) && s'.sender == s.sender && s'.sent == s.sent
    ensures SenderInv(t, s')
  {
  }

  lemma SameLog(t: Stream, s: System, s': System)
    requires LogInv(t, s) && History(s) && s'.sent == s.sent && s'.log == s.log
    requires s'.receiver == s.receiver.(reKey := s'.receiver.reKey)
    ensures LogInv(t, s') && History(s')
  {
  }

  lemma UntouchedSafe(t: Stream)
    requires t.context.Valid()
    ensures Safe(t, UNTOUCHED)
  {
  }

  lemma {:induction false} RunKeepsSafe(t: Stream, moves: seq<Move>)
    requires t.context.Valid() && t.policy.window <= 64
    ensures Safe(t, RunUnder(t, moves))
    decreases |moves|
  {
    hide Safe, Permitted, Play;
    UntouchedSafe(t);
    if moves != [] {
      var a, move := RunUnder(t, moves[..|moves| - 1]), moves[|moves| - 1];
      RunKeepsSafe(t, moves[..|moves| - 1]);
      if Permitted(t, a, move) {
        PlayKeepsSafe(t, a, move);
      }
    }
  }

  // ----- What is handed on -----

  /** Whatever is put in, every packet handed on is the one the sender protected at that position,
      under the sender's index, and the highest index is the largest accepted. */
  lemma OnlyWhatWasSent(t: Stream, moves: seq<Move>)
    requires t.context.Valid() && t.policy.window <= 64
    ensures var s := RunUnder(t, moves).s;
            && (forall d | d in s.log ::
                  && d.position < |s.sent| && d.index == t.first + d.position && d.plain == s.sent[d.position].plain
                  && d.index <= s.receiver.highest)
            && (s.log != [] ==> exists d :: d in s.log && d.index == s.receiver.highest)
  {
    hide SenderInv, RunUnder;
    RunKeepsSafe(t, moves);
  }

  /** With or without put-in packets, a delivered packet is handed on exactly if re-keying is not due,
      the MKI can be recognised and, with replay protection, it is ahead of everything taken or its
      bit in the window is clear. */
  lemma AcceptedExactlyByMap(t: Stream, moves: seq<Move>, position: nat)
    requires t.context.Valid() && t.policy.window <= 64 && Allowed(t, RunUnder(t, moves).s, Deliver(position))
    ensures var a := RunUnder(t, moves);
            var behind := a.s.receiver.highest - (t.first + position);
            Received(t, a, position).s.log != a.s.log <==>
            && !a.s.receiver.reKey && t.context.mki != KMKINULL
            && (t.policy.protection ==> behind < 0 || (behind < t.policy.window && !a.bits[behind]))
  {
    hide RunUnder, Received, Allowed, Safe, Checked, Committed, AcceptedAt;
    RunKeepsSafe(t, moves);
    DeliverByMap(t, RunUnder(t, moves), position);
  }

  // ----- The runs without packets put in -----

  function Regulars(steps: seq<Step>): (moves: seq<Move>)
    ensures |moves| == |steps| && forall i | 0 <= i < |steps| :: moves[i] == Regular(steps[i])
  {
    seq(|steps|, i requires 0 <= i < |steps| => Regular(steps[i]))
  }

  /** The map is the set of accepted indices. */
  ghost predicate MapIsHistory(t: Stream, a: Attacked)
    requires t.policy.window <= 64
  {
    t.policy.protection ==> Represents(a.bits, t.policy.window, a.s.receiver.highest, a.s.receiver.seen)
  }

  lemma RegularMove(t: Stream, a: Attacked, step: Step)
    requires t.context.Valid() && t.policy.window <= 64 && Inv(t, a.s) && MapIsHistory(t, a) && Allowed(t, a.s, step)
    ensures var b := Play(t, a, Regular(step)); b.s == Apply(t, a.s, step) && MapIsHistory(t, b)
  {
    hide OutcomeByMap, StepByMap, Outcome, UnprotectStep, SenderInv, LogInv, Represents, DroppedAfterCheck, ProtectStep, InReach,
      IndexFor;
    match step {
      case Send(_) =>
      case Deliver(position) =>
        DeliveryIsNotDropped(t, a.s, position);
        MapRemembers(t.context, t.policy, a.Guard(), a.s.sent[position].wire);
    }
  }

  /** Without packets put in, the receiver with the map does what the remembering receiver of SrtpProtocol.Run
      does, and the map is the set of accepted indices all along. */
  lemma {:induction false} RegularRun(t: Stream, steps: seq<Step>)
    requires t.context.Valid() && t.policy.window <= 64
    ensures var a := RunUnder(t, Regulars(steps)); a.s == Run(t, steps) && MapIsHistory(t, a)
    decreases |steps|
  {
    hide MapIsHistory, Permitted, Play, Apply, Allowed, Inv;
    StartIsHistory(t);
    if steps != [] {
      var before, step := steps[..|steps| - 1], steps[|steps| - 1];
      RegularRun(t, before);
      assert Regulars(steps) == Regulars(before) + [Regular(step)];
      OneMoveMore(t, Regulars(before), Regular(step));
      StepIsMove(t, RunUnder(t, Regulars(before)), step);
      RunKeepsInv(t, before);
      if Allowed(t, Run(t, before), step) {
        RegularMove(t, RunUnder(t, Regulars(before)), step);
      }
    }
  }

  lemma StartIsHistory(t: Stream)
    requires t.policy.window <= 64
    ensures MapIsHistory(t, UNTOUCHED)
  {
  }

  lemma StepIsMove(t: Stream, a: Attacked, step: Step)
    requires t.context.Valid()
    ensures Permitted(t, a, Regular(step)) <==> Allowed(t, a.s, step)
  {
  }

  // ----- When nothing is handed on twice -----

  /** No accepted index within the window is missing from the map. */
  ghost predicate Guarding(t: Stream, a: Attacked)
    requires t.policy.window <= 64
  {
    Covers(a.bits, t.policy.window, a.s.receiver.highest, a.s.receiver.seen)
  }

  /** The position was handed on before, and would be handed on again. */
  ghost predicate Replayable(t: Stream, a: Attacked, position: nat)
    requires t.context.Valid() && t.policy.window <= 64
  {
    Taken(a.s, position) && Allowed(t, a.s, Deliver(position)) && Received(t, a, position).s.log != a.s.log
  }

  /** At the end of any run, some packet can be handed on a second time exactly if the map lacks an
      accepted index of the window, unless the receiver refuses everything anyway. */
  lemma ReplayPossible(t: Stream, moves: seq<Move>)
    requires t.context.Valid() && t.policy.window <= 64 && t.policy.protection
    ensures var a := RunUnder(t, moves);
            (exists position :: Replayable(t, a, position)) <==>
            !a.s.receiver.reKey && t.context.mki != KMKINULL && !Guarding(t, a)
  {
    hide RunUnder, Replayable, Guarding;
    var a := RunUnder(t, moves);
    if position :| Replayable(t, a, position) {
      ReplayLacksBit(t, moves, position);
    }
    if !a.s.receiver.reKey && t.context.mki != KMKINULL && !Guarding(t, a) {
      var k := LackingBit(t, a);
      var position := LackingBitReplays(t, moves, k);
    }
  }

  lemma LackingBit(t: Stream, a: Attacked) returns (k: nat)
    requires t.policy.window <= 64 && !Guarding(t, a)
    ensures k < t.policy.window && a.s.receiver.highest - k in a.s.receiver.seen && !a.bits[k]
  {
    var j :| 0 <= j < t.policy.window && a.s.receiver.highest - j in a.s.receiver.seen && !a.bits[j];
    k := j;
  }

  lemma ReplayLacksBit(t: Stream, moves: seq<Move>, position: nat)
    requires t.context.Valid() && t.policy.window <= 64 && t.policy.protection
    requires Replayable(t, RunUnder(t, moves), position)
    ensures var a := RunUnder(t, moves); !a.s.receiver.reKey && t.context.mki != KMKINULL && !Guarding(t, a)
  {
    hide RunUnder, Received, Allowed, SenderInv;
    var a := RunUnder(t, moves);
    RunKeepsSafe(t, moves);
    AcceptedExactlyByMap(t, moves, position);
    var d :| d in a.s.log && d.position == position;
    var behind := a.s.receiver.highest - (t.first + position);
    assert a.s.receiver.highest - behind in a.s.receiver.seen;
  }

  lemma LackingBitReplays(t: Stream, moves: seq<Move>, k: nat) returns (position: nat)
    requires t.context.Valid() && t.policy.window <= 64 && t.policy.protection
    requires var a := RunUnder(t, moves);
             && !a.s.receiver.reKey && t.context.mki != KMKINULL
             && k < t.policy.window && a.s.receiver.highest - k in a.s.receiver.seen && !a.bits[k]
    ensures t.first + position == RunUnder(t, moves).s.receiver.highest - k
    ensures Replayable(t, RunUnder(t, moves), position)
  {
    hide RunUnder, Received, Allowed, Safe;
    var a := RunUnder(t, moves);
    RunKeepsSafe(t, moves);
    position := TakenCanComeAgain(t, a, a.s.receiver.highest - k);
    AcceptedExactlyByMap(t, moves, position);
  }

  lemma TakenCanComeAgain(t: Stream, a: Attacked, index: int) returns (position: nat)
    requires t.context.Valid() && Safe(t, a) && index in a.s.receiver.seen && a.s.receiver.highest - index < 0x8000
    ensures t.first + position == index && Taken(a.s, position) && Allowed(t, a.s, Deliver(position))
  {
    hide ProtectStep, Protect;
    var top :| top in a.s.log && top.index == a.s.receiver.highest;
    var d :| d in a.s.log && d.index == index;
    position := d.position;
  }

  /** No taken index of the window is lost by the shift. */
  ghost predicate Harmless(t: Stream, a: Attacked, wire: Bytes)
    requires t.context.Valid()
  {
    Checks(t, a, wire) && Ahead(a, wire) > 0 ==>
      forall k | 0 < k < t.policy.window && k < 64 && a.s.receiver.highest - k in a.s.receiver.seen ::
        Kept(a.bits, Ahead(a, wire), k)
  }

  ghost predicate HarmlessMove(t: Stream, a: Attacked, move: Move)
    requires t.context.Valid()
  {
    move.Inject? && Permitted(t, a, move) ==> Harmless(t, a, move.wire)
  }

  /** Sending and receiving keep the map complete; a put-in packet does exactly if it is harmless. */
  lemma MoveKeepsGuard(t: Stream, a: Attacked, move: Move)
    requires t.context.Valid() && t.policy.window <= 64 && t.policy.protection
    requires Safe(t, a) && Guarding(t, a) && Permitted(t, a, move)
    ensures Guarding(t, Play(t, a, move)) <==> HarmlessMove(t, a, move)
  {
    hide Allowed, Received, OutcomeByMap, StepByMap, SenderInv, LogInv, Passes, Checked, Committed, Checks, ProtectStep, Covers,
      AcceptedAt, Ahead;
    match move {
      case Regular(Send(plain)) => SendLeavesReceiver(t, a.s, plain);
      case Regular(Deliver(position)) =>
        DeliverByMap(t, a, position);
        DeliverKeepsGuard(t, a, position);
      case Inject(wire) =>
        InjectEffect(t, a, wire);
        if Checks(t, a, wire) {
          ChecksHeader(t, a, wire);
          DropKeepsCover(a.bits, t.policy.window, a.s.receiver.highest, a.s.receiver.seen, Ahead(a, wire));
        }
    }
  }

  lemma ChecksHeader(t: Stream, a: Attacked, wire: Bytes)
    requires t.context.Valid() && Checks(t, a, wire)
    ensures |wire| >= 12
  {
  }

  lemma DeliverKeepsGuard(t: Stream, a: Attacked, position: nat)
    requires t.context.Valid() && t.policy.window <= 64 && t.policy.protection
    requires Safe(t, a) && Guarding(t, a) && Allowed(t, a.s, Deliver(position))
    ensures Guarding(t, Received(t, a, position))
  {
    hide Allowed, Received, SenderInv, LogInv, Passes, Checked, Committed, Covers;
    DeliverByMap(t, a, position);
    if Received(t, a, position).s.log != a.s.log {
      var index := t.first + position;
      CommitKeepsCover(a.bits, t.policy.window, a.s.receiver.highest, a.s.receiver.seen, index - a.s.receiver.highest);
      assert a.s.receiver.highest + (index - a.s.receiver.highest) == index;
    }
  }

  ghost predicate AlwaysGuarding(t: Stream, moves: seq<Move>)
    requires t.context.Valid() && t.policy.window <= 64
  {
    forall n | 0 <= n <= |moves| :: Guarding(t, RunUnder(t, moves[..n]))
  }

  ghost predicate AllHarmless(t: Stream, moves: seq<Move>)
    requires t.context.Valid() && t.policy.window <= 64
  {
    forall n | 0 <= n < |moves| :: HarmlessMove(t, RunUnder(t, moves[..n]), moves[n])
  }

  /** The map stays complete all along a run exactly if every packet put in was harmless when it came. */
  lemma {:induction false} GuardingExactlyWhenHarmless(t: Stream, moves: seq<Move>)
    requires t.context.Valid() && t.policy.window <= 64 && t.policy.protection
    ensures AlwaysGuarding(t, moves) <==> AllHarmless(t, moves)
    decreases |moves|
  {
    hide Guarding, HarmlessMove, Permitted, Play, Safe, AlwaysGuarding, AllHarmless;
    if moves == [] {
      EmptyRun(t);
    } else {
      var last := |moves| - 1;
      var a := RunUnder(t, moves[..last]);
      GuardingExactlyWhenHarmless(t, moves[..last]);
      OnePrefixMore(t, moves);
      RunKeepsSafe(t, moves[..last]);
      if AlwaysGuarding(t, moves[..last]) {
        EndGuarding(t, moves[..last]);
        if Permitted(t, a, moves[last]) {
          MoveKeepsGuard(t, a, moves[last]);
        } else {
          NotMade(t, a, moves[last]);
        }
      }
    }
  }

  lemma EmptyRun(t: Stream)
    requires t.context.Valid() && t.policy.window <= 64
    ensures AlwaysGuarding(t, []) && AllHarmless(t, [])
  {
    UntouchedGuarding(t);
  }

  lemma UntouchedGuarding(t: Stream)
    requires t.policy.window <= 64
    ensures Guarding(t, UNTOUCHED)
  {
  }

  lemma NotMade(t: Stream, a: Attacked, move: Move)
    requires t.context.Valid() && !Permitted(t, a, move)
    ensures HarmlessMove(t, a, move)
  {
  }

  lemma EndGuarding(t: Stream, moves: seq<Move>)
    requires t.context.Valid() && t.policy.window <= 64 && AlwaysGuarding(t, moves)
    ensures Guarding(t, RunUnder(t, moves))
  {
    hide Guarding, RunUnder;
    assert moves[..|moves|] == moves;
  }

  lemma OnePrefixMore(t: Stream, moves: seq<Move>)
    requires t.context.Valid() && t.policy.window <= 64 && moves != []
    ensures var before := moves[..|moves| - 1];
            && (AlwaysGuarding(t, moves) <==> AlwaysGuarding(t, before) && Guarding(t, RunUnder(t, moves)))
            && (AllHarmless(t, moves) <==> AllHarmless(t, before) && HarmlessMove(t, RunUnder(t, before), moves[|before|]))
  {
    hide Guarding, HarmlessMove, RunUnder;
    var before := moves[..|moves| - 1];
    assert moves[..|moves|] == moves;
    assert forall n | 0 <= n <= |before| :: moves[..n] == before[..n];
  }

  /** A run in which every packet put in was harmless hands no position on twice. */
  lemma {:induction false} NothingTwiceWhileHarmless(t: Stream, moves: seq<Move>)
    requires t.context.Valid() && t.policy.window <= 64 && t.policy.protection && AllHarmless(t, moves)
    ensures Distinct(RunUnder(t, moves).s.log)
    decreases |moves|
  {
    hide Guarding, HarmlessMove, Permitted, Play, Safe, AlwaysGuarding, AllHarmless, Distinct;
    if moves == [] {
      NothingTaken(t);
    } else {
      var before := moves[..|moves| - 1];
      var a, move := RunUnder(t, before), moves[|moves| - 1];
      OnePrefixMore(t, moves);
      NothingTwiceWhileHarmless(t, before);
      GuardingExactlyWhenHarmless(t, before);
      EndGuarding(t, before);
      if Permitted(t, a, move) {
        MoveKeepsDistinct(t, before, move);
      }
    }
  }

  lemma NothingTaken(t: Stream)
    requires t.context.Valid() && t.policy.window <= 64
    ensures Distinct(RunUnder(t, []).s.log)
  {
  }

  ghost predicate Distinct(log: seq<Delivery>) {
    forall i, j | 0 <= i < j < |log| :: log[i].position != log[j].position
  }

  lemma MoveKeepsDistinct(t: Stream, moves: seq<Move>, move: Move)
    requires t.context.Valid() && t.policy.window <= 64 && t.policy.protection
    requires var a := RunUnder(t, moves); Guarding(t, a) && Distinct(a.s.log) && Permitted(t, a, move)
    ensures Distinct(Play(t, RunUnder(t, moves), move).s.log)
  {
    hide RunUnder, Allowed, Received, OutcomeByMap, StepByMap, SenderInv, Passes, Checked, Committed, Checks, ProtectStep,
      AcceptedAt, Ahead, Guarding, Safe;
    var a := RunUnder(t, moves);
    RunKeepsSafe(t, moves);
    if move.Regular? && move.step.Deliver? {
      var position := move.step.position;
      DeliverByMap(t, a, position);
      if Received(t, a, position).s.log != a.s.log {
        if Taken(a.s, position) {
          ReplayLacksBit(t, moves, position);
        }
        assert forall i | 0 <= i < |a.s.log| :: a.s.log[i] in a.s.log;
      }
    }
  }

  // ----- How a replay comes about -----

  /** The packet with its last octet changed. */
  function Altered(wire: Bytes): (altered: Bytes)
    requires wire != []
    ensures |altered| == |wire|
  {
    wire[..|wire| - 1] + [(wire[|wire| - 1] as int + 1) % 0x100]
  }

  lemma AlteredSlices(wire: Bytes, i: nat, j: nat)
    requires i <= j < |wire|
    ensures Altered(wire)[i..j] == wire[i..j] && Altered(wire)[j..] != wire[j..]
  {
    assert Altered(wire)[j..][|wire| - 1 - j] != wire[j..][|wire| - 1 - j];
  }

  /** A protected packet with a tag, altered in its last octet: the header and the portion are read
      as before, and authentication fails. */
  lemma AlteredIsNotAuthentic(c: Context, roc: u32, plain: Bytes)
    requires c.Valid() && c.authAlg.HmacSha1? && c.mki != KMKINULL && roc < 0x8000 && Protect(c, roc, plain).Ok?
    ensures var wire := Protect(c, roc, plain).value;
            && |wire| > |plain| >= 12 && SequenceNumber(Altered(wire)) == SequenceNumber(plain)
            && Parse(c, Altered(wire)).Ok? && MkiMatches(c, Parse(c, Altered(wire)).value)
            && Open(c, roc as int * 0x1_0000 + SequenceNumber(plain), Altered(wire), Parse(c, Altered(wire)).value)
               == Leave(NotFound)
  {
    hide Tag, Transform, HeaderLength, Parse, SenderIndex, Decrypt, Protect, ProtectedText;
    TextOfProtected(c, roc, plain);
    ParseOfProtected(c, roc, plain);
    ParseOfAltered(c, roc, plain);
    var h, text, bad := HeaderLength(plain).value, ProtectedText(c, roc, plain), Altered(Protect(c, roc, plain).value);
    var p := Parse(c, bad).value;
    assert bad[..p.header + p.payload] == plain[..h] + text;
    assert (roc as int * 0x1_0000 + SequenceNumber(plain)) / 0x1_0000 == roc;
  }

  /** A protected packet altered in any way in front of its MKI, its tag kept, and given its sender's counter: if it
      is still parsed, it is refused as not authentic exactly if the two HMACs differ in the octets of the tag. */
  lemma AlteredInFrontRefused(c: Context, roc: u32, plain: Bytes, bad: Bytes, index: nat)
    requires c.Valid() && c.authAlg.HmacSha1? && roc < 0x8000 && Protect(c, roc, plain).Ok? && index / 0x1_0000 == roc
    requires var wire := Protect(c, roc, plain).value;
             |bad| == |wire| && bad[|wire| - c.TagOctets() - |c.mki|..] == wire[|wire| - c.TagOctets() - |c.mki|..]
    requires Parse(c, bad).Ok?
    ensures RocOctets(roc).Some?
    ensures var wire, t, octets := Protect(c, roc, plain).value, c.TagOctets(), RocOctets(roc).value;
            Open(c, index, bad, Parse(c, bad).value) == Leave(NotFound) <==>
            c.hmac(c.authKey, bad[..Covered(c, bad)] + octets)[..t] != c.hmac(c.authKey, wire[..|plain|] + octets)[..t]
  {
    hide HeaderLength, Parse, Tag, Protect, RocOctets, Authenticate, Covered;
    AlteredInFront(c, roc, plain, bad);
    DecryptFinds(c, index, bad, Parse(c, bad).value);
  }

  lemma DecryptFinds(c: Context, index: u64, wire: Bytes, p: Parsed)
    requires c.Valid() && p.header + p.payload <= |wire|
    ensures Decrypt(c, index, wire, p) != Leave(NotFound)
  {
  }

  /** Two packets with the same header and MKI differ for the parser in their tags only. */
  lemma ParseOfSameFront(c: Context, wire: Bytes, bad: Bytes)
    requires c.Valid() && c.authAlg.HmacSha1? && |bad| == |wire| && Parse(c, wire).Ok?
    requires HeaderLength(bad) == HeaderLength(wire)
    requires var k := |wire| - c.TagOctets(); |c.mki| <= k && bad[k - |c.mki|..k] == wire[k - |c.mki|..k]
    ensures var k := |wire| - c.TagOctets();
            && Parse(c, wire).value.tag == wire[k..]
            && Parse(c, bad) == Ok(Parse(c, wire).value.(tag := bad[k..]))
  {
    hide HeaderLength;
  }

  lemma ParseOfAltered(c: Context, roc: u32, plain: Bytes)
    requires c.Valid() && c.authAlg.HmacSha1? && Protect(c, roc, plain).Ok?
    ensures var wire := Protect(c, roc, plain).value;
            var p := Parse(c, wire);
            && p.Ok? && |wire| > |plain| == p.value.header + p.value.payload
            && Altered(wire)[..|plain|] == wire[..|plain|] && SequenceNumber(Altered(wire)) == SequenceNumber(plain)
            && var q := Parse(c, Altered(wire));
               q.Ok? && q.value == p.value.(tag := q.value.tag) && |q.value.tag| > 0 && q.value.tag != p.value.tag
  {
    hide Tag, Transform, HeaderLength, SenderIndex, Protect, ProtectedText, Parse, Altered, SequenceNumber;
    ParseOfProtected(c, roc, plain);
    ProtectedLength(c, roc, plain);
    var wire := Protect(c, roc, plain).value;
    var bad := Altered(wire);
    var h, k := HeaderLength(wire).value, |wire| - c.TagOctets();
    AlteredSlices(wire, 0, h);
    AlteredSlices(wire, 0, |plain|);
    AlteredSlices(wire, k - |c.mki|, k);
    assert wire[..h] == wire[0..h] && bad[..h] == bad[0..h];
    HeaderLengthStable(wire, bad);
    ParseOfSameFront(c, wire, bad);
  }

  lemma ProtectedLength(c: Context, roc: u32, plain: Bytes)
    requires c.Valid() && Protect(c, roc, plain).Ok?
    ensures |Protect(c, roc, plain).value| == |plain| + |c.mki| + c.TagOctets()
  {
    TransformTwice(c, SenderIndex(roc, SequenceNumber(plain)), plain[HeaderLength(plain).value..]);
  }

  /** The replay, in any run: a packet a window or more ahead of the highest accepted index arrives
      with its tag altered and is dropped; then any packet of the window already handed on, the
      highest one aside, is handed on a second time. */
  lemma AlteredPacketOpensReplay(t: Stream, moves: seq<Move>, ahead: nat, taken: nat)
    requires t.context.Valid() && t.policy.window <= 64 && t.policy.protection
    requires t.context.authAlg.HmacSha1? && t.context.mki != KMKINULL
    requires var a := RunUnder(t, moves);
             && !a.s.receiver.reKey && a.s.receiver.packets < t.policy.lifeTime
             && Allowed(t, a.s, Deliver(ahead)) && t.first + ahead >= a.s.receiver.highest + t.policy.window
             && Taken(a.s, taken) && 0 < a.s.receiver.highest - (t.first + taken) < t.policy.window
    ensures var a := RunUnder(t, moves);
            && a.s.sent[ahead].wire != []
            && var bad := Inject(Altered(a.s.sent[ahead].wire));
               var b := RunUnder(t, moves + [bad]);
               && Permitted(t, a, bad) && b.s.log == a.s.log && Replayable(t, b, taken)
  {
    hide RunUnder, Allowed, Received, Safe, Permitted, Play, Altered, Taken, Replayable;
    var a := RunUnder(t, moves);
    RunKeepsSafe(t, moves);
    AlteredIsChecked(t, a, ahead);
    PositionSent(t, a.s, ahead);
    var bad := Altered(a.s.sent[ahead].wire);
    OneMoveMore(t, moves, Inject(bad));
    AlteredClearsMap(t, a, ahead);
    TakenIsSeen(t, a, taken);
    var position := LackingBitReplays(t, moves + [Inject(bad)], a.s.receiver.highest - (t.first + taken));
  }

  lemma TakenIsSeen(t: Stream, a: Attacked, taken: nat)
    requires t.context.Valid() && Safe(t, a) && Taken(a.s, taken)
    ensures t.first + taken in a.s.receiver.seen
  {
    hide SenderInv, History;
  }

  lemma AlteredIsChecked(t: Stream, a: Attacked, ahead: nat)
    requires t.context.Valid() && t.policy.protection && Safe(t, a) && Allowed(t, a.s, Deliver(ahead))
    requires t.context.authAlg.HmacSha1? && t.context.mki != KMKINULL && !a.s.receiver.reKey
    requires t.first + ahead > a.s.receiver.highest
    ensures a.s.sent[ahead].wire != []
    ensures var bad := Altered(a.s.sent[ahead].wire);
            && Permitted(t, a, Inject(bad)) && Checks(t, a, bad) && Ahead(a, bad) == t.first + ahead - a.s.receiver.highest
  {
    hide Parse, Open, Protect, Nearest, InReach, MkiMatches, Denoted, LogInv;
    var index: nat := t.first + ahead;
    AlteredIsNotAuthentic(t.context, RocAt(t, ahead), a.s.sent[ahead].plain);
    assert index == index / 0x1_0000 * 0x1_0000 + index % 0x1_0000;
    if a.s.receiver.started {
      NearestIsUnique(a.s.receiver.highest, index % 0x1_0000, index);
    }
  }

  /** Counting the dropped packet does not bring re-keying, and the check has emptied the map. */
  lemma AlteredClearsMap(t: Stream, a: Attacked, ahead: nat)
    requires t.context.Valid() && t.policy.protection && 1 < t.policy.window <= 64
    requires Safe(t, a) && Allowed(t, a.s, Deliver(ahead))
    requires t.context.authAlg.HmacSha1? && t.context.mki != KMKINULL && !a.s.receiver.reKey
    requires a.s.receiver.packets < t.policy.lifeTime && t.first + ahead >= a.s.receiver.highest + t.policy.window
    ensures a.s.sent[ahead].wire != []
    ensures var bad := Inject(Altered(a.s.sent[ahead].wire));
            Permitted(t, a, bad) && Play(t, a, bad) == Attacked(a.s, ONE)
  {
    hide Parse, Admit, Open, OutcomeByMap, IndexFor, Denoted, Safe;
    AlteredIsChecked(t, a, ahead);
    InjectEffect(t, a, Altered(a.s.sent[ahead].wire));
  }

  /** Bare packets sent one after the other, from a position on. */
  function Sends(t: Stream, from: nat, n: nat): seq<Step> {
    if n == 0 then [] else Sends(t, from, n - 1) + [Send(Bare(t, from + n - 1))]
  }

  lemma {:induction false} SendsRun(t: Stream, steps: seq<Step>, n: nat)
    requires t.context.Valid() && t.policy.lifeTime > 0
    requires var s := Run(t, steps); |s.sent| + n <= t.policy.lifeTime + 1 && t.first + |s.sent| + n < 0x7FFF_8000
    ensures var s := Run(t, steps); var after := Run(t, steps + Sends(t, |s.sent|, n));
            |after.sent| == |s.sent| + n && after.log == s.log && after.receiver == s.receiver
    decreases n
  {
    hide Run, Allowed, Apply, Bare;
    var from := |Run(t, steps).sent|;
    if n == 0 {
      assert steps + Sends(t, from, 0) == steps;
    } else {
      var before := steps + Sends(t, from, n - 1);
      SendsRun(t, steps, n - 1);
      PromptSend(t, before);
      OneStepMore(t, before, Send(Bare(t, from + n - 1)));
      assert steps + Sends(t, from, n) == before + [Send(Bare(t, from + n - 1))];
    }
  }

  /** The run up to the replay: two packets sent and taken, then as many sent as the window has indices. */
  function TwoTaken(t: Stream): seq<Step>
    requires t.policy.window >= 0
  {
    Promptly(t, 2) + Sends(t, 2, t.policy.window)
  }

  lemma TwoTakenRun(t: Stream)
    requires t.context.Valid() && t.context.mki != KMKINULL
    requires t.policy.protection && 1 < t.policy.window <= 64 && t.policy.lifeTime > t.policy.window
    ensures var s := Run(t, TwoTaken(t));
            && |s.sent| == 2 + t.policy.window && |s.log| == s.receiver.packets == 2 && Taken(s, 0)
            && !s.receiver.reKey && s.receiver.started && s.receiver.highest == t.first + 1
  {
    hide Run, Bare, Allowed, SenderInv;
    PromptRun(t, 2);
    DeliveredExactlyWhatWasSent(t, Promptly(t, 2));
    RunKeepsInv(t, Promptly(t, 2));
    var s := Run(t, Promptly(t, 2));
    assert s.log[0] in s.log && s.log[1] in s.log;
    assert Taken(s, 0);
    SendsRun(t, Promptly(t, 2), t.policy.window);
  }

  /** A replay, step by step: packets 0 and 1 are taken, an altered packet a window ahead is dropped, and packet
      0 is handed on again. */
  lemma ReplayRun(t: Stream)
    requires t.context.Valid() && t.context.authAlg.HmacSha1? && t.context.mki != KMKINULL
    requires t.policy.protection && 1 < t.policy.window <= 64 && t.policy.lifeTime > t.policy.window
    ensures var sent := Run(t, TwoTaken(t)).sent;
            && |sent| == 2 + t.policy.window && sent[1 + t.policy.window].wire != []
            && var altered := Inject(Altered(sent[1 + t.policy.window].wire));
               var a := RunUnder(t, Regulars(TwoTaken(t)) + [altered] + [Regular(Deliver(0))]);
               |a.s.log| == 3 && a.s.log[2].position == 0 && !Distinct(a.s.log)
  {
    hide RunUnder, Run, Received, TwoTaken, Altered, Distinct;
    var steps, ahead := TwoTaken(t), 1 + t.policy.window;
    TwoTakenRun(t);
    RegularRun(t, steps);
    AlteredPacketOpensReplay(t, Regulars(steps), ahead, 0);
    var altered := Inject(Altered(Run(t, steps).sent[ahead].wire));
    var b := RunUnder(t, Regulars(steps) + [altered]);
    OneMoveMore(t, Regulars(steps) + [altered], Regular(Deliver(0)));
    AppendsPosition(t, b, 0);
  }

  lemma AppendsPosition(t: Stream, a: Attacked, position: nat)
    requires t.context.Valid() && t.policy.window <= 64 && Replayable(t, a, position)
    ensures Permitted(t, a, Regular(Deliver(position)))
    ensures var after := Play(t, a, Regular(Deliver(position))).s;
            |after.log| == |a.s.log| + 1 && after.log[|a.s.log|].position == position && !Distinct(after.log)
  {
    hide OutcomeByMap, StepByMap, IndexFor, InReach;
    var d :| d in a.s.log && d.position == position;
    var i :| 0 <= i < |a.s.log| && a.s.log[i] == d;
    var after := Play(t, a, Regular(Deliver(position))).s.log;
    assert after[i].position == after[|a.s.log|].position;
  }
}
