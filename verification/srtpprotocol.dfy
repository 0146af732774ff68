/**
 Sender, network and receiver together.  The network loses, duplicates and reorders: any
 packet ever sent may be delivered at any time, any number of times.  What is required of
 it is only what the index estimation needs (section 3.3.1 of RFC 3711): each delivered
 index is in reach of the receiver's highest one.
 */
module SrtpProtocol {
  import opened Machine
  import opened Octets
  import opened Outcomes
  import opened CounterMode
  import opened InitVector
  import opened Rollover
  import opened SrtpPacket
  import opened SrtpHandler

  /** A protected packet opens, with the index 2^16 * ROC + SEQ, to the packet it was made from. */
  lemma OpenProtected(c: Context, roc: u32, plain: Bytes)
    requires c.Valid() && Protect(c, roc, plain).Ok? && roc < 0x8000
    ensures var wire := Protect(c, roc, plain).value;
            && SequenceNumber(wire) == SequenceNumber(plain)
            && Parse(c, wire).Ok?
            && (MkiMatches(c, Parse(c, wire).value) <==> c.mki != KMKINULL)
            && Open(c, roc as int * 0x1_0000 + SequenceNumber(plain), wire, Parse(c, wire).value) == Ok(plain)
  {
    hide Tag, Transform, HeaderLength, Authenticate, Decrypt, Parse, Protect, ProtectedText, SenderIndex;
    TextOfProtected(c, roc, plain);
    var sn, h := SequenceNumber(plain), HeaderLength(plain).value;
    var n := roc as int * 0x1_0000 + sn;
    var wire := Protect(c, roc, plain).value;
    ParseOfProtected(c, roc, plain);
    var p := Parse(c, wire).value;
    AuthenticProtected(c, roc, wire, p);
    DecryptProtected(c, n, plain[h..], wire, p);
    assert n / 0x1_0000 == roc == ToS32(roc);
    assert wire[..h] == plain[..h] by {
      assert wire[..|plain|][..h] == wire[..h];
    }
    assert plain[..h] + plain[h..] == plain;
  }

  /** What went into a protected packet. */
  lemma TextOfProtected(c: Context, roc: u32, plain: Bytes)
    requires c.Valid() && Protect(c, roc, plain).Ok? && roc < 0x8000
    ensures |plain| >= 12 && HeaderLength(plain).Ok?
    ensures var h, text := HeaderLength(plain).value, ProtectedText(c, roc, plain);
            && Transform(c, roc as int * 0x1_0000 + SequenceNumber(plain), plain[h..]) == Ok(text)
            && Tag(c, plain[..h] + text, roc).Ok?
  {
    hide Tag, Transform, HeaderLength, SenderIndex;
    SenderIndexExact(roc, SequenceNumber(plain));
  }

  // ----- Runs -----

  datatype Sent = Sent(plain: Bytes, wire: Bytes)

  /** The receiver took the packet at this position of the sender's stream, gave it this index
      and handed this plain packet on. */
  datatype Delivery = Delivery(position: nat, index: int, plain: Bytes)

  datatype System = System(sender: Sender, sent: seq<Sent>, receiver: Receiver, log: seq<Delivery>)

  datatype Step = Send(plain: Bytes) | Deliver(position: nat)

  /** One SRTP stream: its context, the receiver's policy, and its first sequence number. */
  datatype Stream = Stream(context: Context, policy: Policy, first: u16)

  const INITIAL := System(Sender(0, 0, false), [], LISTENING, [])

  /** Sequence numbers are automatic, and the stream ends before index 2^31 - 2^15, where the
      receiver's signed product would overflow.  The first packet to arrive must still be of
      roll-over counter 0. */
  predicate Allowed(t: Stream, s: System, step: Step)
    requires t.context.Valid()
  {
    match step
    case Send(plain) =>
      && t.first + |s.sent| < 0x7FFF_8000
      && |plain| >= 12 && SequenceNumber(plain) == SequenceAt(t, |s.sent|)
      && ProtectStep(t.context, t.policy.lifeTime, s.sender, plain).1.Ok?
    case Deliver(position) =>
      && position < |s.sent| && InRange(s.receiver)
      && var index := t.first + position;
         if s.receiver.started then InReach(s.receiver.highest, index) else index < 0x1_0000
  }

  function Apply(t: Stream, s: System, step: Step): System
    requires t.context.Valid() && Allowed(t, s, step)
  {
    match step
    case Send(plain) =>
      var (sender, r) := ProtectStep(t.context, t.policy.lifeTime, s.sender, plain);
      s.(sender := sender, sent := s.sent + [Sent(plain, r.value)])
    case Deliver(position) =>
      var wire := s.sent[position].wire;
      var r := Outcome(t.context, t.policy, s.receiver, wire);
      var receiver := UnprotectStep(t.context, t.policy, s.receiver, wire);
      if r.Leave? then s.(receiver := receiver)
      else s.(receiver := receiver, log := s.log + [Delivery(position, IndexFor(s.receiver, SequenceNumber(wire)), r.value)])
  }

  /** Any sequence of steps; a step that is not allowed does nothing. */
  function Run(t: Stream, steps: seq<Step>): System
    requires t.context.Valid()
    decreases |steps|
  {
    if steps == [] then INITIAL
    else
      var s := Run(t, steps[..|steps| - 1]);
      if Allowed(t, s, steps[|steps| - 1]) then Apply(t, s, steps[|steps| - 1]) else s
  }

  // ----- What every run keeps -----

  /** The roll-over counter and sequence number of the packet at a position of the stream. */
  function RocAt(t: Stream, position: nat): u32 { ToU32((t.first + position) / 0x1_0000) }

  function SequenceAt(t: Stream, position: nat): u16 { (t.first + position) % 0x1_0000 }

  ghost predicate SenderInv(t: Stream, s: System)
    requires t.context.Valid()
  {
    && t.first + |s.sent| <= 0x7FFF_8000
    && s.sender.roc == RocAt(t, |s.sent|)
    && s.sender.packets == |s.sent|
    && (forall k | 0 <= k < |s.sent| ::
          && |s.sent[k].plain| >= 12
          && SequenceNumber(s.sent[k].plain) == SequenceAt(t, k)
          && Protect(t.context, RocAt(t, k), s.sent[k].plain) == Ok(s.sent[k].wire))
  }

  ghost predicate LogInv(t: Stream, s: System) {
    && (forall d | d in s.log :: d.position < |s.sent| && d.index == t.first + d.position && d.plain == s.sent[d.position].plain)
    && (forall i | i in s.receiver.seen :: exists d :: d in s.log && d.index == i)
    && (forall d | d in s.log :: d.index in s.receiver.seen)
    && s.receiver.packets == |s.log|
  }

  /** The highest index is the maximum of those taken. */
  ghost predicate History(s: System) {
    && (s.receiver.started <==> s.log != [])
    && (!s.receiver.started ==> s.receiver.highest == 0 && s.receiver.seen == {})
    && (s.receiver.started ==> s.receiver.highest in s.receiver.seen)
    && (forall i | i in s.receiver.seen :: i <= s.receiver.highest)
  }

  ghost predicate ReceiverInv(t: Stream, s: System) {
    && History(s)
    && (t.policy.protection ==> forall i, j | 0 <= i < j < |s.log| :: s.log[i].position != s.log[j].position)
  }

  ghost predicate Inv(t: Stream, s: System)
    requires t.context.Valid()
  {
    SenderInv(t, s) && LogInv(t, s) && ReceiverInv(t, s)
  }

  lemma SendKeepsSender(t: Stream, s: System, plain: Bytes)
    requires t.context.Valid() && SenderInv(t, s) && Allowed(t, s, Send(plain))
    ensures SenderInv(t, Apply(t, s, Send(plain)))
  {
    hide Protect, HeaderLength, ReKeyDue, RocAt, SequenceAt;
    RocSteps(t, |s.sent|);
  }

  lemma SendKeepsInv(t: Stream, s: System, plain: Bytes)
    requires t.context.Valid() && Inv(t, s) && Allowed(t, s, Send(plain))
    ensures Inv(t, Apply(t, s, Send(plain)))
  {
    hide ProtectStep, SenderInv, LogInv;
    SendKeepsSender(t, s, plain);
    SendingKeepsLog(t, s, Apply(t, s, Send(plain)));
  }

  lemma RocSteps(t: Stream, position: nat)
    requires t.first + position < 0x7FFF_8000
    ensures RocAt(t, position + 1) ==
            if SequenceAt(t, position) == 0xFFFF then ToU32(RocAt(t, position) + 1) else RocAt(t, position)
  {
    var n := t.first + position;
    assert (n + 1) / 0x1_0000 == if n % 0x1_0000 == 0xFFFF then n / 0x1_0000 + 1 else n / 0x1_0000;
  }

  lemma SendingKeepsLog(t: Stream, s: System, s': System)
    requires LogInv(t, s)
    requires s'.receiver == s.receiver && s'.log == s.log && |s.sent| < |s'.sent| && s'.sent[..|s.sent|] == s.sent
    ensures LogInv(t, s')
  {
    assert forall k | 0 <= k < |s.sent| :: s'.sent[k] == s'.sent[..|s.sent|][k];
  }

  /** What delivering a sent packet does, in terms of its position in the stream only. */
  lemma DeliverOutcome(t: Stream, s: System, position: nat)
    requires t.context.Valid() && SenderInv(t, s) && Allowed(t, s, Deliver(position))
    requires !s.receiver.started ==> s.receiver.highest == 0
    ensures var index, wire := t.first + position, s.sent[position].wire;
            && Parse(t.context, wire).Ok?
            && IndexFor(s.receiver, SequenceNumber(wire)) == index
            && Outcome(t.context, t.policy, s.receiver, wire) ==
               if s.receiver.reKey then Leave(TooBig)
               else if t.context.mki == KMKINULL then Leave(NotFound)
               else if !Fresh(t.policy, s.receiver, index) then Leave(Argument)
               else Ok(s.sent[position].plain)
  {
    hide Parse, Open, MkiMatches, Protect, HeaderLength, Nearest, InReach, Fresh;
    var index: nat := t.first + position;
    var plain := s.sent[position].plain;
    OpenProtected(t.context, index / 0x1_0000, plain);
    assert index == index / 0x1_0000 * 0x1_0000 + index % 0x1_0000;
    if s.receiver.started {
      NearestIsUnique(s.receiver.highest, index % 0x1_0000, index);
    }
  }

  /** The effect of a delivery on receiver and log. */
  lemma DeliverEffect(t: Stream, s: System, position: nat)
    requires t.context.Valid() && Inv(t, s) && Allowed(t, s, Deliver(position))
    ensures var s', index := Apply(t, s, Deliver(position)), t.first + position;
            && s'.sender == s.sender && s'.sent == s.sent && position < |s.sent|
            && (if s'.log == s.log then s'.receiver == s.receiver.(reKey := s'.receiver.reKey)
                else
                  && s'.log == s.log + [Delivery(position, index, s.sent[position].plain)]
                  && Fresh(t.policy, s.receiver, index)
                  && s'.receiver == AcceptedAt(s.receiver.(reKey := s'.receiver.reKey), index))
  {
    hide Parse, Open, Protect, HeaderLength, IndexFor, InReach, Admit, ReKeyDue, Fresh, LogInv;
    DeliverOutcome(t, s, position);
  }

  /** Taking a packet, or not, keeps the log and the memory together. */
  lemma TakingKeepsLog(t: Stream, s: System, s': System, position: nat)
    requires LogInv(t, s) && History(s) && position < |s.sent| && s'.sent == s.sent
    requires if s'.log == s.log then s'.receiver == s.receiver.(reKey := s'.receiver.reKey)
             else
               && s'.log == s.log + [Delivery(position, t.first + position, s.sent[position].plain)]
               && s'.receiver == AcceptedAt(s.receiver.(reKey := s'.receiver.reKey), t.first + position)
    ensures LogInv(t, s') && History(s')
  {
    if s'.log != s.log {
      var index := t.first + position;
      var d := Delivery(position, index, s.sent[position].plain);
      assert s'.receiver.seen == s.receiver.seen + {index} && d in s'.log;
      assert forall e :: e in s'.log <==> e in s.log || e == d;
      TakingKeepsHistory(s, s', index);
      hide History, AcceptedAt;
      forall i | i in s'.receiver.seen ensures exists d :: d in s'.log && d.index == i {
        if i != index {
          var e :| e in s.log && e.index == i;
          assert e in s'.log;
        }
      }
    }
  }

  lemma TakingKeepsHistory(s: System, s': System, index: nat)
    requires History(s) && s'.log != []
    requires s'.receiver == AcceptedAt(s.receiver.(reKey := s'.receiver.reKey), index)
    ensures History(s')
  {
  }

  lemma DeliverKeepsLog(t: Stream, s: System, position: nat)
    requires t.context.Valid() && Inv(t, s) && Allowed(t, s, Deliver(position))
    ensures LogInv(t, Apply(t, s, Deliver(position))) && History(Apply(t, s, Deliver(position)))
  {
    hide Apply, Allowed, SenderInv, LogInv, History, Fresh;
    DeliverEffect(t, s, position);
    TakingKeepsLog(t, s, Apply(t, s, Deliver(position)), position);
  }

  /** A packet the sender made is never dropped after its replay check, so the map keeps representing
      the accepted indices and the handler object follows this receiver at every delivery. */
  lemma DeliveryIsNotDropped(t: Stream, s: System, position: nat)
    requires t.context.Valid() && SenderInv(t, s) && Allowed(t, s, Deliver(position))
    requires !s.receiver.started ==> s.receiver.highest == 0
    ensures !DroppedAfterCheck(t.context, t.policy, s.receiver, s.sent[position].wire)
  {
    hide Parse, Open, Protect, HeaderLength, IndexFor, InReach, Fresh, LogInv;
    DeliverOutcome(t, s, position);
    OpenProtected(t.context, RocAt(t, position), s.sent[position].plain);
  }

  lemma DeliverKeepsReceiver(t: Stream, s: System, position: nat)
    requires t.context.Valid() && Inv(t, s) && Allowed(t, s, Deliver(position))
    ensures ReceiverInv(t, Apply(t, s, Deliver(position)))
  {
    hide Apply, Allowed, SenderInv;
    DeliverEffect(t, s, position);
    DeliverKeepsLog(t, s, position);
    if t.policy.protection && Apply(t, s, Deliver(position)).log != s.log {
      forall i | 0 <= i < |s.log| ensures s.log[i].position != position {
        assert s.log[i] in s.log;
      }
    }
  }

  lemma DeliverKeepsInv(t: Stream, s: System, position: nat)
    requires t.context.Valid() && Inv(t, s) && Allowed(t, s, Deliver(position))
    ensures Inv(t, Apply(t, s, Deliver(position)))
  {
    hide Apply, Allowed, LogInv, ReceiverInv, Protect;
    DeliverEffect(t, s, position);
    DeliverKeepsLog(t, s, position);
    DeliverKeepsReceiver(t, s, position);
  }

  lemma StepKeepsInv(t: Stream, s: System, step: Step)
    requires t.context.Valid() && Inv(t, s) && Allowed(t, s, step)
    ensures Inv(t, Apply(t, s, step))
  {
    hide Inv, Apply, Allowed;
    match step {
      case Send(plain) => SendKeepsInv(t, s, plain);
      case Deliver(position) => DeliverKeepsInv(t, s, position);
    }
  }

  lemma InitialInv(t: Stream)
    requires t.context.Valid()
    ensures Inv(t, INITIAL)
  {
  }

  lemma {:induction false} RunKeepsInv(t: Stream, steps: seq<Step>)
    requires t.context.Valid()
    ensures Inv(t, Run(t, steps))
    decreases |steps|
  {
    hide Inv, Apply, Allowed;
    InitialInv(t);
    if steps != [] {
      var s, step := Run(t, steps[..|steps| - 1]), steps[|steps| - 1];
      RunKeepsInv(t, steps[..|steps| - 1]);
      if Allowed(t, s, step) {
        StepKeepsInv(t, s, step);
      }
    }
  }

  /** The re-keying flag of each side against the number of packets it has processed. */
  ghost predicate CountInv(t: Stream, s: System) {
    && s.sender.packets <= t.policy.lifeTime + 1
    && (s.sender.reKey <==> s.sender.packets == t.policy.lifeTime + 1)
    && s.receiver.packets <= t.policy.lifeTime + 1
    && (s.receiver.packets == t.policy.lifeTime + 1 ==> s.receiver.reKey)
  }

  lemma SenderRocSmall(t: Stream, s: System)
    requires t.context.Valid() && Inv(t, s)
    ensures s.sender.roc < 0x8000
  {
    hide Protect, LogInv, ReceiverInv;
  }

  lemma StepKeepsCount(t: Stream, s: System, step: Step)
    requires t.context.Valid() && t.policy.lifeTime > 0
    requires CountInv(t, s) && s.sender.roc < 0x8000 && Allowed(t, s, step)
    ensures CountInv(t, Apply(t, s, step))
  {
    hide Parse, Open, Protect, HeaderLength, IndexFor, Fresh, MkiMatches;
  }

  lemma {:induction false} RunKeepsCount(t: Stream, steps: seq<Step>)
    requires t.context.Valid() && t.policy.lifeTime > 0
    ensures CountInv(t, Run(t, steps))
    decreases |steps|
  {
    hide Inv, Apply, Allowed;
    if steps != [] {
      var s, step := Run(t, steps[..|steps| - 1]), steps[|steps| - 1];
      RunKeepsCount(t, steps[..|steps| - 1]);
      RunKeepsInv(t, steps[..|steps| - 1]);
      if Allowed(t, s, step) {
        SenderRocSmall(t, s);
        StepKeepsCount(t, s, step);
      }
    }
  }

  // ----- The results -----

  /** Safety over every run: however the network loses, repeats and reorders packets, every packet the
      receiver hands on is the plain packet the sender protected at that position, under exactly the
      sender's index; and with replay protection no position is handed on twice.  What packets put in can
      do is in SrtpInjection. */
  lemma DeliveredExactlyWhatWasSent(t: Stream, steps: seq<Step>)
    requires t.context.Valid()
    ensures var s := Run(t, steps);
            && (forall d | d in s.log ::
                  d.position < |s.sent| && d.index == t.first + d.position && d.plain == s.sent[d.position].plain)
            && (t.policy.protection ==> forall i, j | 0 <= i < j < |s.log| :: s.log[i].position != s.log[j].position)
  {
    hide Protect, Run, HeaderLength;
    RunKeepsInv(t, steps);
  }

  ghost predicate Taken(s: System, position: nat) {
    exists d :: d in s.log && d.position == position
  }

  /** Nothing is lost that could be accepted: at the end of every run, a delivered packet is handed
      on if and only if re-keying is not due, the MKI can be recognised and, with replay
      protection, it is newer than everything taken or is untaken and inside the window. */
  lemma AcceptedExactlyWhenNew(t: Stream, steps: seq<Step>, position: nat)
    requires t.context.Valid() && Allowed(t, Run(t, steps), Deliver(position))
    ensures var s := Run(t, steps);
            var index := t.first + position;
            Apply(t, s, Deliver(position)).log != s.log <==>
            && !s.receiver.reKey && t.context.mki != KMKINULL
            && (t.policy.protection ==>
                  index > s.receiver.highest || (s.receiver.highest - index < t.policy.window && !Taken(s, position)))
  {
    hide Parse, Open, MkiMatches, Protect, HeaderLength, Run, Allowed;
    RunKeepsInv(t, steps);
    var s := Run(t, steps);
    DeliverOutcome(t, s, position);
  }

  /** The receiver's highest index is the maximum of those it has accepted. */
  lemma HighestIsMaximum(t: Stream, steps: seq<Step>)
    requires t.context.Valid()
    ensures var s := Run(t, steps);
            s.log != [] ==>
              (exists d :: d in s.log && d.index == s.receiver.highest) &&
              (forall d | d in s.log :: d.index <= s.receiver.highest)
  {
    hide Protect, Run, HeaderLength;
    RunKeepsInv(t, steps);
  }

  lemma RunIsBounded(t: Stream, steps: seq<Step>)
    requires t.context.Valid()
    ensures t.first + |Run(t, steps).sent| <= 0x7FFF_8000
  {
    hide Run, Protect;
    RunKeepsInv(t, steps);
  }

  /** No key stream block is used for two packets of a run, nor twice within one. */
  lemma KeystreamNeverReused(t: Stream, steps: seq<Step>, p: nat, a: nat, q: nat, b: nat)
    requires t.context.Valid() && p < |Run(t, steps).sent| && q < |Run(t, steps).sent|
    requires a < 0x1_0000 && b < 0x1_0000
    ensures var ip, iq := SenderIndex(RocAt(t, p), SequenceAt(t, p)), SenderIndex(RocAt(t, q), SequenceAt(t, q));
            (Counter(CountIV(t.context.salt, t.context.ssrc, ip), a) ==
             Counter(CountIV(t.context.salt, t.context.ssrc, iq), b)) <==> p == q && a == b
  {
    hide Run, CountIV, Counter, SenderIndex, RocAt, SequenceAt;
    RunIsBounded(t, steps);
    IndexAt(t, p);
    IndexAt(t, q);
    CounterBlocksNeverMeet(t.context.salt, t.context.ssrc, t.first + p, a, t.first + q, b);
  }

  lemma IndexAt(t: Stream, position: nat)
    requires t.first + position < 0x7FFF_8000
    ensures SenderIndex(RocAt(t, position), SequenceAt(t, position)) == t.first + position
  {
    hide SenderIndex;
    SenderIndexExact(RocAt(t, position), SequenceAt(t, position));
  }

  /** The key of a stream protects packets until re-keying is flagged, which happens one packet
      after its life time: both sides process at most life time + 1 packets. */
  lemma KeyLifeTime(t: Stream, steps: seq<Step>)
    requires t.context.Valid() && t.policy.lifeTime > 0
    ensures var s := Run(t, steps);
            && |s.sent| <= t.policy.lifeTime + 1 && |s.log| <= t.policy.lifeTime + 1
            && (s.sender.reKey <==> |s.sent| == t.policy.lifeTime + 1)
  {
    RunKeepsInv(t, steps);
    RunKeepsCount(t, steps);
  }

  /** The sender refuses a packet for its key's age exactly from the one after life time + 1 on. */
  lemma SendRefusedExactly(t: Stream, steps: seq<Step>, plain: Bytes)
    requires t.context.Valid() && t.policy.lifeTime > 0
    ensures var s := Run(t, steps);
            ProtectStep(t.context, t.policy.lifeTime, s.sender, plain).1.Ok? <==>
            |s.sent| <= t.policy.lifeTime && Protect(t.context, s.sender.roc, plain).Ok?
  {
    hide Run, Transform, Tag, HeaderLength;
    RunKeepsInv(t, steps);
    RunKeepsCount(t, steps);
    KeyLifeTime(t, steps);
  }

  /** The receiver's flag goes up with the first delivery after life time packets were accepted, whether
      that delivery is accepted or not: a duplicate raises it too. */
  lemma FlagAtDelivery(t: Stream, s: System, position: nat)
    requires t.context.Valid() && Inv(t, s) && Allowed(t, s, Deliver(position))
    ensures Apply(t, s, Deliver(position)).receiver.reKey <==>
            s.receiver.reKey || s.receiver.packets >= t.policy.lifeTime
  {
    hide Parse, Open, Protect, HeaderLength, IndexFor, InReach, Fresh, LogInv;
    DeliverOutcome(t, s, position);
  }

  // ----- A run that uses a key for life time + 1 packets -----

  /** A packet without payload that continues the stream. */
  function Bare(t: Stream, position: nat): Bytes {
    [0x80, 0] + Write16(SequenceAt(t, position)) + Zeros(8)
  }

  lemma BareCanBeProtected(t: Stream, position: nat)
    requires t.context.Valid() && t.first + position < 0x7FFF_8000
    ensures |Bare(t, position)| == 12 && SequenceNumber(Bare(t, position)) == SequenceAt(t, position)
    ensures Protect(t.context, RocAt(t, position), Bare(t, position)).Ok?
  {
    hide Protect;
    var plain := Bare(t, position);
    assert plain == [0x80, 0] + Write16(SequenceAt(t, position)) + Zeros(8);
    Read16Write16([0x80, 0], SequenceAt(t, position), Zeros(8));
    assert plain[0] == 0x80 && HeaderLength(plain) == Ok(12);
    ProtectSucceeds(t.context, RocAt(t, position), plain);
  }

  /** n packets, each delivered as soon as it is sent. */
  function Promptly(t: Stream, n: nat): seq<Step> {
    if n == 0 then [] else Promptly(t, n - 1) + [Send(Bare(t, n - 1)), Deliver(n - 1)]
  }

  ghost predicate PromptAfter(t: Stream, s: System, n: nat) {
    && |s.sent| == |s.log| == n && (s.receiver.reKey <==> n == t.policy.lifeTime + 1)
    && (n > 0 ==> s.receiver.started && s.receiver.highest == t.first + n - 1)
  }

  lemma {:induction false} PromptRun(t: Stream, n: nat)
    requires t.context.Valid() && t.context.mki != KMKINULL && t.policy.lifeTime > 0
    requires n <= t.policy.lifeTime + 1 && t.first + n < 0x7FFF_8000
    requires t.policy.protection ==> t.policy.window > 0
    ensures PromptAfter(t, Run(t, Promptly(t, n)), n)
    decreases n
  {
    hide Run, PromptAfter, Bare;
    if n == 0 {
      StartOfRun(t);
    } else {
      PromptRun(t, n - 1);
      PromptTurn(t, Promptly(t, n - 1), n - 1);
    }
  }

  lemma PromptTurn(t: Stream, steps: seq<Step>, n: nat)
    requires t.context.Valid() && t.context.mki != KMKINULL && t.policy.lifeTime > 0
    requires n <= t.policy.lifeTime && t.first + n + 1 < 0x7FFF_8000
    requires t.policy.protection ==> t.policy.window > 0
    requires PromptAfter(t, Run(t, steps), n)
    ensures PromptAfter(t, Run(t, steps + [Send(Bare(t, n)), Deliver(n)]), n + 1)
  {
    hide Run, Allowed, Apply, Bare, Inv;
    var s, steps' := Run(t, steps), steps + [Send(Bare(t, n))];
    PromptSend(t, steps);
    OneStepMore(t, steps, Send(Bare(t, n)));
    OneStepMore(t, steps', Deliver(n));
    assert steps' + [Deliver(n)] == steps + [Send(Bare(t, n)), Deliver(n)];
    RunKeepsInv(t, steps');
    PromptDelivery(t, Run(t, steps'));
  }

  lemma StartOfRun(t: Stream)
    requires t.context.Valid()
    ensures Promptly(t, 0) == [] && PromptAfter(t, Run(t, []), 0)
  {
  }

  lemma OneStepMore(t: Stream, steps: seq<Step>, step: Step)
    requires t.context.Valid()
    ensures var s := Run(t, steps); Run(t, steps + [step]) == if Allowed(t, s, step) then Apply(t, s, step) else s
  {
    hide Allowed, Apply;
    assert (steps + [step])[..|steps|] == steps;
  }

  lemma PromptSend(t: Stream, steps: seq<Step>)
    requires t.context.Valid() && t.policy.lifeTime > 0
    requires var s := Run(t, steps); |s.sent| <= t.policy.lifeTime && t.first + |s.sent| + 1 < 0x7FFF_8000
    ensures var s := Run(t, steps); var plain := Bare(t, |s.sent|);
            && Allowed(t, s, Send(plain))
            && var s' := Apply(t, s, Send(plain));
               |s'.sent| == |s.sent| + 1 && s'.log == s.log && s'.receiver == s.receiver
  {
    hide Run, Protect, Bare, HeaderLength, ProtectStep, RocAt, SequenceAt;
    var s := Run(t, steps);
    RunKeepsInv(t, steps);
    BareCanBeProtected(t, |s.sent|);
    SendRefusedExactly(t, steps, Bare(t, |s.sent|));
  }

  lemma PromptDelivery(t: Stream, s: System)
    requires t.policy.protection ==> t.policy.window > 0
    requires t.context.Valid() && t.context.mki != KMKINULL && Inv(t, s) && s.sent != []
    requires t.first + |s.sent| < 0x7FFF_8000 && |s.log| == |s.sent| - 1 <= t.policy.lifeTime && !s.receiver.reKey
    requires s.log != [] ==> s.receiver.started && s.receiver.highest == t.first + |s.sent| - 2
    ensures var position := |s.sent| - 1;
            && Allowed(t, s, Deliver(position))
            && var s' := Apply(t, s, Deliver(position));
               && |s'.log| == |s.log| + 1 && s'.sent == s.sent
               && (s'.receiver.reKey <==> |s.log| == t.policy.lifeTime)
               && s'.receiver.started && s'.receiver.highest == t.first + position
  {
    hide Parse, Open, Protect, HeaderLength, IndexFor, MkiMatches;
    var position := |s.sent| - 1;
    assert Allowed(t, s, Deliver(position));
    DeliverOutcome(t, s, position);
    FlagAtDelivery(t, s, position);
    DeliverEffect(t, s, position);
  }

  /** The bound is reached: every key whose stream is long enough protects, and is used to accept, life
      time + 1 packets of one run. */
  lemma KeyLifeTimeReached(t: Stream)
    requires t.context.Valid() && t.context.mki != KMKINULL
    requires t.policy.lifeTime > 0 && t.first + t.policy.lifeTime + 1 < 0x7FFF_8000
    requires t.policy.protection ==> t.policy.window > 0
    ensures var s := Run(t, Promptly(t, t.policy.lifeTime + 1));
            |s.sent| == |s.log| == t.policy.lifeTime + 1
  {
    hide Run;
    PromptRun(t, t.policy.lifeTime + 1);
  }
}
