/**
 The SRTP crypto handler (srtpcryptohandlersrtp.cpp) driven by the stream states
 (tsrtpstreaminstate*.cpp, tsrtpstreamoutstate*.cpp).

 The class keeps the machine's fields: ROC, s_l, the guess v, a top index, a 64-bit map and
 a 32-bit delta.  Its two entry points are proved against two much simpler machines: a
 sender that counts, and a receiver that remembers the highest index and the set of all
 accepted ones.
 */
module SrtpHandler {
  import opened Machine
  import opened Octets
  import opened Outcomes
  import opened CounterMode
  import opened InitVector
  import opened Rollover
  import opened ReplayWindow
  import opened SrtpPacket

  const KSRTPMasterKeysLifeTime := 0xFFFF_FFFF_FFFF

  /** Re-keying is due at the last sequence number before the counter would end, and when the
      key's life time is used up. */
  predicate ReKeyDue(roc: u32, sn: u16, packets: nat, lifeTime: nat) {
    (sn == 0xFFFF && roc == 0xFFFF_FFFE) || packets >= lifeTime
  }

  /** As an index: the one that lies a whole turn of sequence numbers before the last of the 2^48. */
  lemma ReKeyDueExactly(roc: u32, sn: u16, packets: nat, lifeTime: nat)
    ensures ReKeyDue(roc, sn, packets, lifeTime) <==>
            roc as int * 0x1_0000 + sn == 0x1_0000_0000_0000 - 0x1_0000 - 1 || packets >= lifeTime
  {
  }

  // ----- The simple sender -----

  datatype Sender = Sender(roc: u32, packets: nat, reKey: bool)

  function ProtectStep(c: Context, lifeTime: nat, s: Sender, plain: Bytes): (Sender, Result<Bytes>)
    requires c.Valid()
  {
    if HeaderLength(plain).Leave? then (s, Leave(HeaderLength(plain).error))
    else if s.reKey then (s, Leave(TooBig))
    else
      var sn := SequenceNumber(plain);
      var reKey := ReKeyDue(s.roc, sn, s.packets, lifeTime);
      var r := Protect(c, s.roc, plain);
      if r.Leave? then (s.(reKey := reKey), r)
      else (Sender(RocBehind(s.roc, sn), s.packets + 1, reKey), r)
  }

  // ----- The simple receiver -----

  datatype Receiver = Receiver(started: bool, highest: nat, seen: set<int>, packets: nat, reKey: bool)

  const LISTENING := Receiver(false, 0, {}, 0, false)

  /** Receiver policy: replay protection on or off, and the window size. */
  datatype Policy = Policy(protection: bool, window: int, lifeTime: nat)

  /** The index the receiver gives a packet: the first packet starts at roll-over counter 0. */
  function IndexFor(r: Receiver, sn: u16): int {
    if r.started then Nearest(r.highest, sn) else sn
  }

  predicate Fresh(policy: Policy, r: Receiver, index: int) {
    policy.protection ==> index > r.highest || (r.highest - index < policy.window && index !in r.seen)
  }

  /** The signed 32-bit product of the receiver's index has room for every index in reach. */
  predicate InRange(r: Receiver) { r.highest < 0x7FFF_8000 }

  /** Everything up to and including the replay check; gives the packet its index. */
  function Admit(c: Context, policy: Policy, r: Receiver, sn: u16, p: Parsed): Result<nat> {
    var n := IndexFor(r, sn);
    if r.reKey then Leave(TooBig)
    else if n < 0 then Leave(Overflow)
    else if !MkiMatches(c, p) then Leave(NotFound)
    else if !Fresh(policy, r, n) then Leave(Argument)
    else Ok(n)
  }

  /** Everything after it: authentication with the guessed counter, and decryption. */
  function Open(c: Context, index: nat, wire: Bytes, p: Parsed): Result<Bytes>
    requires c.Valid() && p.header + p.payload <= |wire| && index < 0x8000_0000
  {
    match Authenticate(c, index / 0x1_0000, wire, p)
    case Leave(e) => Leave(e)
    case Ok(_) => Decrypt(c, index, wire, p)
  }

  lemma IndexForInRange(r: Receiver, sn: u16)
    requires InRange(r)
    ensures IndexFor(r, sn) < 0x8000_0000
  {
  }

  function Outcome(c: Context, policy: Policy, r: Receiver, wire: Bytes): Result<Bytes>
    requires c.Valid() && InRange(r)
  {
    match Parse(c, wire)
    case Leave(e) => Leave(e)
    case Ok(p) =>
      match Admit(c, policy, r, SequenceNumber(wire), p)
      case Leave(e) => Leave(e)
      case Ok(n) => IndexForInRange(r, SequenceNumber(wire)); Open(c, n, wire, p)
  }

  /** The packet passed the replay check and was dropped afterwards. */
  predicate DroppedAfterCheck(c: Context, policy: Policy, r: Receiver, wire: Bytes)
    requires c.Valid() && InRange(r)
  {
    && Parse(c, wire).Ok?
    && Admit(c, policy, r, SequenceNumber(wire), Parse(c, wire).value).Ok?
    && Outcome(c, policy, r, wire).Leave?
  }

  /** The counting of a packet, accepted or not, can only raise the re-keying flag. */
  function Counted(policy: Policy, r: Receiver, sn: u16): (counted: Receiver)
    ensures counted == r.(reKey := counted.reKey)
  {
    if r.reKey || IndexFor(r, sn) < 0 then r
    else r.(reKey := ReKeyDue(ToU32(r.highest / 0x1_0000), sn, r.packets, policy.lifeTime))
  }

  function AcceptedAt(r: Receiver, n: nat): Receiver {
    Receiver(true, if r.started && n < r.highest then r.highest else n, r.seen + {n}, r.packets + 1, r.reKey)
  }

  function UnprotectStep(c: Context, policy: Policy, r: Receiver, wire: Bytes): Receiver
    requires c.Valid() && InRange(r)
  {
    if Parse(c, wire).Leave? then r
    else
      var counted := Counted(policy, r, SequenceNumber(wire));
      if Outcome(c, policy, r, wire).Leave? then counted
      else AcceptedAt(counted, IndexFor(r, SequenceNumber(wire)))
  }

  // ----- The receiver as it is: what it remembers of the indices is the map -----

  /** receiver.seen is the history, which the code does not keep; the code has the map. */
  datatype Guarded = Guarded(receiver: Receiver, bits: Word64)

  /** The remembering receiver the map amounts to, whatever brought the map about. */
  function Remembered(g: Guarded): Receiver { g.receiver.(seen := Denoted(g.bits, g.receiver.highest)) }

  function OutcomeByMap(c: Context, policy: Policy, g: Guarded, wire: Bytes): Result<Bytes>
    requires c.Valid() && InRange(g.receiver)
  {
    Outcome(c, policy, Remembered(g), wire)
  }

  /** The map is shifted by the check, and marked only if the packet is accepted. */
  function MapAfter(c: Context, policy: Policy, g: Guarded, wire: Bytes): Word64
    requires c.Valid() && InRange(g.receiver) && policy.window <= 64
  {
    if policy.protection && Parse(c, wire).Ok?
       && Admit(c, policy, Remembered(g), SequenceNumber(wire), Parse(c, wire).value).Ok?
    then
      var delta := IndexFor(g.receiver, SequenceNumber(wire)) - g.receiver.highest;
      var checked := Checked(g.bits, policy.window, delta);
      if OutcomeByMap(c, policy, g, wire).Ok? then Committed(checked, delta) else checked
    else g.bits
  }

  function StepByMap(c: Context, policy: Policy, g: Guarded, wire: Bytes): Guarded
    requires c.Valid() && InRange(g.receiver) && policy.window <= 64
  {
    var r := UnprotectStep(c, policy, Remembered(g), wire);
    var seen := if OutcomeByMap(c, policy, g, wire).Leave? then g.receiver.seen
                else g.receiver.seen + {IndexFor(g.receiver, SequenceNumber(wire))};
    Guarded(r.(seen := seen), MapAfter(c, policy, g, wire))
  }

  /** The three ways of a packet: refused before or by the replay check, dropped after it, accepted. */
  lemma StepCases(c: Context, policy: Policy, g: Guarded, wire: Bytes)
    requires c.Valid() && InRange(g.receiver) && policy.window <= 64
    ensures var o, after := OutcomeByMap(c, policy, g, wire), StepByMap(c, policy, g, wire);
            match Parse(c, wire)
            case Leave(e) => o == Leave(e) && after == g
            case Ok(p) =>
              var sn, counted := SequenceNumber(wire), Counted(policy, g.receiver, SequenceNumber(wire));
              match Admit(c, policy, Remembered(g), sn, p)
              case Leave(e) => o == Leave(e) && after == Guarded(counted, g.bits)
              case Ok(n) =>
                && n == IndexFor(g.receiver, sn) && n < 0x8000_0000
                && var delta, plain := n - g.receiver.highest, Open(c, n, wire, p);
                   && (policy.protection ==> -64 < delta)
                   && o == plain
                   && after == if plain.Ok? then
                                 Guarded(AcceptedAt(counted, n),
                                         if policy.protection then Committed(Checked(g.bits, policy.window, delta), delta) else g.bits)
                               else Guarded(counted, if policy.protection then Checked(g.bits, policy.window, delta) else g.bits)
  {
    hide Parse, Open, Checked, Committed, Denoted, ReKeyDue, MkiMatches;
    if Parse(c, wire).Ok? {
      IndexForInRange(g.receiver, SequenceNumber(wire));
    }
  }

  /** The map passes exactly the indices fresh to the receiver it amounts to. */
  lemma PassesIsFresh(policy: Policy, g: Guarded, index: int)
    requires policy.window <= 64 && policy.protection
    ensures Passes(g.bits, policy.window, index - g.receiver.highest) <==> Fresh(policy, Remembered(g), index)
  {
    hide Represents, Denoted;
    DenotedIsRepresented(g.bits, policy.window, g.receiver.highest);
    CheckThenCommit(g.bits, policy.window, g.receiver.highest, Denoted(g.bits, g.receiver.highest), index - g.receiver.highest);
    assert g.receiver.highest + (index - g.receiver.highest) == index;
  }

  /** While the map represents the history, the receiver is the one that remembers every index: in every
      outcome, and after it as well unless the packet was dropped after its check. */
  lemma MapRemembers(c: Context, policy: Policy, g: Guarded, wire: Bytes)
    requires c.Valid() && InRange(g.receiver) && policy.window <= 64 && (!g.receiver.started ==> g.receiver.highest == 0)
    requires policy.protection ==> Represents(g.bits, policy.window, g.receiver.highest, g.receiver.seen)
    ensures OutcomeByMap(c, policy, g, wire) == Outcome(c, policy, g.receiver, wire)
    ensures var after := StepByMap(c, policy, g, wire);
            && after.receiver == UnprotectStep(c, policy, g.receiver, wire)
            && if policy.protection && DroppedAfterCheck(c, policy, g.receiver, wire) then
                 after.bits == Checked(g.bits, policy.window, IndexFor(g.receiver, SequenceNumber(wire)) - g.receiver.highest)
               else policy.protection ==>
                 Represents(after.bits, policy.window, after.receiver.highest, after.receiver.seen)
  {
    hide Open, Represents, Passes, Checked, Committed, ReKeyDue, Nearest, MkiMatches, Denoted;
    if Parse(c, wire).Ok? {
      SameVerdict(c, policy, g, wire);
      var index := IndexFor(g.receiver, SequenceNumber(wire));
      if policy.protection {
        PassesIsFresh(policy, g, index);
        CheckThenCommit(g.bits, policy.window, g.receiver.highest, g.receiver.seen, index - g.receiver.highest);
        if index >= 0 {
          NotStartedBelow(g, index);
        }
      }
    }
  }

  lemma SameVerdict(c: Context, policy: Policy, g: Guarded, wire: Bytes)
    requires c.Valid() && InRange(g.receiver) && policy.window <= 64 && |wire| >= 12
    requires policy.protection ==> Represents(g.bits, policy.window, g.receiver.highest, g.receiver.seen)
    ensures var index := IndexFor(g.receiver, SequenceNumber(wire));
            IndexFor(Remembered(g), SequenceNumber(wire)) == index
            && (Fresh(policy, Remembered(g), index) <==> Fresh(policy, g.receiver, index))
  {
    hide Represents, Passes, Denoted, Nearest;
    var index := IndexFor(g.receiver, SequenceNumber(wire));
    if policy.protection {
      PassesIsFresh(policy, g, index);
      CheckThenCommit(g.bits, policy.window, g.receiver.highest, g.receiver.seen, index - g.receiver.highest);
      assert g.receiver.highest + (index - g.receiver.highest) == index;
    }
  }

  lemma NotStartedBelow(g: Guarded, index: int)
    requires index >= 0
    ensures var after := AcceptedAt(g.receiver, index);
            && g.receiver.highest + (index - g.receiver.highest) == index
            && (g.receiver.started || g.receiver.highest == 0 ==>
                  after.highest == if index > g.receiver.highest then index else g.receiver.highest)
  {
  }

  lemma ProtectedWith(c: Context, roc: u32, plain: Bytes)
    requires c.Valid() && HeaderLength(plain).Ok?
    ensures var h := HeaderLength(plain).value;
            Protect(c, roc, plain) ==
            match Transform(c, SenderIndex(roc, SequenceNumber(plain)), plain[h..])
            case Leave(e) => Leave(e)
            case Ok(text) =>
              match Tag(c, plain[..h] + text, roc)
              case Leave(e) => Leave(e)
              case Ok(tag) => Ok(plain[..h] + text + c.mki + tag)
  {
    hide HeaderLength, Transform, Tag, SenderIndex;
  }

  // ----- CSRTPCryptoHandlerSRTP -----

  class CryptoHandlerSrtp {
    const context: Context
    const policy: Policy
    const cipher: AesCtrCrypto
    /** iBitmap and its window size. */
    const window: ReplayBitmap
    /** CSRTPStream::iROC */
    var roc: u32
    var sL: u16
    var v: s32
    var pktIndex: u64
    var replayIndexDelta: s32
    var numPackets: nat
    var reKey: bool
    /** The stream has left its uninitialised (or late-binding) state. */
    var started: bool
    /** Of the current packet. */
    var sequenceNumber: u16
    var packetIndex: u64

    /** Every index accepted so far. */
    ghost var seen: set<int>

    constructor (context: Context, protection: bool, windowSizeHint: int, masterKeysLifeTime: u64)
      requires context.Valid() && windowSizeHint <= 64
      ensures SenderOk() && ReceiverOk() && WindowOk()
      ensures this.context == context
      ensures policy == Policy(protection, windowSizeHint, LifeTime(masterKeysLifeTime))
      ensures AsSender() == Sender(0, 0, false) && AsReceiver() == LISTENING
      ensures fresh(window) && fresh(cipher)
    {
      this.context := context;
      cipher := new AesCtrCrypto(context.aes);
      window := new ReplayBitmap(windowSizeHint);
      var lifeTime := masterKeysLifeTime;
      if lifeTime == 0 || lifeTime > KSRTPMasterKeysLifeTime {
        lifeTime := KSRTPMasterKeysLifeTime;
      }
      policy := Policy(protection, windowSizeHint, lifeTime);
      roc, sL, v, pktIndex, replayIndexDelta, numPackets := 0, 0, 0, 0, 0, 0;
      reKey, started := false, false;
      sequenceNumber, packetIndex := 0, 0;
      seen := {};
    }

    ghost predicate SenderOk()
      reads this, window, cipher
    {
      && context.Valid()
      && cipher.Valid() && cipher.aes == context.aes
      && window.windowSizeHint == policy.window <= 64
    }

    ghost function AsSender(): Sender
      reads this
    {
      Sender(roc, numPackets, reKey)
    }

    ghost function Highest(): nat
      reads this
    {
      if started then roc as int * 0x1_0000 + sL else 0
    }

    ghost function AsReceiver(): Receiver
      reads this
    {
      Receiver(started, Highest(), seen, numPackets, reKey)
    }

    ghost function AsGuarded(): Guarded
      reads this, window
    {
      Guarded(AsReceiver(), window.bitmap)
    }

    /** With replay protection, 2^16 * ROC + s_l and the replay top index are the same number. */
    ghost predicate ReceiverOk()
      reads this, window, cipher
    {
      && SenderOk()
      && (!started ==> roc == 0)
      && (policy.protection ==> pktIndex == Highest())
    }

    /** With replay protection, the 64-bit map is the set of accepted indices. */
    ghost predicate WindowOk()
      requires policy.window <= 64
      reads this, window
    {
      policy.protection ==> Represents(window.bitmap, policy.window, Highest(), seen)
    }

    /** The remainder modulo 2^16 - 1 is zero for 0 and for 65535 only. */
    method ReKeyCheck()
      modifies this`reKey
      ensures reKey == (old(reKey) || ReKeyDue(roc, sequenceNumber, numPackets, policy.lifeTime))
    {
      var remainder := sequenceNumber % 0xFFFF;
      if remainder == 0 && sequenceNumber != 0 {
        if ToU32(roc + 1) >= 0xFFFF_FFFF {
          reKey := true;
        }
      }
      if numPackets >= policy.lifeTime {
        reKey := true;
      }
    }

    // ----- Sending -----

    method CountSenderPacketIndexL() returns (r: Result<()>)
      modifies this`packetIndex, this`reKey
      ensures old(reKey) ==> r == Leave(TooBig) && reKey && packetIndex == old(packetIndex)
      ensures !old(reKey) ==> r == Ok(()) && packetIndex == SenderIndex(roc, sequenceNumber)
      ensures !old(reKey) ==> reKey == ReKeyDue(roc, sequenceNumber, numPackets, policy.lifeTime)
    {
      if reKey {
        return Leave(TooBig);
      }
      packetIndex := ToU32(ToU32(0x1_0000 * roc as int) + sequenceNumber);
      ReKeyCheck();
      return Ok(());
    }

    method CountIVAndTransformL(payload: Bytes) returns (r: Result<Bytes>)
      requires context.Valid() && cipher.Valid() && cipher.aes == context.aes
      modifies cipher
      ensures cipher.Valid()
      ensures r == Transform(context, packetIndex, payload)
    {
      if context.encAlg.NullCipher? {
        return Ok(payload);
      }
      var iv := CountIV(context.salt, context.ssrc, packetIndex);
      r := cipher.EncryptL(context.encKey, iv, payload);
    }

    /** CopyHeaderAndPayloadL: a zero-filled buffer with the header and the new payload. */
    static method CopyHeaderAndPayloadL(packet: Packet, size: nat, payload: Bytes) returns (buffer: array<Octet>)
      requires packet.headerLength <= |packet.packet| && packet.headerLength + |payload| <= size
      ensures fresh(buffer) && buffer.Length == size
      ensures buffer[..packet.headerLength + |payload|] == packet.packet[..packet.headerLength] + payload
    {
      buffer := new Octet[size](_ => 0);
      forall i | 0 <= i < packet.headerLength {
        buffer[i] := packet.packet[i];
      }
      forall i | 0 <= i < |payload| {
        buffer[packet.headerLength + i] := payload[i];
      }
    }

    /** Mem::Copy into the packet under construction. */
    static method CopyInto(buffer: array<Octet>, at: nat, data: Bytes)
      requires at + |data| <= buffer.Length
      modifies buffer
      ensures buffer[..at] == old(buffer[..at]) && buffer[at..at + |data|] == data
    {
      forall i | 0 <= i < |data| {
        buffer[at + i] := data[i];
      }
    }

    method EncryptL(packet: Packet) returns (r: Result<Bytes>)
      requires SenderOk() && |packet.packet| >= 12
      requires HeaderLength(packet.packet) == Ok(packet.headerLength)
      requires packet.headerLength + packet.payloadLength == |packet.packet|
      requires packetIndex == SenderIndex(roc, SequenceNumber(packet.packet))
      modifies cipher
      ensures SenderOk()
      ensures r == Protect(context, roc, packet.packet)
    {
      hide HeaderLength, Transform, RocOctets, SenderIndex, Protect;
      var header := packet.headerLength;
      ProtectedWith(context, roc, packet.packet);
      r := CountIVAndTransformL(packet.packet[header..]);
      if r.Leave? {
        return;
      }
      var text := r.value;
      TransformTwice(context, packetIndex, packet.packet[header..]);
      var tagLength := if context.authAlg.AuthNull? then 0 else context.tagBits / 8;
      var size := header + packet.payloadLength + |context.mki| + tagLength;
      var buffer := CopyHeaderAndPayloadL(packet, size, text);
      ghost var portion := packet.packet[..header] + text;
      var at := header + packet.payloadLength;
      if |context.mki| > 0 {
        CopyInto(buffer, at, context.mki);
        at := at + |context.mki|;
      }
      assert buffer[..at] == portion + context.mki;
      r := AddAuthTagL(buffer, at, portion);
    }

    /** AddAuthTagToPacketL: the tag fills the rest of the buffer. */
    method AddAuthTagL(buffer: array<Octet>, at: nat, ghost portion: Bytes) returns (r: Result<Bytes>)
      requires context.Valid() && at + context.TagOctets() == buffer.Length && buffer[..at] == portion + context.mki
      modifies buffer
      ensures r == match Tag(context, portion, roc)
                   case Leave(e) => Leave(e)
                   case Ok(tag) => Ok(portion + context.mki + tag)
    {
      hide RocOctets;
      if !context.authAlg.AuthNull? && context.tagBits > 0 {
        var octets := RocOctets(roc);
        if octets.None? {
          return Leave(Panic);
        }
        var length := at - |context.mki|;
        assert buffer[..length] == buffer[..at][..length] == portion;
        var tag := context.hmac(context.authKey, buffer[..length] + octets.value)[..context.tagBits / 8];
        CopyInto(buffer, at, tag);
        assert buffer[..] == buffer[..at] + buffer[at..at + |tag|];
      } else {
        assert buffer[..] == buffer[..at] == portion + context.mki + [];
      }
      return Ok(buffer[..]);
    }

    method UpdateROC()
      modifies this`roc, this`numPackets
      ensures roc == if sequenceNumber == 0xFFFF then ToU32(old(roc) + 1) else old(roc)
      ensures numPackets == old(numPackets) + 1
    {
      var remainder := sequenceNumber % 0xFFFF;
      if remainder == 0 && sequenceNumber != 0 {
        roc := ToU32(roc + 1);
      }
      numPackets := numPackets + 1;
    }

    /** Protecting refines the counting sender. */
    method DoProtectRtpL(plain: Bytes) returns (r: Result<Bytes>)
      requires SenderOk()
      modifies this`sequenceNumber, this`packetIndex, this`reKey, this`roc, this`numPackets, cipher
      ensures SenderOk()
      ensures (AsSender(), r) == ProtectStep(context, policy.lifeTime, old(AsSender()), plain)
    {
      var packet := new Packet(plain);
      var constructed := packet.ConstructPlainL();
      if constructed.Leave? {
        return Leave(constructed.error);
      }
      sequenceNumber := packet.sequenceNumber;
      var counted := CountSenderPacketIndexL();
      if counted.Leave? {
        return Leave(counted.error);
      }
      r := EncryptL(packet);
      if r.Leave? {
        return;
      }
      UpdateROC();
    }

    // ----- Receiving -----

    method CountReceiverPacketIndexL() returns (r: Result<()>)
      modifies this`v, this`packetIndex, this`reKey
      ensures r == if old(reKey) then Leave(TooBig)
                   else if EstimateV(roc, sL, sequenceNumber).None? then Leave(Overflow) else Ok(())
      ensures r.Leave? ==> reKey == old(reKey)
      ensures r.Ok? ==> EstimateV(roc, sL, sequenceNumber) == Some(v) && packetIndex == ReceiverIndex(v, sequenceNumber)
      ensures r.Ok? ==> reKey == ReKeyDue(roc, sequenceNumber, numPackets, policy.lifeTime)
    {
      if reKey {
        return Leave(TooBig);
      }
      var guess: Option<s32>;
      if sL < 0x8000 {
        if sequenceNumber - sL > 0x8000 {
          guess := MathInt(ToU32(roc - 1));
        } else {
          guess := Some(ToS32(roc));
        }
      } else {
        if sL - 0x8000 > sequenceNumber {
          guess := MathInt(ToU32(roc + 1));
        } else {
          guess := Some(ToS32(roc));
        }
      }
      if guess.None? {
        v := 0x7FFF_FFFF;
        return Leave(Overflow);
      }
      v := guess.value;
      ReKeyCheck();
      packetIndex := ToU64(ToS32(sequenceNumber + v as int * 0x1_0000));
      return Ok(());
    }

    /** The difference of two 64-bit indices is narrowed to 32 bits. */
    method ReplayProtectionL() returns (r: Result<()>)
      requires window.windowSizeHint <= 64
      requires policy.protection ==> ToS32(ToU64(packetIndex - pktIndex)) > -0x8000_0000
      modifies this`replayIndexDelta, window
      ensures !policy.protection ==> r == Ok(()) && window.bitmap == old(window.bitmap)
      ensures policy.protection ==>
                var delta := ToS32(ToU64(packetIndex - pktIndex));
                && window.bitmap == Checked(old(window.bitmap), window.windowSizeHint, delta)
                && r == (if Passes(old(window.bitmap), window.windowSizeHint, delta) then Ok(()) else Leave(Argument))
                && (r.Ok? ==> replayIndexDelta == delta)
    {
      if policy.protection {
        var delta := ToS32(ToU64(packetIndex - pktIndex));
        var ok := window.ReplayCheck(delta);
        if !ok {
          return Leave(Argument);
        }
        replayIndexDelta := delta;
      }
      return Ok(());
    }

    method UpdateSlAndRocL() returns (r: Result<()>)
      modifies this`sL, this`roc
      ensures match UpdateRocAndSl(old(roc), old(sL), v, sequenceNumber)
              case None => r == Leave(Overflow) && roc == old(roc) && sL == old(sL)
              case Some(next) => r == Ok(()) && (roc, sL) == next
    {
      if v == ToS32(roc - 1) {
        return Ok(());
      }
      if ToU32(v) == roc {
        if sequenceNumber > sL {
          sL := sequenceNumber;
        }
      } else {
        var next := MathInt(ToU32(roc + 1));
        if next.None? {
          return Leave(Overflow);
        }
        if v == next.value {
          sL := sequenceNumber;
          roc := ToU32(v);
        }
      }
      return Ok(());
    }

    method AddReplayIndex()
      requires policy.protection ==> -64 < replayIndexDelta
      modifies this`pktIndex, this`numPackets, window
      ensures numPackets == old(numPackets) + 1
      ensures policy.protection ==>
                && window.bitmap == Committed(old(window.bitmap), replayIndexDelta)
                && pktIndex == if replayIndexDelta > 0 then packetIndex else old(pktIndex)
      ensures !policy.protection ==> pktIndex == old(pktIndex) && window.bitmap == old(window.bitmap)
    {
      if policy.protection {
        if replayIndexDelta > 0 {
          pktIndex := packetIndex;
        } else {
          window.MarkSeen(replayIndexDelta);
        }
      }
      numPackets := numPackets + 1;
    }

    /** Steps 2 to 4 of section 3.3 of RFC 3711 and the replay check, for any map. */
    method AdmitL(packet: Packet, ghost g: Guarded) returns (r: Result<()>)
      requires SenderOk() && ReceiverOk() && g == AsGuarded() && InRange(g.receiver)
      requires sequenceNumber == packet.sequenceNumber
      modifies this`sL, this`v, this`packetIndex, this`reKey, this`replayIndexDelta, window
      ensures r == (match Admit(context, policy, Remembered(g), sequenceNumber, packet.AsParsed())
                    case Leave(e) => Leave(e) case Ok(_) => Ok(()))
      ensures AsReceiver() == Counted(policy, g.receiver, sequenceNumber)
      ensures SenderOk() && ReceiverOk()
      ensures r.Leave? ==> window.bitmap == g.bits
      ensures r.Ok? ==> Admitted(g)
    {
      hide IndexFor, Passes, Checked, Nearest, ReceiverIndex, EstimateV, ReKeyDue, Fresh, Denoted;
      if !started {
        sL := sequenceNumber;
      }
      IndexIsMachineIndex(g.receiver, roc, sL, sequenceNumber);
      CounterOfHighest(g.receiver, roc, sL);
      SameIndex(g, sequenceNumber);
      var counted := CountReceiverPacketIndexL();
      if counted.Leave? {
        return Leave(counted.error);
      }
      if |context.mki| > 0 && packet.masterKeyIdentifier != context.mki {
        return Leave(NotFound);
      }
      r := CheckFreshL(g);
    }

    /** The bit map's verdict is that of the receiver it amounts to. */
    method CheckFreshL(ghost g: Guarded) returns (r: Result<()>)
      requires window.windowSizeHint == policy.window <= 64 && window.bitmap == g.bits
      requires InRange(g.receiver) && (!g.receiver.started ==> g.receiver.highest == 0)
      requires packetIndex == IndexFor(g.receiver, sequenceNumber)
      requires policy.protection ==> pktIndex == g.receiver.highest
      modifies this`replayIndexDelta, window
      ensures r == if Fresh(policy, Remembered(g), packetIndex) then Ok(()) else Leave(Argument)
      ensures r.Leave? || !policy.protection ==> window.bitmap == g.bits
      ensures r.Ok? && policy.protection ==>
                && replayIndexDelta == packetIndex - g.receiver.highest
                && Passes(g.bits, policy.window, replayIndexDelta)
                && window.bitmap == Checked(g.bits, policy.window, replayIndexDelta)
    {
      if policy.protection {
        NarrowDelta(g.receiver, sequenceNumber);
        PassesIsFresh(policy, g, packetIndex);
      }
      r := ReplayProtectionL();
    }

    /** The handler's state between the replay check of a packet and its commit. */
    ghost predicate Admitted(g: Guarded)
      requires policy.window <= 64
      reads this, window
    {
      && (!started ==> roc == 0 && sL == sequenceNumber)
      && packetIndex == IndexFor(g.receiver, sequenceNumber) && v == packetIndex / 0x1_0000
      && (!policy.protection ==> window.bitmap == g.bits)
      && (policy.protection ==>
            && pktIndex == g.receiver.highest
            && replayIndexDelta == packetIndex - g.receiver.highest
            && Passes(g.bits, policy.window, replayIndexDelta)
            && window.bitmap == Checked(g.bits, policy.window, replayIndexDelta))
    }

    /** Steps 5 and 6: authentication, with the guess v because ROC is not updated yet, and decryption. */
    method OpenL(packet: Packet) returns (r: Result<Bytes>)
      requires SenderOk() && packet.headerLength + packet.payloadLength <= |packet.packet|
      requires packetIndex < 0x8000_0000 && v == packetIndex / 0x1_0000
      modifies cipher
      ensures SenderOk()
      ensures r == Open(context, packetIndex, packet.packet, packet.AsParsed())
    {
      if |packet.authenticationTag| > 0 && context.authAlg.HmacSha1? {
        var portion := packet.packet[..packet.headerLength + packet.payloadLength];
        var octets := RocOctets(ToU32(v));
        if octets.None? {
          return Leave(Panic);
        }
        var tag := context.hmac(context.authKey, portion + octets.value)[..context.tagBits / 8];
        if packet.authenticationTag != tag {
          return Leave(NotFound);
        }
      }
      var text := CountIVAndTransformL(packet.packet[packet.headerLength..packet.headerLength + packet.payloadLength]);
      if text.Leave? {
        return text;
      }
      return Ok(packet.packet[..packet.headerLength] + text.value);
    }

    /** Step 7, for a packet that passed every check. */
    method CommitL(ghost g: Guarded)
      requires SenderOk() && ReceiverOk() && InRange(g.receiver) && Admitted(g)
      requires AsReceiver() == g.receiver.(reKey := reKey)
      modifies this`sL, this`roc, this`pktIndex, this`numPackets, this`started, this`seen, window
      ensures SenderOk() && ReceiverOk()
      ensures AsReceiver() == AcceptedAt(g.receiver.(reKey := reKey), packetIndex)
      ensures policy.protection ==>
                var delta := packetIndex - g.receiver.highest;
                -64 < delta && window.bitmap == Committed(Checked(g.bits, policy.window, delta), delta)
      ensures !policy.protection ==> window.bitmap == g.bits
    {
      hide IndexFor, Nearest, UpdateRocAndSl, Checked, Committed;
      AcceptedMaximum(g.receiver, roc, sL, sequenceNumber);
      var updated := UpdateSlAndRocL();
      assert updated == Ok(());
      AddReplayIndex();
      started := true;
      seen := seen + {packetIndex as int};
    }

    /**
     Unprotecting, from every state the handler can be in: the outcome and the new state are those of
     the receiver its map amounts to, and 2^16 * ROC + s_l, the replay top and the highest accepted
     index stay equal.  A packet that fails after the replay check leaves the map as the check left
     it.  While the map represents the accepted indices, the receiver is the one that remembers them.
     */
    method DoUnprotectSrtpL(wire: Bytes) returns (r: Result<Bytes>)
      requires ReceiverOk() && InRange(AsReceiver())
      modifies this, window, cipher
      ensures ReceiverOk()
      ensures r == OutcomeByMap(context, policy, old(AsGuarded()), wire)
      ensures AsGuarded() == StepByMap(context, policy, old(AsGuarded()), wire)
      ensures old(WindowOk()) ==>
                && r == Outcome(context, policy, old(AsReceiver()), wire)
                && AsReceiver() == UnprotectStep(context, policy, old(AsReceiver()), wire)
                && if policy.protection && DroppedAfterCheck(context, policy, old(AsReceiver()), wire) then
                     window.bitmap == Checked(old(window.bitmap), policy.window,
                                              IndexFor(old(AsReceiver()), SequenceNumber(wire)) - old(Highest()))
                   else WindowOk()
    {
      ghost var g, remembering := AsGuarded(), WindowOk();
      r := UnprotectByMapL(wire);
      if remembering {
        hide OutcomeByMap, StepByMap, Represents, Outcome, UnprotectStep, DroppedAfterCheck, Checked;
        MapRemembers(context, policy, g, wire);
      }
    }

    /** The steps of DoUnprotectSrtpL. */
    method UnprotectByMapL(wire: Bytes) returns (r: Result<Bytes>)
      requires ReceiverOk() && InRange(AsReceiver())
      modifies this, window, cipher
      ensures ReceiverOk()
      ensures r == OutcomeByMap(context, policy, old(AsGuarded()), wire)
      ensures AsGuarded() == StepByMap(context, policy, old(AsGuarded()), wire)
    {
      hide Parse, Admit, Open, IndexFor, Nearest, Counted, AcceptedAt, OutcomeByMap, StepByMap, Remembered, Fresh,
        MkiMatches, ReKeyDue, Checked, Committed, Passes, Denoted;
      ghost var g := AsGuarded();
      StepCases(context, policy, g, wire);
      var packet := new Packet(wire);
      var constructed := packet.ConstructEncryptedL(context);
      if constructed.Leave? {
        return Leave(constructed.error);
      }
      sequenceNumber := packet.sequenceNumber;
      SameIndex(g, sequenceNumber);
      var admitted := AdmitL(packet, g);
      if admitted.Leave? {
        return Leave(admitted.error);
      }
      IndexForInRange(g.receiver, sequenceNumber);
      r := OpenL(packet);
      if r.Leave? {
        return;
      }
      CommitL(g);
    }
  }

  lemma SameIndex(g: Guarded, sn: u16)
    ensures IndexFor(Remembered(g), sn) == IndexFor(g.receiver, sn)
  {
  }

  function LifeTime(requested: u64): nat {
    if requested == 0 || requested > KSRTPMasterKeysLifeTime then KSRTPMasterKeysLifeTime else requested
  }

  /** The machine's guess and index are the simple receiver's, before and after the first packet. */
  lemma IndexIsMachineIndex(r: Receiver, roc: u32, sL: u16, sn: u16)
    requires InRange(r)
    requires r.highest == if r.started then roc as int * 0x1_0000 + sL else 0
    requires !r.started ==> roc == 0 && sL == sn
    ensures var n := IndexFor(r, sn);
            && n < 0x8000_0000
            && match EstimateV(roc, sL, sn)
               case None => n < 0
               case Some(v) => 0 <= n && v == n / 0x1_0000 && ReceiverIndex(v, sn) == n
  {
    EstimateIsNearest(roc, sL, sn);
    if !r.started {
      assert Nearest(sL, sn) == sn;
    }
  }

  lemma CounterOfHighest(r: Receiver, roc: u32, sL: u16)
    requires r.highest == if r.started then roc as int * 0x1_0000 + sL else 0
    requires !r.started ==> roc == 0
    ensures ToU32(r.highest / 0x1_0000) == roc
  {
  }

  /** Narrowing the difference of the indices to 32 bits never loses information. */
  lemma NarrowDelta(r: Receiver, sn: u16)
    requires InRange(r) && (!r.started ==> r.highest == 0) && 0 <= IndexFor(r, sn)
    ensures var delta := IndexFor(r, sn) - r.highest;
            -0x8000 <= delta < 0x1_0000 && ToS32(ToU64(delta)) == delta
  {
    var delta := IndexFor(r, sn) - r.highest;
    assert -0x8000 <= delta < 0x1_0000;
    if delta < 0 {
      assert ToU64(delta) == delta + 0x1_0000_0000_0000_0000;
    }
  }

  /** The accepted index moves ROC and s_l to the maximum. */
  lemma AcceptedMaximum(r: Receiver, roc: u32, sL: u16, sn: u16)
    requires InRange(r)
    requires r.highest == if r.started then roc as int * 0x1_0000 + sL else 0
    requires !r.started ==> roc == 0 && sL == sn
    requires 0 <= IndexFor(r, sn)
    ensures var n := IndexFor(r, sn);
            && n / 0x1_0000 < 0x8000
            && match UpdateRocAndSl(roc, sL, n / 0x1_0000, sn)
               case None => false
               case Some(next) => next.0 as int * 0x1_0000 + next.1 == if r.started && n < r.highest then r.highest else n
  {
    UpdateKeepsMaximum(roc, sL, sn) by {
      if !r.started {
        assert Nearest(sL, sn) == sn;
      }
    }
    IndexIsMachineIndex(r, roc, sL, sn);
  }
}
