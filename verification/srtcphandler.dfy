/**
 The SRTCP crypto handler (srtpcryptohandlersrtcp.cpp) and whole runs of SRTCP.
 */
module SrtcpHandler {
  import opened Machine
  import opened Octets
  import opened Outcomes
  import opened CounterMode
  import opened InitVector
  import opened ReplayWindow
  import opened SrtpPacket
  import opened Srtcp

  const KSRTCPMasterKeysLifeTime := 0x7FFF_FFFF

  datatype Policy = Policy(protection: bool, window: int, lifeTime: nat)

  /** IndexReKeyCheckL: the index is the last one, or the key's life time is used up. */
  predicate ReKeyDue(stripped: u32, packets: nat, lifeTime: nat) {
    (ToU32(stripped + 1) % 0x8000_0000 == 0 && stripped != 0) || packets >= lifeTime
  }

  // ----- The simple sender: a counter modulo 2^31 -----

  datatype Sender = Sender(started: bool, stripped: u32, packets: nat)

  function NextIndex(s: Sender): (i: u32)
    ensures i < 0x8000_0000
  {
    if s.started then ToU32(s.stripped + 1) % 0x8000_0000 else 0
  }

  function ProtectStep(c: Context, s: Sender, plain: Bytes): (Sender, Result<Bytes>)
    requires c.Valid()
  {
    if RtcpHeaderLength(plain).Leave? then (s, Leave(RtcpHeaderLength(plain).error))
    else
      var r := ProtectRtcp(c, NextIndex(s), plain);
      if r.Leave? then (s.(stripped := NextIndex(s)), r)
      else (Sender(true, NextIndex(s), s.packets + 1), r)
  }

  // ----- The simple receiver: it remembers every index it took -----

  datatype Receiver = Receiver(stripped: u32, memory: Memory, packets: nat, reKey: bool)

  const LISTENING := Receiver(0, NOTHING, 0, false)

  predicate Fresh(policy: Policy, m: Memory, index: int) {
    policy.protection ==> index > m.top || (index > m.top - policy.window && index !in m.seen)
  }

  /** With the null cipher the receiver keeps the index it had. */
  function IndexOf(c: Context, r: Receiver, p: ParsedRtcp): u32 {
    if c.encAlg.AesCm? then StripEBit(p.word) else r.stripped
  }

  function MkiMatches(c: Context, p: ParsedRtcp): bool {
    |c.mki| > 0 ==> p.mki == c.mki
  }

  /** The step up to and including the replay check: the index, if the packet got that far. */
  function Admit(c: Context, policy: Policy, r: Receiver, p: ParsedRtcp): Result<u32> {
    if r.reKey then Leave(TooBig)
    else if !MkiMatches(c, p) then Leave(NotFound)
    else if !Fresh(policy, r.memory, IndexOf(c, r, p)) then Leave(Argument)
    else Ok(IndexOf(c, r, p))
  }

  function Outcome(c: Context, policy: Policy, r: Receiver, wire: Bytes): Result<Bytes>
    requires c.Valid()
  {
    match ParseRtcp(c, wire)
    case Leave(e) => Leave(e)
    case Ok(p) => match Admit(c, policy, r, p)
                  case Leave(e) => Leave(e)
                  case Ok(index) => OpenRtcp(c, index, wire, p)
  }

  function Counted(c: Context, policy: Policy, r: Receiver, p: ParsedRtcp): Receiver {
    if r.reKey then r
    else r.(stripped := IndexOf(c, r, p), reKey := ReKeyDue(IndexOf(c, r, p), r.packets, policy.lifeTime))
  }

  function AcceptedAt(policy: Policy, r: Receiver, index: int): Receiver {
    r.(packets := r.packets + 1, memory := if policy.protection then Remember(r.memory, policy.window, index) else r.memory)
  }

  function UnprotectStep(c: Context, policy: Policy, r: Receiver, wire: Bytes): Receiver
    requires c.Valid()
  {
    if ParseRtcp(c, wire).Leave? then r
    else
      var counted := Counted(c, policy, r, ParseRtcp(c, wire).value);
      if Outcome(c, policy, r, wire).Leave? then counted
      else AcceptedAt(policy, counted, counted.stripped)
  }

  predicate DroppedAfterCheck(c: Context, policy: Policy, r: Receiver, wire: Bytes)
    requires c.Valid()
  {
    && ParseRtcp(c, wire).Ok?
    && Admit(c, policy, r, ParseRtcp(c, wire).value).Ok?
    && Outcome(c, policy, r, wire).Leave?
  }

  // ----- The receiver as it is: it has the map, and a difference of 32 bits -----

  /** receiver.memory.seen is the history, which the code does not keep. */
  datatype Guarded = Guarded(receiver: Receiver, bits: Word64)

  /** The difference of the stripped index and the top is 64 bits wide and narrowed to a TInt. */
  function Delta(index: u32, top: int): s32 { ToS32(ToU64(index as int - top)) }

  /** Negating the smallest TInt is undefined in C++; it comes about only for a packet without the E bit and is
      an outcome of its own. */
  function AdmitByMap(c: Context, policy: Policy, g: Guarded, p: ParsedRtcp): (r: Result<u32>)
    requires policy.window <= 64
    ensures r.Ok? && policy.protection ==> -64 < Delta(r.value, g.receiver.memory.top)
  {
    var index := IndexOf(c, g.receiver, p);
    if g.receiver.reKey then Leave(TooBig)
    else if !MkiMatches(c, p) then Leave(NotFound)
    else if policy.protection && Delta(index, g.receiver.memory.top) == -0x8000_0000 then Leave(Panic)
    else if policy.protection && !Passes(g.bits, policy.window, Delta(index, g.receiver.memory.top)) then Leave(Argument)
    else Ok(index)
  }

  function OutcomeByMap(c: Context, policy: Policy, g: Guarded, wire: Bytes): Result<Bytes>
    requires c.Valid() && policy.window <= 64
  {
    match ParseRtcp(c, wire)
    case Leave(e) => Leave(e)
    case Ok(p) => match AdmitByMap(c, policy, g, p)
                  case Leave(e) => Leave(e)
                  case Ok(index) => OpenRtcp(c, index, wire, p)
  }

  function TakenAt(policy: Policy, r: Receiver, index: u32): Receiver {
    var m := r.memory;
    var top := if Delta(index, m.top) > 0 then index as int else m.top;
    r.(packets := r.packets + 1, memory := if policy.protection then Memory(m.seen + {index as int}, top) else m)
  }

  function StepByMap(c: Context, policy: Policy, g: Guarded, wire: Bytes): Guarded
    requires c.Valid() && policy.window <= 64
  {
    match ParseRtcp(c, wire)
    case Leave(_) => g
    case Ok(p) =>
      var counted := Counted(c, policy, g.receiver, p);
      match AdmitByMap(c, policy, g, p)
      case Leave(_) => Guarded(counted, g.bits)
      case Ok(index) =>
        var delta := Delta(index, g.receiver.memory.top);
        var checked := if policy.protection then Checked(g.bits, policy.window, delta) else g.bits;
        if OpenRtcp(c, index, wire, p).Leave? then Guarded(counted, checked)
        else Guarded(TakenAt(policy, counted, index), if policy.protection then Committed(checked, delta) else checked)
  }

  /** The index fields hold 31 bits, and the 64-bit map is the set of accepted indices. */
  ghost predicate MapIsMemory(policy: Policy, g: Guarded)
    requires policy.window <= 64
  {
    && g.receiver.stripped < 0x8000_0000 && 0 <= g.receiver.memory.top < 0x8000_0000
    && Represents(g.bits, policy.window, g.receiver.memory.top, g.receiver.memory.seen)
  }

  predicate HasEBit(c: Context, wire: Bytes)
    requires c.Valid()
  {
    c.encAlg.AesCm? && ParseRtcp(c, wire).Ok? ==> ParseRtcp(c, wire).value.word >= 0x8000_0000
  }

  /** The difference of 31-bit indices survives the narrowing to a TInt. */
  lemma NarrowExact(index: u32, top: int)
    requires index < 0x8000_0000 && 0 <= top < 0x8000_0000
    ensures Delta(index, top) == index as int - top
  {
    if index as int < top {
      assert ToU64(index as int - top) == index as int - top + 0x1_0000_0000_0000_0000;
    }
  }

  /** While the map is the memory, a packet with the E bit is treated as by the receiver that remembers
      every index, and the map is the memory again unless the packet was dropped after its check. */
  lemma MapRemembers(c: Context, policy: Policy, g: Guarded, wire: Bytes)
    requires c.Valid() && policy.window <= 64 && MapIsMemory(policy, g) && HasEBit(c, wire)
    ensures OutcomeByMap(c, policy, g, wire) == Outcome(c, policy, g.receiver, wire)
    ensures var after := StepByMap(c, policy, g, wire);
            && after.receiver == UnprotectStep(c, policy, g.receiver, wire)
            && if policy.protection && DroppedAfterCheck(c, policy, g.receiver, wire) then
                 after.bits == Checked(g.bits, policy.window, after.receiver.stripped as int - g.receiver.memory.top)
               else MapIsMemory(policy, after)
  {
    hide OpenRtcp, ParseRtcp, Represents, Passes, Checked, Committed, ReKeyDue, Delta, MkiMatches;
    if ParseRtcp(c, wire).Ok? {
      var index, m := IndexOf(c, g.receiver, ParseRtcp(c, wire).value), g.receiver.memory;
      NarrowExact(index, m.top);
      CheckThenCommit(g.bits, policy.window, m.top, m.seen, index as int - m.top);
      assert m.top + (index as int - m.top) == index;
    }
  }

  lemma TagOf(c: Context, portion: Bytes)
    requires c.Valid()
    ensures RtcpTag(c, portion) == if c.tagBits > 0 then c.hmac(c.authKey, portion)[..c.tagBits / 8] else []
  {
  }

  lemma ProtectedWith(c: Context, index: u32, plain: Bytes)
    requires c.Valid() && RtcpHeaderLength(plain).Ok? && index < 0x8000_0000
    ensures var h := RtcpHeaderLength(plain).value;
            ProtectRtcp(c, index, plain) ==
            match Transform(c, index, plain[h..])
            case Leave(e) => Leave(e)
            case Ok(text) =>
              var portion := plain[..h] + text + Write32(IndexWord(c, index));
              Ok(portion + c.mki + RtcpTag(c, portion))
    ensures IndexWord(c, index) == if c.encAlg.AesCm? then E_BIT + index else index
  {
    hide RtcpHeaderLength, Transform, RtcpTag, Write32;
  }

  // ----- CSRTPCryptoHandlerSRTCP -----

  class CryptoHandlerSrtcp {
    const context: Context
    const policy: Policy
    const cipher: AesCtrCrypto
    const window: ReplayBitmap
    var srtcpIndex: u32
    var stripped: u32
    var replayIndexDelta: s32
    var replayPktIndex: u64
    var numPackets: nat
    var reKey: bool
    /** The stream has left its uninitialised state. */
    var started: bool

    ghost var seen: set<int>

    constructor (context: Context, protection: bool, windowSizeHint: int, masterKeysLifeTime: u64)
      requires context.Valid() && windowSizeHint <= 64
      ensures HandlerOk() && MapIsMemory(policy, AsGuarded()) && this.context == context
      ensures policy == Policy(protection, windowSizeHint,
                               if masterKeysLifeTime == 0 || masterKeysLifeTime > KSRTCPMasterKeysLifeTime
                               then KSRTCPMasterKeysLifeTime else masterKeysLifeTime)
      ensures AsSender() == Sender(false, 0, 0) && AsReceiver() == LISTENING
      ensures fresh(window) && fresh(cipher)
    {
      this.context := context;
      cipher := new AesCtrCrypto(context.aes);
      window := new ReplayBitmap(windowSizeHint);
      var lifeTime := masterKeysLifeTime;
      if lifeTime == 0 || lifeTime > KSRTCPMasterKeysLifeTime {
        lifeTime := KSRTCPMasterKeysLifeTime;
      }
      policy := Policy(protection, windowSizeHint, lifeTime);
      srtcpIndex, stripped, replayIndexDelta, replayPktIndex, numPackets := 0, 0, 0, 0, 0;
      reKey, started, seen := false, false, {};
    }

    ghost predicate HandlerOk()
      reads this, window, cipher
    {
      && context.Valid()
      && cipher.Valid() && cipher.aes == context.aes
      && window.windowSizeHint == policy.window <= 64
    }

    ghost function AsSender(): Sender
      reads this
    {
      Sender(started, stripped, numPackets)
    }

    ghost function AsReceiver(): Receiver
      reads this
    {
      Receiver(stripped, Memory(seen, replayPktIndex), numPackets, reKey)
    }

    ghost function AsGuarded(): Guarded
      reads this, window
    {
      Guarded(AsReceiver(), window.bitmap)
    }

    method IndexReKeyCheckL()
      modifies this`reKey
      ensures reKey == (old(reKey) || ReKeyDue(stripped, numPackets, policy.lifeTime))
    {
      var remainder := ToU32(stripped + 1) % 0x8000_0000;
      if remainder == 0 && stripped != 0 {
        reKey := true;
      }
      if numPackets >= policy.lifeTime {
        reKey := true;
      }
    }

    method StripEBitL()
      modifies this`stripped
      ensures stripped == StripEBit(srtcpIndex)
    {
      stripped := if srtcpIndex >= 0x8000_0000 then srtcpIndex - 0x8000_0000 else srtcpIndex + 0x8000_0000;
    }

    // ----- Sending -----

    /** The first packet: the E bit alone, so index 0. */
    method InitialPacketIndex()
      modifies this`srtcpIndex, this`stripped
      ensures stripped == 0 && srtcpIndex == E_BIT
    {
      srtcpIndex := E_BIT;
      StripEBitL();
      srtcpIndex := srtcpIndex + stripped;
    }

    method CountSenderPacketIndexL()
      modifies this`srtcpIndex, this`stripped, this`reKey
      ensures stripped == ToU32(old(stripped) + 1) % 0x8000_0000
      ensures srtcpIndex == IndexWord(context, stripped)
    {
      stripped := ToU32(stripped + 1) % 0x8000_0000;
      srtcpIndex := 0;
      if context.encAlg != NullCipher {
        srtcpIndex := E_BIT;
      }
      srtcpIndex := srtcpIndex + stripped;
      IndexReKeyCheckL();
    }

    method CountIVAndTransformL(payload: Bytes) returns (r: Result<Bytes>)
      requires HandlerOk()
      modifies cipher
      ensures HandlerOk()
      ensures r == Transform(context, stripped, payload)
    {
      if context.encAlg.NullCipher? {
        return Ok(payload);
      }
      var iv := CountIV(context.salt, context.ssrc, stripped);
      r := cipher.EncryptL(context.encKey, iv, payload);
    }

    /** EncryptL: the buffer is filled front to back. */
    method EncryptL(plain: Bytes, headerLength: nat) returns (r: Result<Bytes>)
      requires HandlerOk() && RtcpHeaderLength(plain) == Ok(headerLength)
      requires stripped < 0x8000_0000
      requires context.encAlg.AesCm? ==> srtcpIndex == E_BIT + stripped
      modifies cipher, this`numPackets
      ensures HandlerOk()
      ensures r == ProtectRtcp(context, stripped, plain)
      ensures numPackets == old(numPackets) + if r.Ok? then 1 else 0
    {
      hide RtcpHeaderLength, Transform, Write32, ProtectRtcp, IndexWord, RtcpTag;
      ProtectedWith(context, stripped, plain);
      var payload := plain[headerLength..];
      r := CountIVAndTransformL(payload);
      if r.Leave? {
        return;
      }
      TransformTwice(context, stripped, payload);
      var buffer := CopyTextAndIndex(plain, headerLength, r.value);
      ghost var portion := plain[..headerLength] + r.value + Write32(IndexWord(context, stripped));
      var at := |plain| + 4;
      // AddMKIToPacket
      Put(buffer, at, context.mki);
      at := at + |context.mki|;
      // AddAuthTagToPacketL
      TagOf(context, portion);
      if context.tagBits > 0 {
        assert buffer[..|plain| + 4] == buffer[..at][..|plain| + 4] == portion;
        var tag := context.hmac(context.authKey, buffer[..|plain| + 4])[..context.tagBits / 8];
        Put(buffer, at, tag);
      }
      assert buffer[..] == portion + context.mki + RtcpTag(context, portion);
      numPackets := numPackets + 1;
      return Ok(buffer[..]);
    }

    /** CreateEncryptedPacketL and AddEflagAndSrtcpIndex: a buffer for the whole packet, filled
        up to the index. */
    method CopyTextAndIndex(plain: Bytes, headerLength: nat, text: Bytes) returns (buffer: array<Octet>)
      requires context.Valid() && headerLength <= |plain| && |text| == |plain| - headerLength && stripped < 0x8000_0000
      requires context.encAlg.AesCm? ==> srtcpIndex == E_BIT + stripped
      ensures fresh(buffer) && buffer.Length == |plain| + 4 + |context.mki| + context.TagOctets()
      ensures buffer[..|plain| + 4] == plain[..headerLength] + text + Write32(IndexWord(context, stripped))
    {
      hide Write32;
      var tagLength := if context.authAlg.HmacSha1? then context.tagBits / 8 else 0;
      buffer := new Octet[|plain| + 4 + |context.mki| + tagLength](_ => 0);
      Put(buffer, 0, plain[..headerLength]);
      Put(buffer, headerLength, text);
      Put(buffer, |plain|, Write32(if context.encAlg != NullCipher then srtcpIndex else stripped));
    }

    /** Mem::Copy: everything before the copied octets stays. */
    static method Put(buffer: array<Octet>, at: nat, data: Bytes)
      requires at + |data| <= buffer.Length
      modifies buffer
      ensures buffer[..at + |data|] == old(buffer[..at]) + data
    {
      forall i | 0 <= i < |data| {
        buffer[at + i] := data[i];
      }
    }

    /** Protecting refines the counter modulo 2^31. */
    method DoProtectRtcpL(plain: Bytes) returns (r: Result<Bytes>)
      requires HandlerOk()
      modifies this`srtcpIndex, this`stripped, this`reKey, this`numPackets, this`started, cipher
      ensures HandlerOk()
      ensures (AsSender(), r) == ProtectStep(context, old(AsSender()), plain)
    {
      hide RtcpHeaderLength, ProtectRtcp;
      var header := RtcpHeaderLength(plain);
      if header.Leave? {
        return Leave(header.error);
      }
      if started {
        CountSenderPacketIndexL();
      } else {
        InitialPacketIndex();
      }
      r := EncryptL(plain, header.value);
      if r.Ok? {
        started := true;
      }
    }

    // ----- Receiving -----

    method ReceiverPacketIndexL(p: ParsedRtcp) returns (r: Result<()>)
      modifies this`srtcpIndex, this`stripped, this`reKey
      ensures r == if old(reKey) then Leave(TooBig) else Ok(())
      ensures AsReceiver() == Counted(context, policy, old(AsReceiver()), p)
    {
      if reKey {
        return Leave(TooBig);
      }
      srtcpIndex := p.word;
      if context.encAlg != NullCipher {
        StripEBitL();
      }
      IndexReKeyCheckL();
      return Ok(());
    }

    method ReplayProtectionL() returns (r: Result<()>)
      requires window.windowSizeHint <= 64
      modifies this`replayIndexDelta, window
      ensures !policy.protection ==> r == Ok(()) && window.bitmap == old(window.bitmap)
      ensures policy.protection ==>
                var delta := Delta(stripped, replayPktIndex);
                if delta == -0x8000_0000 then r == Leave(Panic) && window.bitmap == old(window.bitmap)
                else
                  && window.bitmap == Checked(old(window.bitmap), window.windowSizeHint, delta)
                  && r == (if Passes(old(window.bitmap), window.windowSizeHint, delta) then Ok(()) else Leave(Argument))
                  && (r.Ok? ==> replayIndexDelta == delta)
    {
      hide Passes, Checked, ToU64, ToS32;
      if policy.protection {
        var delta := ToS32(ToU64(stripped as int - replayPktIndex));
        if delta == -0x8000_0000 {
          return Leave(Panic);
        }
        var ok := window.ReplayCheck(delta);
        if !ok {
          return Leave(Argument);
        }
        replayIndexDelta := delta;
      }
      return Ok(());
    }

    method AddReplayIndex()
      requires policy.protection ==> -64 < replayIndexDelta
      modifies this`replayPktIndex, this`numPackets, window
      ensures numPackets == old(numPackets) + 1
      ensures policy.protection ==>
                && window.bitmap == Committed(old(window.bitmap), replayIndexDelta)
                && replayPktIndex == if replayIndexDelta > 0 then stripped else old(replayPktIndex)
      ensures !policy.protection ==> replayPktIndex == old(replayPktIndex) && window.bitmap == old(window.bitmap)
    {
      if policy.protection {
        if replayIndexDelta > 0 {
          replayPktIndex := stripped;
        } else {
          window.MarkSeen(replayIndexDelta);
        }
      }
      numPackets := numPackets + 1;
    }

    /** AuthenticateL and DecryptL */
    method OpenL(wire: Bytes, p: ParsedRtcp) returns (r: Result<Bytes>)
      requires HandlerOk() && p.header + p.payload + 4 <= |wire|
      modifies cipher
      ensures HandlerOk()
      ensures r == OpenRtcp(context, stripped, wire, p)
    {
      if !context.authAlg.AuthNull? && |p.tag| == 0 {
        return Leave(NotFound);
      }
      if |p.tag| > 0 {
        var calculated := RtcpTag(context, wire[..p.header + p.payload + 4]);
        if p.tag != calculated {
          return Leave(NotFound);
        }
      }
      r := CountIVAndTransformL(wire[p.header..p.header + p.payload]);
      if r.Leave? {
        return;
      }
      return Ok(wire[..p.header] + r.value);
    }

    /**
     Unprotecting, from every state the handler can be in and for packets with and without the E bit:
     the outcome and the new state are the map's.  A packet that fails after the replay check leaves
     the map as the check left it.  While the map is the set of accepted indices, packets with the E
     bit are treated as by the receiver that remembers those.
     */
    method DoUnprotectSrtcpL(wire: Bytes) returns (r: Result<Bytes>)
      requires HandlerOk()
      modifies this, window, cipher
      ensures HandlerOk()
      ensures r == OutcomeByMap(context, policy, old(AsGuarded()), wire)
      ensures AsGuarded() == StepByMap(context, policy, old(AsGuarded()), wire)
      ensures old(MapIsMemory(policy, AsGuarded())) && HasEBit(context, wire) ==>
                && r == Outcome(context, policy, old(AsReceiver()), wire)
                && AsReceiver() == UnprotectStep(context, policy, old(AsReceiver()), wire)
                && if policy.protection && DroppedAfterCheck(context, policy, old(AsReceiver()), wire) then
                     window.bitmap == Checked(old(window.bitmap), policy.window, stripped as int - old(replayPktIndex))
                   else MapIsMemory(policy, AsGuarded())
    {
      ghost var g := AsGuarded();
      r := UnprotectByMapL(wire);
      if MapIsMemory(policy, g) && HasEBit(context, wire) {
        hide OutcomeByMap, StepByMap, MapIsMemory, HasEBit, Outcome, UnprotectStep, DroppedAfterCheck, Checked;
        MapRemembers(context, policy, g, wire);
      }
    }

    /** The steps of DoUnprotectSrtcpL. */
    method UnprotectByMapL(wire: Bytes) returns (r: Result<Bytes>)
      requires HandlerOk()
      modifies this, window, cipher
      ensures HandlerOk()
      ensures r == OutcomeByMap(context, policy, old(AsGuarded()), wire)
      ensures AsGuarded() == StepByMap(context, policy, old(AsGuarded()), wire)
    {
      hide OpenRtcp, ParseRtcp, Passes, Checked, Committed, ReKeyDue, Delta;
      ghost var g := AsGuarded();
      var parsed := ParseRtcp(context, wire);
      if parsed.Leave? {
        return Leave(parsed.error);
      }
      var p := parsed.value;
      var counted := ReceiverPacketIndexL(p);
      if counted.Leave? {
        return Leave(counted.error);
      }
      if |context.mki| > 0 && p.mki != context.mki {
        return Leave(NotFound);
      }
      PassesOrStays(g.bits, policy.window, Delta(stripped, replayPktIndex));
      var checked := ReplayProtectionL();
      if checked.Leave? {
        return Leave(checked.error);
      }
      r := OpenL(wire, p);
      if r.Leave? {
        return;
      }
      AddReplayIndex();
      started := true;
      if policy.protection {
        seen := seen + {stripped as int};
      }
    }
  }

  // ----- Whole runs -----

  datatype Sent = Sent(plain: Bytes, wire: Bytes)

  datatype System = System(sender: Sender, sent: seq<Sent>, receiver: Receiver, log: seq<nat>, plains: seq<Bytes>)

  datatype Step = Send(plain: Bytes) | Deliver(position: nat)

  datatype Stream = Stream(context: Context, policy: Policy)

  const INITIAL := System(Sender(false, 0, 0), [], LISTENING, [], [])

  /** Any packet ever sent may be delivered, at any time and any number of times. */
  predicate Allowed(t: Stream, s: System, step: Step)
    requires t.context.Valid()
  {
    match step
    case Send(plain) => ProtectStep(t.context, s.sender, plain).1.Ok?
    case Deliver(position) => position < |s.sent|
  }

  function Apply(t: Stream, s: System, step: Step): System
    requires t.context.Valid() && Allowed(t, s, step)
  {
    match step
    case Send(plain) =>
      var (sender, r) := ProtectStep(t.context, s.sender, plain);
      s.(sender := sender, sent := s.sent + [Sent(plain, r.value)])
    case Deliver(position) =>
      var wire := s.sent[position].wire;
      var r := Outcome(t.context, t.policy, s.receiver, wire);
      var receiver := UnprotectStep(t.context, t.policy, s.receiver, wire);
      if r.Leave? then s.(receiver := receiver)
      else s.(receiver := receiver, log := s.log + [position], plains := s.plains + [r.value])
  }

  /** Any sequence of steps; a step that is not allowed does nothing. */
  function Run(t: Stream, steps: seq<Step>): System
    requires t.context.Valid()
    decreases |steps|
  {
    if steps == [] then INITIAL
    else
      var s := Run(t, steps[..|steps| - 1]);
      if Allowed(t, s, steps[|steps| - 1]) then Apply(t, s, steps[|steps| - 1]) else s
  }

  ghost predicate SenderInv(t: Stream, s: System)
    requires t.context.Valid()
  {
    && s.sender.packets == |s.sent|
    && (s.sender.started <==> s.sent != [])
    && (s.sender.started ==> s.sender.stripped == (|s.sent| - 1) % 0x8000_0000)
    && (forall k | 0 <= k < |s.sent| ::
          ProtectRtcp(t.context, k % 0x8000_0000, s.sent[k].plain) == Ok(s.sent[k].wire))
  }

  /** If the padding bit is set, the last octet of the protected packet, taken for a padding count, leaves the
      room the length field asks for. */
  predicate PaddingFits(sent: Sent) {
    IsPadded(sent.plain) && |sent.plain| >= 4 && sent.wire != [] ==>
      4 * Read16(sent.plain, 2) as int <= |sent.wire| - sent.wire[|sent.wire| - 1]
  }

  /** For an encrypted stream: what was taken is what was sent, and the memory is the log. */
  ghost predicate ReceiverInv(t: Stream, s: System) {
    && |s.plains| == |s.log| == s.receiver.packets
    && (forall k | 0 <= k < |s.log| :: s.log[k] < |s.sent| && s.plains[k] == s.sent[s.log[k]].plain)
    && (t.policy.protection ==>
          && (forall i | i in s.receiver.memory.seen ::
                i <= s.receiver.memory.top && exists k :: 0 <= k < |s.log| && s.log[k] % 0x8000_0000 == i)
          && (forall k | 0 <= k < |s.log| :: s.log[k] % 0x8000_0000 in s.receiver.memory.seen)
          && (forall j, k | 0 <= j < k < |s.log| :: s.log[j] % 0x8000_0000 != s.log[k] % 0x8000_0000))
  }

  ghost predicate Inv(t: Stream, s: System)
    requires t.context.Valid()
  {
    SenderInv(t, s) && (t.context.encAlg.AesCm? ==> ReceiverInv(t, s))
  }

  lemma SendKeepsSender(t: Stream, s: System, plain: Bytes)
    requires t.context.Valid() && SenderInv(t, s) && Allowed(t, s, Send(plain))
    ensures SenderInv(t, Apply(t, s, Send(plain)))
  {
    NextIndexCounts(t, s);
    hide ProtectRtcp, RtcpHeaderLength, NextIndex;
  }

  lemma NextIndexCounts(t: Stream, s: System)
    requires t.context.Valid() && SenderInv(t, s)
    ensures NextIndex(s.sender) == |s.sent| % 0x8000_0000
  {
    hide ProtectRtcp;
  }

  lemma SendKeepsInv(t: Stream, s: System, plain: Bytes)
    requires t.context.Valid() && Inv(t, s) && Allowed(t, s, Send(plain))
    ensures Inv(t, Apply(t, s, Send(plain)))
  {
    hide ProtectStep, SenderInv, ReceiverInv;
    SendKeepsSender(t, s, plain);
    if t.context.encAlg.AesCm? {
      SendingKeepsReceiver(t, s, Apply(t, s, Send(plain)));
    }
  }

  lemma SendingKeepsReceiver(t: Stream, s: System, s': System)
    requires ReceiverInv(t, s) && s'.receiver == s.receiver && s'.log == s.log && s'.plains == s.plains
    requires |s.sent| < |s'.sent| && s'.sent[..|s.sent|] == s.sent
    ensures ReceiverInv(t, s')
  {
    assert forall k | 0 <= k < |s.sent| :: s'.sent[k] == s'.sent[..|s.sent|][k];
  }

  /** What delivering the packet at a position does. */
  lemma DeliverOutcome(t: Stream, s: System, position: nat)
    requires t.context.Valid() && t.context.encAlg.AesCm?
    requires SenderInv(t, s) && Allowed(t, s, Deliver(position))
    ensures var index, wire := position % 0x8000_0000, s.sent[position].wire;
            && (ParseRtcp(t.context, wire).Ok? <==> PaddingFits(s.sent[position]))
            && (PaddingFits(s.sent[position]) ==>
                  && IndexOf(t.context, s.receiver, ParseRtcp(t.context, wire).value) == index
                  && Outcome(t.context, t.policy, s.receiver, wire) ==
                     if s.receiver.reKey then Leave(TooBig)
                     else if t.context.mki == KMKINULL then Leave(NotFound)
                     else if !Fresh(t.policy, s.receiver.memory, index) then Leave(Argument)
                     else Ok(s.sent[position].plain))
            && (!PaddingFits(s.sent[position]) ==> Outcome(t.context, t.policy, s.receiver, wire).Leave?)
  {
    hide ProtectRtcp, ParseRtcp, OpenRtcp, Fresh, StripEBit, Read16, IsPadded;
    ProtectedSize(t.context, position % 0x8000_0000, s.sent[position].plain);
    RtcpRoundTrip(t.context, position % 0x8000_0000, s.sent[position].plain);
  }

  lemma ProtectedSize(c: Context, index: u32, plain: Bytes)
    requires c.Valid() && index < 0x8000_0000 && ProtectRtcp(c, index, plain).Ok?
    ensures |plain| >= 4 && ProtectRtcp(c, index, plain).value != []
  {
    hide Transform, RtcpTag, Write32;
  }

  lemma DeliverKeepsInv(t: Stream, s: System, position: nat)
    requires t.context.Valid() && Inv(t, s) && Allowed(t, s, Deliver(position))
    ensures Inv(t, Apply(t, s, Deliver(position)))
  {
    hide ProtectRtcp, ParseRtcp, OpenRtcp, IndexOf, Admit, PaddingFits;
    var s' := Apply(t, s, Deliver(position));
    if t.context.encAlg.AesCm? {
      DeliverOutcome(t, s, position);
      if t.policy.protection && s'.log != s.log {
        var seen := s.receiver.memory.seen;
        assert s'.receiver.memory.seen == seen + {position % 0x8000_0000};
        assert s'.log[|s.log|] % 0x8000_0000 == position % 0x8000_0000;
        forall i | i in s'.receiver.memory.seen
          ensures exists k :: 0 <= k < |s'.log| && s'.log[k] % 0x8000_0000 == i
        {
          if i in seen {
            var k :| 0 <= k < |s.log| && s.log[k] % 0x8000_0000 == i;
            assert s'.log[k] == s.log[k];
          }
        }
      }
    }
  }

  lemma StepKeepsInv(t: Stream, s: System, step: Step)
    requires t.context.Valid() && Inv(t, s) && Allowed(t, s, step)
    ensures Inv(t, Apply(t, s, step))
  {
    hide Inv, Apply, Allowed;
    match step {
      case Send(plain) => SendKeepsInv(t, s, plain);
      case Deliver(position) => DeliverKeepsInv(t, s, position);
    }
  }

  lemma InitialInv(t: Stream)
    requires t.context.Valid()
    ensures Inv(t, INITIAL)
  {
  }

  lemma {:induction false} RunKeepsInv(t: Stream, steps: seq<Step>)
    requires t.context.Valid()
    ensures Inv(t, Run(t, steps))
    decreases |steps|
  {
    hide Inv, Apply, Allowed;
    InitialInv(t);
    if steps != [] {
      var s, step := Run(t, steps[..|steps| - 1]), steps[|steps| - 1];
      RunKeepsInv(t, steps[..|steps| - 1]);
      if Allowed(t, s, step) {
        StepKeepsInv(t, s, step);
      }
    }
  }

  /** Safety over every run of an encrypted SRTCP stream in which the network loses, repeats and reorders
      packets as it likes but puts none in: what is handed on is what was sent, and with replay
      protection no index is handed on twice, so within 2^31 packets no packet is.  What packets put in
      can do is in SrtcpInjection. */
  lemma DeliveredExactlyWhatWasSent(t: Stream, steps: seq<Step>)
    requires t.context.Valid() && t.context.encAlg.AesCm?
    ensures var s := Run(t, steps);
            && |s.plains| == |s.log|
            && (forall k | 0 <= k < |s.log| :: s.log[k] < |s.sent| && s.plains[k] == s.sent[s.log[k]].plain)
            && (t.policy.protection ==> forall j, k | 0 <= j < k < |s.log| :: s.log[j] % 0x8000_0000 != s.log[k] % 0x8000_0000)
  {
    hide Run, ProtectRtcp;
    RunKeepsInv(t, steps);
  }

  /** In the same runs, a delivered packet is handed on exactly when re-keying is not due, the MKI can be
      recognised, its padding passes and, with replay protection, its index is ahead of everything taken or
      untaken inside the window. */
  lemma AcceptedExactlyWhenNew(t: Stream, steps: seq<Step>, position: nat)
    requires t.context.Valid() && t.context.encAlg.AesCm?
    requires Allowed(t, Run(t, steps), Deliver(position))
    ensures var s, index := Run(t, steps), position % 0x8000_0000;
            Apply(t, s, Deliver(position)).log != s.log <==>
            && !s.receiver.reKey && t.context.mki != KMKINULL && PaddingFits(s.sent[position])
            && (t.policy.protection ==>
                  index > s.receiver.memory.top ||
                  (index > s.receiver.memory.top - t.policy.window &&
                   forall k | 0 <= k < |s.log| :: s.log[k] % 0x8000_0000 != index))
  {
    hide Run, Allowed, ProtectRtcp, ParseRtcp, OpenRtcp, UnprotectStep, PaddingFits;
    RunKeepsInv(t, steps);
    DeliverOutcome(t, Run(t, steps), position);
  }

  /** The n-th packet has index n modulo 2^31, whatever came before. */
  lemma SenderCounts(t: Stream, steps: seq<Step>, n: nat)
    requires t.context.Valid() && n < |Run(t, steps).sent|
    ensures ProtectRtcp(t.context, n % 0x8000_0000, Run(t, steps).sent[n].plain) == Ok(Run(t, steps).sent[n].wire)
  {
    hide Run, ProtectRtcp;
    RunKeepsInv(t, steps);
  }

  // ----- The life time of a key -----

  ghost predicate CountInv(t: Stream, s: System) {
    && s.receiver.packets == |s.log|
    && s.receiver.packets <= t.policy.lifeTime + 1
    && (s.receiver.packets == t.policy.lifeTime + 1 ==> s.receiver.reKey)
  }

  lemma StepKeepsCount(t: Stream, s: System, step: Step)
    requires t.context.Valid() && CountInv(t, s) && Allowed(t, s, step)
    ensures CountInv(t, Apply(t, s, step))
  {
    hide ProtectRtcp, ParseRtcp, OpenRtcp, RtcpHeaderLength, MkiMatches, Fresh, IndexOf;
  }

  /** In every run, encrypted or not, the receiver hands on at most one packet more than the key's life
      time, and none after that. */
  lemma {:induction false} ReceiverKeyLifeTime(t: Stream, steps: seq<Step>)
    requires t.context.Valid()
    ensures var s := Run(t, steps);
            && |s.log| <= t.policy.lifeTime + 1 && (|s.log| == t.policy.lifeTime + 1 ==> s.receiver.reKey)
            && CountInv(t, s)
    decreases |steps|
  {
    hide Allowed, Apply;
    if steps != [] {
      var s, step := Run(t, steps[..|steps| - 1]), steps[|steps| - 1];
      ReceiverKeyLifeTime(t, steps[..|steps| - 1]);
      if Allowed(t, s, step) {
        StepKeepsCount(t, s, step);
      }
    }
  }

  /** The sender refuses no packet for its key's age: after any run, the next one is protected with the
      next index modulo 2^31, whatever the life time. */
  lemma SenderNeverStops(t: Stream, steps: seq<Step>, plain: Bytes)
    requires t.context.Valid()
    ensures var s := Run(t, steps);
            ProtectStep(t.context, s.sender, plain).1 == ProtectRtcp(t.context, |s.sent| % 0x8000_0000, plain)
  {
    hide Run, RtcpHeaderLength, Transform, RtcpTag;
    RunKeepsInv(t, steps);
    assert NextIndex(Run(t, steps).sender) == |Run(t, steps).sent| % 0x8000_0000;
  }

  /** A counter block of the packet at a position. */
  function BlockAt(t: Stream, position: nat, b: nat): Block
    requires t.context.Valid()
  {
    Counter(CountIV(t.context.salt, t.context.ssrc, position % 0x8000_0000), b)
  }

  /** No counter block serves two packets. */
  ghost predicate BlocksDistinct(t: Stream, packets: nat)
    requires t.context.Valid()
  {
    forall p, a, q, b | 0 <= p < q < packets && 0 <= a < 0x1_0000 && 0 <= b < 0x1_0000 ::
      BlockAt(t, p, a) != BlockAt(t, q, b)
  }

  /** The key stream blocks of a run are distinct exactly while at most 2^31 packets were sent. */
  lemma KeystreamDistinctExactly(t: Stream, steps: seq<Step>)
    requires t.context.Valid()
    ensures BlocksDistinct(t, |Run(t, steps).sent|) <==> |Run(t, steps).sent| <= 0x8000_0000
  {
    hide Run, BlockAt;
    var packets := |Run(t, steps).sent|;
    if packets <= 0x8000_0000 {
      forall p, a, q, b | 0 <= p < q < packets && 0 <= a < 0x1_0000 && 0 <= b < 0x1_0000
        ensures BlockAt(t, p, a) != BlockAt(t, q, b)
      {
        SameBlock(t, p, a, q, b);
      }
    } else {
      SameBlock(t, 0, 0, 0x8000_0000, 0);
      assert BlockAt(t, 0, 0) == BlockAt(t, 0x8000_0000, 0);
    }
  }

  lemma SameBlock(t: Stream, p: nat, a: nat, q: nat, b: nat)
    requires t.context.Valid() && a < 0x1_0000 && b < 0x1_0000
    ensures BlockAt(t, p, a) == BlockAt(t, q, b) <==> p % 0x8000_0000 == q % 0x8000_0000 && a == b
  {
    hide CountIV, Counter;
    CounterBlocksNeverMeet(t.context.salt, t.context.ssrc, p % 0x8000_0000, a, q % 0x8000_0000, b);
  }

  // ----- The null cipher -----

  ghost predicate StuckInv(s: System) {
    && s.receiver.stripped == 0 && s.receiver.memory.top == 0
    && s.receiver.packets == |s.log|
    && s.receiver.memory.seen == (if s.log == [] then {} else {0})
    && |s.log| <= 1
  }

  lemma StepKeepsStuck(t: Stream, s: System, step: Step)
    requires t.context.Valid() && t.context.encAlg.NullCipher? && t.policy.protection
    requires StuckInv(s) && Allowed(t, s, step)
    ensures StuckInv(Apply(t, s, step))
  {
    hide ProtectRtcp, ParseRtcp, OpenRtcp, RtcpHeaderLength, MkiMatches;
  }

  /** With the null cipher the receiver never reads the index from the packet, so with replay
      protection on it hands on at most one packet of every run. */
  lemma {:induction false} NullCipherTakesOnePacket(t: Stream, steps: seq<Step>)
    requires t.context.Valid() && t.context.encAlg.NullCipher? && t.policy.protection
    ensures |Run(t, steps).log| <= 1 && StuckInv(Run(t, steps))
    decreases |steps|
  {
    hide Allowed, Apply;
    if steps != [] {
      var s, step := Run(t, steps[..|steps| - 1]), steps[|steps| - 1];
      NullCipherTakesOnePacket(t, steps[..|steps| - 1]);
      if Allowed(t, s, step) {
        StepKeepsStuck(t, s, step);
      }
    }
  }
}
