/**
 The packet object (rtppacket.cpp): one fixed buffer, the size of the packet in it, and a cursor that
 building and parsing move along.  Octets are written and read in place.
 */
module RtpPackets {
  import opened Outcomes
  import opened Machine
  import opened Octets
  import opened RtpLayout
  import opened RtcpLayout
  import opened Reception
  import opened TranStream

  /** Some octets of a buffer replaced. */
  function Patched(b: Bytes, at: nat, x: Bytes): (r: Bytes)
    requires at + |x| <= |b|
    ensures |r| == |b|
  {
    b[..at] + x + b[at + |x|..]
  }

  /** The octets of a packet's buffer, or that something was written outside it: the code never looks
      whether there is room, and nothing is said of the octets then. */
  datatype Buffer = Intact(octets: Bytes) | Overrun

  /** Octets written at a position; none are written nowhere. */
  function PutAt(m: Buffer, at: nat, x: Bytes): (r: Buffer)
    ensures r.Intact? <==> m.Intact? && (x == [] || at + |x| <= |m.octets|)
  {
    if x == [] || m.Overrun? then m
    else if at + |x| > |m.octets| then Overrun
    else Intact(Patched(m.octets, at, x))
  }

  /** Octets behind those just written. */
  lemma PutTwice(m: Buffer, at: nat, x: Bytes, y: Bytes)
    ensures PutAt(PutAt(m, at, x), at + |x|, y) == PutAt(m, at, x + y)
  {
    if x == [] {
      assert x + y == y;
    } else if y == [] {
      assert x + y == x;
    } else if m.Intact? && at + |x| + |y| <= |m.octets| {
      PatchedTwice(m.octets, at, x, y);
    }
  }

  lemma PutPrefix(m: Buffer, x: Bytes)
    requires PutAt(m, 0, x).Intact?
    ensures |x| <= |PutAt(m, 0, x).octets| && PutAt(m, 0, x).octets[..|x|] == x
  {
  }

  lemma PatchedTwice(b: Bytes, at: nat, x: Bytes, y: Bytes)
    requires at + |x| + |y| <= |b|
    ensures Patched(Patched(b, at, x), at + |x|, y) == Patched(b, at, x + y)
  {
  }

  lemma PatchedNothing(b: Bytes, at: nat, octets: Bytes)
    requires at <= |b|
    ensures Patched(b, at, octets[..0]) == b
  {
  }

  lemma PatchedOne(b: Bytes, at: nat, octets: Bytes, i: nat)
    requires at + |octets| <= |b| && i < |octets|
    ensures Patched(b, at, octets[..i])[at + i := octets[i]] == Patched(b, at, octets[..i + 1])
  {
    assert octets[..i + 1] == octets[..i] + [octets[i]];
  }

  /** A word count in a signed 16-bit variable. */
  function Narrowed(n: int): int {
    if n % 0x1_0000 < 0x8000 then n % 0x1_0000 else n % 0x1_0000 - 0x1_0000
  }

  lemma NarrowedTwice(n: int)
    ensures Narrowed(Narrowed(n) + 1) == Narrowed(n + 1)
  {
    var d := if n % 0x1_0000 < 0x8000 then n / 0x1_0000 else n / 0x1_0000 + 1;
    assert Narrowed(n) == n - 0x1_0000 * d;
    assert (Narrowed(n) + 1) % 0x1_0000 == (n + 1) % 0x1_0000;
  }

  lemma NarrowedWords(octets: nat)
    ensures Words16(octets) == if octets % 4 == 0 then Narrowed(octets / 4) else Narrowed(Narrowed(octets / 4) + 1)
  {
    assert Words(octets) == if octets % 4 == 0 then octets / 4 else octets / 4 + 1;
    hide Words;
    NarrowedTwice(octets / 4);
  }

  /** The cut extension has as many words as were counted. */
  lemma CutWords(p: RtpLayout.RtpPacket)
    requires p.extension.Some?
    ensures var e, cut, w := p.extension.value, Cut(p).extension, Words16(|p.extension.value.data|);
            && cut.Some? && cut.value.kind == e.kind
            && (w >= 0 ==>
                  && w <= Words(|e.data|) && Words(|cut.value.data|) == w && w % 0x1_0000 == w
                  && cut.value.data == if 4 * w < |e.data| then e.data[..4 * w] else e.data)
            && (p.Buildable() ==> |e.data| <= 4 * w)
  {
  }

  /** What the builder writes for an extension: all of its data, though the payload goes behind the words
      counted; nothing for no words. */
  function Spilled(data: Bytes, words: nat): Bytes {
    if words == 0 then [] else if |data| < 4 * words then data + Zeros(4 * words - |data|) else data
  }

  function ExtensionOctets(p: RtpLayout.RtpPacket): Bytes {
    if p.extension.None? then []
    else
      var Extension(kind, data) := p.extension.value;
      Write16(kind % 0x1_0000) + Write16(Words16(|data|) % 0x1_0000)
      + if Words16(|data|) < 0 then [] else Spilled(data, Words16(|data|))
  }

  /** A packet built into a buffer. */
  function BuiltRtp(m: Buffer, p: RtpLayout.RtpPacket): Buffer
    requires |p.csrcs| <= KMaxCsrcIdentifiers && p.payloadType <= KPayloadTypeMax
  {
    PutAt(PutAt(m, 0, Fixed(Cut(p)) + WriteWords(p.csrcs) + ExtensionOctets(p)), PayloadAt(Cut(p)), p.payload)
  }

  /** The octets a buffer must have for it. */
  function Room(p: RtpLayout.RtpPacket): nat {
    var whole, extended := PayloadAt(Cut(p)) + |p.payload|, 12 + 4 * |p.csrcs| + |ExtensionOctets(p)|;
    if whole < extended then extended else whole
  }

  lemma CutKeepsRest(p: RtpLayout.RtpPacket)
    requires |p.csrcs| <= KMaxCsrcIdentifiers
    ensures Cut(p) == p.(extension := Cut(p).extension) && FirstOctet(Cut(p)) == FirstOctet(p)
    ensures p.extension.Some? <==> Cut(p).extension.Some?
    ensures PayloadAt(Cut(p)) == 12 + 4 * |p.csrcs| + |WriteExtension(Cut(p).extension)|
  {
  }

  /** The extension written begins with the extension of the layout, and is it up to 0x7FFF words. */
  lemma ExtensionWritten(p: RtpLayout.RtpPacket)
    requires p.extension.Some? ==> Words16(|p.extension.value.data|) >= 0
    ensures var cut, octets := WriteExtension(Cut(p).extension), ExtensionOctets(p);
            && |cut| <= |octets| && octets[..|cut|] == cut
            && (p.Buildable() ==> octets == cut)
  {
    if p.extension.Some? {
      var Extension(kind, data) := p.extension.value;
      var w := Words16(|data|);
      CutWords(p);
      ExtensionParts(Cut(p).extension.value, w);
      SpilledBegins(data, w);
      hide Cut, Words16, Words, Filled, Spilled, WriteExtension, Write16;
      var front := Write16(kind % 0x1_0000) + Write16(w % 0x1_0000);
      assert ExtensionOctets(p) == front + Spilled(data, w);
      assert (front + Spilled(data, w))[..4 + 4 * w] == front + Spilled(data, w)[..4 * w];
    }
  }

  lemma ExtensionParts(e: Extension, words: nat)
    requires |e.data| <= 4 * 0x7FFF && words == Words(|e.data|)
    ensures WriteExtension(Some(e)) == Write16(e.kind % 0x1_0000) + Write16(words % 0x1_0000) + Filled(e.data)
    ensures |WriteExtension(Some(e))| == 4 + 4 * words
  {
    assert words % 0x1_0000 == words;
    hide Write16, Filled, Words;
  }

  lemma CutSize(p: RtpLayout.RtpPacket)
    ensures if p.extension.None? then WriteExtension(Cut(p).extension) == []
            else
              var w := Words16(|p.extension.value.data|);
              w >= 0 ==> |WriteExtension(Cut(p).extension)| == 4 + 4 * w
  {
    if p.extension.Some? {
      CutWords(p);
      hide Cut, Words16, Words;
      if Words16(|p.extension.value.data|) >= 0 {
        ExtensionParts(Cut(p).extension.value, Words16(|p.extension.value.data|));
      }
    }
  }

  lemma SpilledBegins(data: Bytes, words: nat)
    requires words <= Words(|data|)
    ensures var cut := if 4 * words < |data| then data[..4 * words] else data;
            && 4 * words <= |Spilled(data, words)| && Spilled(data, words)[..4 * words] == Filled(cut)
            && (|data| <= 4 * words ==> Spilled(data, words) == Filled(cut))
  {
    var cut := if 4 * words < |data| then data[..4 * words] else data;
    if 4 * words <= |data| {
      assert Filled(cut) == cut;
    }
  }

  /**
   What is built.  A packet is written inside the buffer exactly if the buffer has the room it needs, and
   then it is the layout, its extension cut to the words the signed variable holds; up to 0x7FFF words
   nothing else is written.
   */
  lemma BuiltIsLayout(m: Buffer, p: RtpLayout.RtpPacket)
    requires |p.csrcs| <= KMaxCsrcIdentifiers && p.payloadType <= KPayloadTypeMax
    requires p.extension.Some? ==> Words16(|p.extension.value.data|) >= 0
    ensures BuiltRtp(m, p).Intact? <==> m.Intact? && Room(p) <= |m.octets|
    ensures BuiltRtp(m, p).Intact? ==>
              var b, wire := BuiltRtp(m, p).octets, Layout(Cut(p)); |wire| <= |b| && b[..|wire|] == wire
    ensures p.Buildable() ==> BuiltRtp(m, p) == PutAt(m, 0, Layout(p))
  {
    BuiltRoom(m, p);
    hide BuiltRtp, Room, Layout, Cut;
    if BuiltRtp(m, p).Intact? {
      BuiltInside(m, p);
    }
    if p.Buildable() {
      BuiltWhole(m, p);
    }
  }

  lemma BuiltRoom(m: Buffer, p: RtpLayout.RtpPacket)
    requires |p.csrcs| <= KMaxCsrcIdentifiers && p.payloadType <= KPayloadTypeMax
    requires p.extension.Some? ==> Words16(|p.extension.value.data|) >= 0
    ensures BuiltRtp(m, p).Intact? <==> m.Intact? && Room(p) <= |m.octets|
  {
    CutKeepsRest(p);
    ExtensionWritten(p);
    hide Cut, Fixed, Words16, WriteExtension, ExtensionOctets, WriteWords, FirstOctet, PutAt;
    var front := Fixed(Cut(p)) + WriteWords(p.csrcs) + ExtensionOctets(p);
    var first := PutAt(m, 0, front);
    assert |front| == 12 + 4 * |p.csrcs| + |ExtensionOctets(p)|;
    KeepsSize(m, 0, front);
  }

  lemma KeepsSize(m: Buffer, at: nat, x: Bytes)
    ensures PutAt(m, at, x).Intact? ==> m.Intact? && |PutAt(m, at, x).octets| == |m.octets|
  {
  }

  lemma BuiltWhole(m: Buffer, p: RtpLayout.RtpPacket)
    requires |p.csrcs| <= KMaxCsrcIdentifiers && p.payloadType <= KPayloadTypeMax && p.Buildable()
    ensures BuiltRtp(m, p) == PutAt(m, 0, Layout(p))
  {
    if p.extension.Some? {
      WordsFit(p);
    }
    CutKeepsRest(p);
    ExtensionWritten(p);
    hide Fixed, Words16, WriteExtension, ExtensionOctets, WriteWords, FirstOctet, PutAt;
    PutTwice(m, 0, Fixed(p) + WriteWords(p.csrcs) + ExtensionOctets(p), p.payload);
  }

  lemma WordsFit(p: RtpLayout.RtpPacket)
    requires p.Buildable() && p.extension.Some?
    ensures Words16(|p.extension.value.data|) >= 0
  {
  }

  lemma BuiltInside(m: Buffer, p: RtpLayout.RtpPacket)
    requires |p.csrcs| <= KMaxCsrcIdentifiers && p.payloadType <= KPayloadTypeMax
    requires p.extension.Some? ==> Words16(|p.extension.value.data|) >= 0
    requires BuiltRtp(m, p).Intact?
    ensures var b, wire := BuiltRtp(m, p).octets, Layout(Cut(p)); |wire| <= |b| && b[..|wire|] == wire
  {
    CutKeepsRest(p);
    hide *;
    var front, cut, octets := BuiltParts(m, p);
    InsideParts(m, front, octets, |cut|, p.payload);
  }

  /** A packet is written in two goes: up to the end of the extension data, and the payload. */
  lemma BuiltParts(m: Buffer, p: RtpLayout.RtpPacket) returns (front: Bytes, cut: Bytes, octets: Bytes)
    requires |p.csrcs| <= KMaxCsrcIdentifiers && p.payloadType <= KPayloadTypeMax
    requires p.extension.Some? ==> Words16(|p.extension.value.data|) >= 0
    ensures |cut| <= |octets| && octets[..|cut|] == cut && Cut(p).payloadType == p.payloadType
    ensures BuiltRtp(m, p) == PutAt(PutAt(m, 0, front + octets), |front| + |cut|, p.payload)
    ensures Layout(Cut(p)) == front + cut + p.payload
  {
    hide Cut, Fixed, Words16, WriteExtension, ExtensionOctets, WriteWords, FirstOctet, PutAt, BuiltRtp, Layout;
    CutKeepsRest(p);
    front, cut, octets := Fixed(Cut(p)) + WriteWords(p.csrcs), WriteExtension(Cut(p).extension), ExtensionOctets(p);
    ExtensionWritten(p);
    BuiltInTwo(m, p);
    LayoutParts(p);
  }

  lemma BuiltInTwo(m: Buffer, p: RtpLayout.RtpPacket)
    requires |p.csrcs| <= KMaxCsrcIdentifiers && p.payloadType <= KPayloadTypeMax
    ensures Cut(p).payloadType == p.payloadType
    ensures var front, cut := Fixed(Cut(p)) + WriteWords(p.csrcs), WriteExtension(Cut(p).extension);
            BuiltRtp(m, p) == PutAt(PutAt(m, 0, front + ExtensionOctets(p)), |front| + |cut|, p.payload)
  {
    CutKeepsRest(p);
    hide Cut, Fixed, Words16, WriteExtension, ExtensionOctets, WriteWords, PutAt, PayloadAt;
  }

  lemma LayoutParts(p: RtpLayout.RtpPacket)
    requires |p.csrcs| <= KMaxCsrcIdentifiers && p.payloadType <= KPayloadTypeMax
    ensures Cut(p).payloadType == p.payloadType
    ensures Layout(Cut(p)) == Fixed(Cut(p)) + WriteWords(p.csrcs) + WriteExtension(Cut(p).extension) + p.payload
  {
    CutKeepsRest(p);
    hide Cut, Fixed, Words16, WriteExtension, WriteWords;
  }

  lemma InsideParts(m: Buffer, front: Bytes, octets: Bytes, n: nat, payload: Bytes)
    requires n <= |octets| && PutAt(PutAt(m, 0, front + octets), |front| + n, payload).Intact?
    ensures var b, wire := PutAt(PutAt(m, 0, front + octets), |front| + n, payload).octets, front + octets[..n] + payload;
            |wire| <= |b| && b[..|wire|] == wire
  {
    hide PutAt;
    PutPrefix(m, front + octets);
    LaidOver(PutAt(m, 0, front + octets), front, octets, n, payload);
  }

  lemma LaidOver(m: Buffer, front: Bytes, octets: Bytes, n: nat, payload: Bytes)
    requires n <= |octets| && m.Intact? && |front + octets| <= |m.octets| && m.octets[..|front + octets|] == front + octets
    requires PutAt(m, |front| + n, payload).Intact?
    ensures var b := PutAt(m, |front| + n, payload).octets;
            |front| + n + |payload| <= |b| && b[..|front| + n + |payload|] == front + octets[..n] + payload
  {
    if payload == [] {
      assert m.octets[..|front| + n] == m.octets[..|front + octets|][..|front| + n] == front + octets[..n];
    } else {
      Overlaid(m.octets, front, octets, n, payload);
    }
  }

  // ----- The session's buffer -----

  const KMaxRtpPacketSize := 8192

  /** The octets ConstructL gives the sending packet. */
  function SessionPacketSize(socketBufSize: nat): nat {
    if socketBufSize > KMaxRtpPacketSize then socketBufSize else KMaxRtpPacketSize
  }

  /** SendRtpPacket compares the payload alone with the socket's size.  A packet that passes is written inside
      the session's buffer exactly if header and payload together fit it. */
  lemma SendFits(p: RtpLayout.RtpPacket, socketBufSize: nat)
    requires p.Buildable() && p.payloadType <= KPayloadTypeMax && |p.payload| <= socketBufSize
    ensures BuiltRtp(Intact(Zeros(SessionPacketSize(socketBufSize))), p).Intact? <==>
            12 + 4 * |p.csrcs| + (if p.extension.Some? then 4 + 4 * Words(|p.extension.value.data|) else 0) + |p.payload|
            <= SessionPacketSize(socketBufSize)
  {
    BuiltWhole(Intact(Zeros(SessionPacketSize(socketBufSize))), p);
    LayoutSize(p);
    hide Layout, BuiltRtp, Words;
  }

  /** The largest payload the session takes overruns the buffer even without CSRCs and extension. */
  lemma FullPayloadOverruns(socketBufSize: nat, payload: Bytes)
    requires |payload| == socketBufSize >= KMaxRtpPacketSize
    ensures var p := RtpLayout.RtpPacket(0, 0, 96, 0, 0, 0, [], None, payload);
            BuiltRtp(Intact(Zeros(SessionPacketSize(socketBufSize))), p) == Overrun
  {
    SendFits(RtpLayout.RtpPacket(0, 0, 96, 0, 0, 0, [], None, payload), socketBufSize);
  }

  lemma Overlaid(b: Bytes, front: Bytes, octets: Bytes, n: nat, payload: Bytes)
    requires n <= |octets| && |front + octets| <= |b| && b[..|front + octets|] == front + octets
    requires |front| + n + |payload| <= |b|
    ensures Patched(b, |front| + n, payload)[..|front| + n + |payload|] == front + octets[..n] + payload
  {
    assert b[..|front| + n] == b[..|front + octets|][..|front| + n] == front + octets[..n];
  }

  datatype Progress = NoError | More | Error

  /** The end of RtpPacketProcessL for a section read up to the cursor. */
  function ProgressAt(at: nat, size: int): Progress {
    if at == size then NoError else if at < size then More else Error
  }

  class RtpPacket {
    const iBuf: array<Octet>
    var iSize: int
    var iDataPtr: nat
    /** Something was written outside iBuf. */
    var isOverrun: bool

    constructor (packetSize: nat)
      ensures iBuf.Length == packetSize && iSize == 0 && iDataPtr == 0 && fresh(iBuf)
      ensures AsBuffer() == Intact(Zeros(packetSize))
    {
      iBuf := new Octet[packetSize](_ => 0);
      iSize, iDataPtr, isOverrun := 0, 0, false;
      new;
      assert iBuf[..] == Zeros(packetSize);
    }

    method Reset()
      modifies this`iSize, this`iDataPtr
      ensures iSize == 0 && iDataPtr == 0
    {
      iSize, iDataPtr := 0, 0;
    }

    function AsBuffer(): Buffer
      reads this`isOverrun, iBuf
    {
      if isOverrun then Overrun else Intact(iBuf[..])
    }

    /** The octets written since start. */
    ghost predicate Written(was: Buffer, start: nat, octets: Bytes)
      reads this`isOverrun, iBuf
    {
      AsBuffer() == PutAt(was, start, octets)
    }

    /** Write16, Write24, Write32 and Mem::Copy: octets at a position behind those already written. */
    method WriteAt(at: nat, octets: Bytes, ghost was: Buffer, ghost start: nat, ghost before: Bytes)
      requires Written(was, start, before) && at == start + |before|
      modifies iBuf, this`isOverrun
      ensures Written(was, start, before + octets)
    {
      hide Patched;
      ghost var m := AsBuffer();
      if octets != [] && at + |octets| > iBuf.Length {
        isOverrun := true;
      }
      if octets != [] && !isOverrun {
        ghost var all := iBuf[..];
        PatchedNothing(all, at, octets);
        for i := 0 to |octets|
          invariant !isOverrun && iBuf[..] == Patched(all, at, octets[..i])
        {
          PatchedOne(all, at, octets, i);
          iBuf[at + i] := octets[i];
        }
        assert octets[..|octets|] == octets;
      }
      assert AsBuffer() == PutAt(m, at, octets);
      PutTwice(was, start, before, octets);
    }

    /** The same at the cursor, which moves behind them. */
    method Put(octets: Bytes, ghost was: Buffer, ghost start: nat, ghost before: Bytes)
      requires Written(was, start, before) && iDataPtr == start + |before|
      modifies iBuf, this`iDataPtr, this`isOverrun
      ensures Written(was, start, before + octets) && iDataPtr == start + |before + octets|
    {
      WriteAt(iDataPtr, octets, was, start, before);
      iDataPtr := iDataPtr + |octets|;
    }

    lemma NothingWritten(at: nat)
      ensures Written(AsBuffer(), at, [])
    {
    }

    // ----- Building -----

    method BuildRtcp(h: Header)
      modifies iBuf, this
      ensures Written(old(AsBuffer()), old(iDataPtr), WriteHeader(h))
      ensures iDataPtr == old(iDataPtr) + |WriteHeader(h)| && iSize == old(iSize) + (h.length + 1) * 4
    {
      hide Write16, Write32, PutAt;
      ghost var was, start := AsBuffer(), iDataPtr;
      var front: Bytes := [CountOctet(h.sourceCount), h.pt];
      NothingWritten(start);
      Put(front, was, start, []);
      assert [] + front == front;
      Put(Write16(h.length % 0x1_0000), was, start, front);
      if h.pt == ERTCP_RR {
        Put(Write32(h.ssrc), was, start, front + Write16(h.length % 0x1_0000));
      } else {
        assert WriteHeader(h) == front + Write16(h.length % 0x1_0000);
      }
      iSize := iSize + (h.length + 1) * 4;
    }

    method BuildRr(r: ReportBlock)
      modifies iBuf, this`iDataPtr, this`isOverrun
      ensures Written(old(AsBuffer()), old(iDataPtr), WriteRr(r)) && iDataPtr == old(iDataPtr) + 24
    {
      hide Write24, Write32, PutAt;
      ghost var was, start := AsBuffer(), iDataPtr;
      ghost var done: Bytes := [];
      NothingWritten(start);
      Put(Write32(r.ssrc), was, start, done);
      done := done + Write32(r.ssrc);
      Put([r.fractionLost], was, start, done);
      done := done + [r.fractionLost];
      Put(Write24(r.cumNumPacketsLost), was, start, done);
      done := done + Write24(r.cumNumPacketsLost);
      Put(Write32(r.seqNumReceived), was, start, done);
      done := done + Write32(r.seqNumReceived);
      Put(Write32(r.arrivalJitter), was, start, done);
      done := done + Write32(r.arrivalJitter);
      Put(Write32(r.lastSR), was, start, done);
      done := done + Write32(r.lastSR);
      Put(Write32(r.delaySinceLSR), was, start, done);
      done := done + Write32(r.delaySinceLSR);
      assert done == WriteRr(r);
    }

    method BuildSr(r: SenderReport)
      modifies iBuf, this`iDataPtr, this`isOverrun
      ensures Written(old(AsBuffer()), old(iDataPtr), WriteSr(r)) && iDataPtr == old(iDataPtr) + 24
    {
      hide Write32, PutAt;
      ghost var was, start := AsBuffer(), iDataPtr;
      ghost var done: Bytes := [];
      NothingWritten(start);
      Put(Write32(r.ssrc), was, start, done);
      done := done + Write32(r.ssrc);
      Put(Write32(r.ntpSec), was, start, done);
      done := done + Write32(r.ntpSec);
      Put(Write32(r.ntpFrac), was, start, done);
      done := done + Write32(r.ntpFrac);
      Put(Write32(r.timeStamp), was, start, done);
      done := done + Write32(r.timeStamp);
      Put(Write32(r.numPacketsSent), was, start, done);
      done := done + Write32(r.numPacketsSent);
      Put(Write32(r.cumNumOctetsSent), was, start, done);
      done := done + Write32(r.cumNumOctetsSent);
      assert done == WriteSr(r);
    }

    /** Null octets, as many as asked for. */
    method PutPadding(padding: nat, ghost was: Buffer, ghost start: nat, ghost before: Bytes)
      requires Written(was, start, before) && iDataPtr == start + |before|
      modifies iBuf, this`iDataPtr, this`isOverrun
      ensures Written(was, start, before + Zeros(padding)) && iDataPtr == start + |before| + padding
    {
      assert before + Zeros(0) == before;
      for i := 0 to padding
        invariant Written(was, start, before + Zeros(i)) && iDataPtr == start + |before| + i
      {
        Put([0], was, start, before + Zeros(i));
        assert before + Zeros(i + 1) == before + Zeros(i) + [0];
      }
    }

    method BuildBye(bye: Bye, padding: nat)
      requires |bye.reason| < 0x100
      modifies iBuf, this`iDataPtr, this`isOverrun
      ensures Written(old(AsBuffer()), old(iDataPtr), WriteBye(bye, padding))
      ensures iDataPtr == old(iDataPtr) + |WriteBye(bye, padding)|
    {
      hide Write32, PutAt, Zeros;
      ghost var was, start := AsBuffer(), iDataPtr;
      NothingWritten(start);
      Put(Write32(bye.ssrc), was, start, []);
      assert [] + Write32(bye.ssrc) == Write32(bye.ssrc);
      Put([|bye.reason|], was, start, Write32(bye.ssrc));
      Put(bye.reason, was, start, Write32(bye.ssrc) + [|bye.reason|]);
      PutPadding(padding, was, start, Write32(bye.ssrc) + [|bye.reason|] + bye.reason);
    }

    method BuildApp(app: App)
      requires |app.name| == 4
      modifies iBuf, this`iDataPtr, this`isOverrun
      ensures Written(old(AsBuffer()), old(iDataPtr), WriteApp(app)) && iDataPtr == old(iDataPtr) + |WriteApp(app)|
    {
      hide Write32, PutAt;
      ghost var was, start := AsBuffer(), iDataPtr;
      NothingWritten(start);
      Put(Write32(app.ssrc), was, start, []);
      assert [] + Write32(app.ssrc) == Write32(app.ssrc);
      Put(app.name, was, start, Write32(app.ssrc));
      Put(app.data, was, start, Write32(app.ssrc) + app.name);
    }

    method BuildSdes(s: Sdes, padding: nat)
      requires Short(s.items)
      modifies iBuf, this`iDataPtr, this`isOverrun
      ensures Written(old(AsBuffer()), old(iDataPtr), WriteSdes(s, padding))
      ensures iDataPtr == old(iDataPtr) + |WriteSdes(s, padding)|
    {
      hide Write32, PutAt, Zeros, WriteItems;
      ghost var was, start := AsBuffer(), iDataPtr;
      ghost var done, all := Write32(s.ssrc), Write32(s.ssrc) + WriteItems(s.items, 0);
      NothingWritten(start);
      Put(Write32(s.ssrc), was, start, []);
      assert [] + Write32(s.ssrc) == done;
      for theIndex := 0 to ERTCP_NUM_OF_SDES_ITEMS
        invariant Written(was, start, done) && iDataPtr == start + |done|
        invariant done + WriteItems(s.items, theIndex) == all
      {
        ItemInOrder(s.items, theIndex);
        if s.items[theIndex] != [] {
          var header: Bytes := [theIndex + 1, |s.items[theIndex]|];
          Put(header, was, start, done);
          Put(s.items[theIndex], was, start, done + header);
          done := done + header + s.items[theIndex];
        }
      }
      NoMoreItems(s.items);
      assert done == all;
      Put([0], was, start, all);
      PutPadding(padding, was, start, all + [0]);
    }

    /**
     RtpPacketBuildRtp.  Bits are set in octets that are still zero, so each |= is a sum.  The words of an
     extension are counted in a signed 16-bit variable: when it comes out negative, zeros are filled in for
     a negative length.
     */
    method BuildRtp(p: RtpLayout.RtpPacket) returns (r: Result<()>)
      requires |p.csrcs| <= KMaxCsrcIdentifiers
      modifies iBuf, this`iSize, this`isOverrun
      ensures r == if p.payloadType > KPayloadTypeMax then Leave(TooBig)
                   else if p.extension.Some? && Words16(|p.extension.value.data|) < 0 then Leave(Panic)
                   else Ok(())
      ensures r.Ok? ==> AsBuffer() == BuiltRtp(old(AsBuffer()), p) && iSize == |Layout(Cut(p))|
      ensures r.Leave? ==> iSize == old(iSize)
      ensures r == Leave(TooBig) ==> Written(old(AsBuffer()), 0, [FirstOctet(p), p.marker * 0x80] + Zeros(10))
    {
      hide Write16, Write32, PutAt, FirstOctet, Words, Words16, Spilled, Zeros, Cut, WriteExtension;
      ghost var was, q := AsBuffer(), Cut(p);
      ghost var done: Bytes := [];
      CutKeepsRest(p);
      NothingWritten(0);
      assert forall o: Bytes :: [] + o == o;
      if p.payloadType > KPayloadTypeMax {
        WriteAt(0, [FirstOctet(p), p.marker * 0x80] + Zeros(10), was, 0, []);
        return Leave(TooBig);
      }
      WriteAt(0, [FirstOctet(p), p.marker * 0x80 + p.payloadType], was, 0, done);
      done := [FirstOctet(p), p.marker * 0x80 + p.payloadType];
      WriteAt(2, Write16(p.seqNum), was, 0, done);
      WriteAt(4, Write32(p.timeStamp), was, 0, done + Write16(p.seqNum));
      WriteAt(8, Write32(p.ssrc), was, 0, done + Write16(p.seqNum) + Write32(p.timeStamp));
      assert Fixed(q) == done + Write16(p.seqNum) + Write32(p.timeStamp) + Write32(p.ssrc);
      PutCsrcs(p.csrcs, was, Fixed(q));
      ghost var front := Fixed(q) + WriteWords(p.csrcs);
      var dataP := PutExtension(12 + 4 * |p.csrcs|, p, was, front);
      if dataP.Leave? {
        return Leave(dataP.error);
      }
      PutPayload(dataP.value, p.payload);
      iSize := |p.payload| + dataP.value;
      return Ok(());
    }

    method PutPayload(at: nat, payload: Bytes)
      modifies iBuf, this`isOverrun
      ensures AsBuffer() == PutAt(old(AsBuffer()), at, payload)
    {
      NothingWritten(at);
      assert [] + payload == payload;
      WriteAt(at, payload, AsBuffer(), at, []);
    }

    /** The CSRC list behind the fixed header. */
    method PutCsrcs(csrcs: seq<u32>, ghost was: Buffer, ghost before: Bytes)
      requires Written(was, 0, before) && |before| == 12
      modifies iBuf, this`isOverrun
      ensures Written(was, 0, before + WriteWords(csrcs))
    {
      hide Write32, PutAt;
      var dataP := 12;
      assert WriteWords(csrcs[..0]) == [] && before + [] == before;
      for count := 0 to |csrcs|
        invariant dataP == 12 + 4 * count
        invariant Written(was, 0, before + WriteWords(csrcs[..count]))
      {
        assert csrcs[..count + 1][..count] == csrcs[..count];
        WriteAt(dataP, Write32(csrcs[count]), was, 0, before + WriteWords(csrcs[..count]));
        assert before + WriteWords(csrcs[..count + 1]) == before + WriteWords(csrcs[..count]) + Write32(csrcs[count]);
        dataP := dataP + 4;
      }
      assert csrcs[..|csrcs|] == csrcs;
    }

    /** The extension of a packet, and where the payload goes. */
    method PutExtension(at: nat, p: RtpLayout.RtpPacket, ghost was: Buffer, ghost before: Bytes) returns (dataP: Result<nat>)
      requires Written(was, 0, before) && at == |before|
      modifies iBuf, this`isOverrun
      ensures dataP == if p.extension.Some? && Words16(|p.extension.value.data|) < 0 then Leave(Panic)
                       else Ok(at + |WriteExtension(Cut(p).extension)|)
      ensures Written(was, 0, before + ExtensionOctets(p))
    {
      hide Write16, PutAt, Zeros, Filled, Spilled, Words, Words16, Cut, Narrowed, WriteExtension;
      CutSize(p);
      if p.extension.None? {
        assert before + [] == before;
        return Ok(at);
      }
      var e := p.extension.value;
      var length32 := Narrowed(|e.data| / 4);
      if |e.data| % 4 != 0 {
        length32 := Narrowed(length32 + 1);
      }
      NarrowedWords(|e.data|);
      var kind, count := Write16(e.kind % 0x1_0000), Write16(length32 % 0x1_0000);
      WriteAt(at, kind, was, 0, before);
      WriteAt(at + 2, count, was, 0, before + kind);
      if length32 < 0 {
        assert before + kind + count == before + (kind + count + []);
        return Leave(Panic);
      }
      PutData(at + 4, e.data, length32, was, before + kind + count);
      assert before + kind + count + Spilled(e.data, length32) == before + (kind + count + Spilled(e.data, length32));
      return Ok(at + 4 + 4 * length32);
    }

    /** Extension data, over zeros for the words counted; nothing for no words. */
    method PutData(at: nat, data: Bytes, length32: nat, ghost was: Buffer, ghost before: Bytes)
      requires Written(was, 0, before) && at == |before|
      modifies iBuf, this`isOverrun
      ensures Written(was, 0, before + Spilled(data, length32))
    {
      hide PutAt, Zeros;
      if length32 != 0 {
        WriteAt(at, data, was, 0, before);
        if |data| < 4 * length32 {
          WriteAt(at + |data|, Zeros(4 * length32 - |data|), was, 0, before + data);
          assert before + data + Zeros(4 * length32 - |data|) == before + Spilled(data, length32);
        }
      } else {
        assert before + [] == before;
      }
    }

    // ----- Parsing -----

    method ProcessSr() returns (r: Result<SenderReport>)
      modifies this`iDataPtr
      ensures var read := ReadSr(iBuf[..], old(iDataPtr));
              if read.Leave? then r == Leave(read.error) else r == Ok(read.value.value) && iDataPtr == read.value.at
    {
      hide Read32;
      if iDataPtr + 24 > iBuf.Length {
        return Leave(Panic);
      }
      var ssrc := Read32(iBuf[..], iDataPtr);
      iDataPtr := iDataPtr + 4;
      var sec := Read32(iBuf[..], iDataPtr);
      iDataPtr := iDataPtr + 4;
      var frac := Read32(iBuf[..], iDataPtr);
      iDataPtr := iDataPtr + 4;
      var timeStamp := Read32(iBuf[..], iDataPtr);
      iDataPtr := iDataPtr + 4;
      var packets := Read32(iBuf[..], iDataPtr);
      iDataPtr := iDataPtr + 4;
      var octets := Read32(iBuf[..], iDataPtr);
      iDataPtr := iDataPtr + 4;
      return Ok(SenderReport(ssrc, sec, frac, timeStamp, packets, octets));
    }

    method ProcessRr() returns (r: Result<ReportBlock>)
      modifies this`iDataPtr
      ensures var read := ReadRr(iBuf[..], old(iDataPtr));
              if read.Leave? then r == Leave(read.error) else r == Ok(read.value.value) && iDataPtr == read.value.at
    {
      hide Read24, Read32;
      if iDataPtr + 24 > iBuf.Length {
        return Leave(Panic);
      }
      var ssrc := Read32(iBuf[..], iDataPtr);
      iDataPtr := iDataPtr + 4;
      var fraction := iBuf[iDataPtr];
      iDataPtr := iDataPtr + 1;
      var lost := Read24(iBuf[..], iDataPtr);
      iDataPtr := iDataPtr + 3;
      var highest := Read32(iBuf[..], iDataPtr);
      iDataPtr := iDataPtr + 4;
      var jitter := Read32(iBuf[..], iDataPtr);
      iDataPtr := iDataPtr + 4;
      var lastSR := Read32(iBuf[..], iDataPtr);
      iDataPtr := iDataPtr + 4;
      var delay := Read32(iBuf[..], iDataPtr);
      iDataPtr := iDataPtr + 4;
      return Ok(ReportBlock(ssrc, fraction, lost, highest, jitter, lastSR, delay));
    }

    method ProcessBye() returns (r: Result<Bye>)
      modifies this`iDataPtr
      ensures var read := ReadBye(iBuf[..], old(iDataPtr));
              if read.Leave? then r == Leave(read.error) else r == Ok(read.value.value) && iDataPtr == read.value.at
    {
      hide Read32;
      if iDataPtr + 5 > iBuf.Length {
        return Leave(Panic);
      }
      var ssrc := Read32(iBuf[..], iDataPtr);
      iDataPtr := iDataPtr + 4;
      var reasonSize := iBuf[iDataPtr] as int;
      iDataPtr := iDataPtr + 1;
      if iDataPtr + reasonSize > iBuf.Length {
        return Leave(Panic);
      }
      var reason := iBuf[iDataPtr..iDataPtr + reasonSize];
      iDataPtr := iDataPtr + reasonSize;
      var paddingSize := 0;
      if (1 + reasonSize) % 4 != 0 {
        paddingSize := 4 - (1 + reasonSize) % 4;
      }
      ghost var start := iDataPtr;
      for theIndex := 0 to paddingSize
        invariant iDataPtr == start + theIndex
      {
        iDataPtr := iDataPtr + 1;
      }
      return Ok(Bye(ssrc, reason));
    }

    method ProcessApp(totalPacketLen: u16) returns (r: Result<App>)
      modifies this`iDataPtr
      ensures var read := ReadApp(iBuf[..], old(iDataPtr), totalPacketLen);
              if read.Leave? then r == Leave(read.error) else r == Ok(read.value.value) && iDataPtr == read.value.at
    {
      hide Read32;
      if totalPacketLen + 1 < 3 {
        return Leave(Corrupt);
      }
      var appDataLen8 := (totalPacketLen + 1 - 3) * 4;
      if iDataPtr + 8 + appDataLen8 > iBuf.Length {
        return Leave(Panic);
      }
      var ssrc := Read32(iBuf[..], iDataPtr);
      iDataPtr := iDataPtr + 4;
      var name := iBuf[iDataPtr..iDataPtr + 4];
      iDataPtr := iDataPtr + 4;
      var data := iBuf[iDataPtr..iDataPtr + appDataLen8];
      iDataPtr := iDataPtr + appDataLen8;
      return Ok(App(ssrc, name, data));
    }

    /** The section header; the padding bit changes the size for good. */
    method ProcessRtcp() returns (r: Result<Header>)
      requires 0 <= iSize <= iBuf.Length
      modifies this`iDataPtr, this`iSize
      ensures var read := ReadHeader(iBuf[..], old(iDataPtr), old(iSize));
              if read.Leave? then r == Leave(read.error)
              else r == Ok(read.value.value) && iDataPtr == read.value.at && iSize == SizeAfterHeader(iBuf[..], old(iDataPtr), old(iSize))
    {
      hide Read16, Read32;
      if iDataPtr + 4 > iBuf.Length {
        return Leave(Panic);
      }
      var first, pt := iBuf[iDataPtr], iBuf[iDataPtr + 1];
      if first / 0x40 != KRtpVersion {
        return Leave(Corrupt);
      }
      if first / 0x20 % 2 == 1 {
        if iSize == 0 {
          return Leave(Panic);
        }
        iSize := iSize - iBuf[iSize - 1];
      }
      if pt != ERTCP_SR && pt != ERTCP_RR && pt != ERTCP_SDES && pt != ERTCP_BYE && pt != ERTCP_APP {
        return Leave(Corrupt);
      }
      iDataPtr := iDataPtr + 2;
      var length := Read16(iBuf[..], iDataPtr);
      if length as int * 4 > iSize {
        return Leave(Corrupt);
      }
      iDataPtr := iDataPtr + 2;
      var ssrc: u32 := 0;
      if pt == ERTCP_RR {
        if iDataPtr + 4 > iBuf.Length {
          return Leave(Panic);
        }
        ssrc := Read32(iBuf[..], iDataPtr);
        iDataPtr := iDataPtr + 4;
      }
      return Ok(Header(first % 0x20, pt, length, ssrc));
    }

    method ProcessSdes() returns (r: Result<Sdes>)
      modifies this`iDataPtr
      ensures var read := ReadSdes(iBuf[..], old(iDataPtr));
              if read.Leave? then r == Leave(read.error) else r == Ok(read.value.value) && iDataPtr == read.value.at
    {
      hide Read32, ReadItems, Gap;
      if iDataPtr + 4 > iBuf.Length {
        return Leave(Panic);
      }
      var ssrc := Read32(iBuf[..], iDataPtr);
      iDataPtr := iDataPtr + 4;
      ghost var start, b := iDataPtr, iBuf[..];
      var sdesItems: seq<Bytes>, headers: nat, totalSize: nat, tempValue: u8 := [], 0, 0, 0;
      assert Joined([], 0, 0, ReadItems(b, start, 0, 0)) == ReadItems(b, start, 0, 0) by {
        JoinedToNothing(ReadItems(b, start, 0, 0));
      }
      for theIndex := 0 to ERTCP_NUM_OF_SDES_ITEMS
        invariant |sdesItems| == theIndex
        invariant Joined(sdesItems, headers, totalSize, ReadItems(b, iDataPtr, theIndex, tempValue)) == ReadItems(b, start, 0, 0)
      {
        NextItem(b, iDataPtr, theIndex, tempValue, sdesItems, headers, totalSize);
        if iDataPtr >= iBuf.Length {
          return Leave(Panic);
        }
        if iBuf[iDataPtr] == 0 {
          sdesItems := sdesItems + [[]];
        } else {
          tempValue := iBuf[iDataPtr];
          if tempValue != theIndex + 1 {
            sdesItems := sdesItems + [[]];
          } else {
            if iDataPtr + 2 > iBuf.Length || iDataPtr + 2 + iBuf[iDataPtr + 1] > iBuf.Length {
              return Leave(Panic);
            }
            var size := iBuf[iDataPtr + 1] as int;
            headers := headers + 1;
            totalSize := totalSize + size;
            iDataPtr := iDataPtr + 2;
            sdesItems := sdesItems + [iBuf[iDataPtr..iDataPtr + size]];
            iDataPtr := iDataPtr + size;
          }
        }
      }
      LastItem(b, iDataPtr, tempValue, sdesItems, headers, totalSize);
      iDataPtr := iDataPtr + 1;
      sdesItems := Emptied(sdesItems, tempValue);
      iDataPtr := iDataPtr + Gap(headers * 2 + totalSize + 1);
      return Ok(Sdes(ssrc, sdesItems));
    }

    method ProcessCsrcs(numCSRC: nat) returns (csrcs: Option<seq<u32>>)
      requires 12 + 4 * numCSRC <= iBuf.Length
      ensures csrcs == ReadCsrcs(iBuf[..], 12, numCSRC)
    {
      hide Read32;
      var dataP := 12;
      var list: seq<u32> := [];
      for k := 0 to numCSRC
        invariant dataP == 12 + 4 * k && ReadCsrcs(iBuf[..], 12, k) == Some(list)
      {
        var temp := Read32(iBuf[..], dataP);
        if temp == 0 {
          ZeroCsrcStays(iBuf[..], 12, k + 1, numCSRC);
          return None;
        }
        list := list + [temp];
        dataP := dataP + 4;
      }
      return Some(list);
    }

    method ProcessExtension(at: nat, size: nat) returns (r: Option<(Extension, nat)>)
      requires at <= size <= iBuf.Length
      ensures r == ReadExtension(iBuf[..], size, at)
    {
      hide Read16;
      if size - at < 4 {
        return None;
      }
      var kind := Read16(iBuf[..], at);
      var extensionLen8 := Read16(iBuf[..], at + 2) as int * 4;
      var dataP := at + 4;
      if size - dataP < extensionLen8 {
        return None;
      }
      var data: Bytes := [];
      for k := 0 to extensionLen8
        invariant data == iBuf[dataP..dataP + k]
      {
        data := data + [iBuf[dataP + k]];
      }
      return Some((Extension(kind, data), dataP + extensionLen8));
    }

    /** RtpPacketProcessRtpL behind its padding check. */
    method ProcessSized() returns (r: Result<RtpLayout.RtpPacket>)
      requires 12 <= iBuf.Length && iSize <= iBuf.Length
      ensures r == ParseSized(iBuf[..], iSize)
    {
      hide ReadCsrcs, ReadExtension, Read16, Read32;
      ghost var b := iBuf[..];
      var first := iBuf[0];
      var extended, numCSRC := first / 0x10 % 2 == 1, first % 0x10;
      var dataP := 12;
      var csrcs: seq<u32> := [];
      NoCsrcs(b);
      if numCSRC > 0 {
        if iSize - dataP < numCSRC * 4 {
          return Leave(Corrupt);
        }
        var list := ProcessCsrcs(numCSRC);
        if list.None? {
          return Leave(Corrupt);
        }
        csrcs := list.value;
        CsrcCount(b, 12, numCSRC);
        dataP := dataP + 4 * numCSRC;
      }
      var extension: Option<Extension> := None;
      if extended {
        if iSize < dataP {
          return Leave(Corrupt);
        }
        var e := ProcessExtension(dataP, iSize);
        if e.None? {
          return Leave(Corrupt);
        }
        ExtensionEnds(b, iSize, dataP);
        extension := Some(e.value.0);
        dataP := e.value.1;
      }
      var payload: Bytes := if iSize - dataP > 0 then iBuf[dataP..iSize] else [];
      assert iSize >= dataP ==> payload == b[dataP..iSize];
      var packet := RtpLayout.RtpPacket(
        first / 0x20 % 2, iBuf[1] / 0x80, iBuf[1] % 0x80,
        Read16(iBuf[..], 2), Read32(iBuf[..], 4), Read32(iBuf[..], 8), csrcs, extension, payload);
      assert iSize >= dataP ==> AfterCsrcs(b, iSize, csrcs) == Ok(packet);
      return Ok(packet);
    }

    /** RtpPacketProcessRtpL */
    method ProcessRtp() returns (r: Result<RtpLayout.RtpPacket>)
      requires 0 <= iSize <= iBuf.Length
      modifies this`iSize
      ensures r == Parse(iBuf[..], old(iSize))
      ensures r.Ok? ==> iBuf.Length >= 12 && (iBuf[0] / 0x20 % 2 == 1 ==> old(iSize) >= 1)
      ensures r.Ok? ==> iSize == old(iSize) - if iBuf[0] / 0x20 % 2 == 1 then iBuf[old(iSize) - 1] else 0
    {
      hide ParseSized;
      if iBuf.Length < 1 {
        return Leave(Panic);
      }
      if iBuf[0] / 0x40 != KRtpVersion {
        return Leave(Corrupt);
      }
      if iBuf[0] / 0x20 % 2 == 1 {
        if iSize < 1 {
          return Leave(Panic);
        }
        if iSize - iBuf[iSize - 1] - KMinRtpHeaderSize <= 0 {
          return Leave(Corrupt);
        }
        iSize := iSize - iBuf[iSize - 1];
      }
      if iBuf.Length < 12 {
        return Leave(Panic);
      }
      r := ProcessSized();
    }

    /** The end of RtpPacketProcessL: with everything read the cursor goes back to the start. */
    method Finish() returns (progress: Progress)
      modifies this`iDataPtr
      ensures progress == ProgressAt(old(iDataPtr), iSize)
      ensures iDataPtr == if progress == NoError then 0 else old(iDataPtr)
    {
      if iDataPtr == iSize {
        iDataPtr := 0;
        return NoError;
      } else if iDataPtr < iSize {
        return More;
      } else {
        return Error;
      }
    }
  }

  lemma {:induction false} ZeroCsrcStays(b: Bytes, at: nat, k: nat, n: nat)
    requires k <= n && at + 4 * n <= |b| && ReadCsrcs(b, at, k).None?
    ensures ReadCsrcs(b, at, n).None?
  {
    hide Read32;
    if k < n {
      ZeroCsrcStays(b, at, k, n - 1);
    }
  }

  lemma NoCsrcs(b: Bytes)
    requires |b| >= 12
    ensures ReadCsrcs(b, 12, 0) == Some([])
  {
  }

  lemma ExtensionEnds(b: Bytes, size: nat, at: nat)
    requires at <= size <= |b| && ReadExtension(b, size, at).Some?
    ensures at <= ReadExtension(b, size, at).value.1 <= size
  {
    hide Read16;
  }

  lemma JoinedToNothing(rest: Result<Read<SomeItems>>)
    ensures Joined([], 0, 0, rest) == rest
  {
    if rest.Ok? {
      assert [] + rest.value.value.items == rest.value.value.items;
    }
  }

  /** One item moves from those to read to those read. */
  lemma NextItem(b: Bytes, at: nat, i: nat, last: u8, items: seq<Bytes>, headers: nat, octets: nat)
    requires i < 8
    ensures var all := Joined(items, headers, octets, ReadItems(b, at, i, last));
            match ItemIn(b, at, i)
            case Leave(e) => all == Leave(e)
            case Ok(None) =>
              all == Joined(items + [[]], headers, octets, ReadItems(b, at, i + 1, if b[at] == 0 then last else b[at]))
            case Ok(Some(item)) =>
              all == Joined(items + [item], headers + 1, octets + |item|, ReadItems(b, at + 2 + |item|, i + 1, i + 1))
  {
    hide ItemIn, ReadItems, Joined;
    match ItemIn(b, at, i)
    case Leave(e) =>
      FirstFailure(b, at, i, last);
      JoinedToFailure(items, headers, octets, e);
    case Ok(None) => NextAbsent(b, at, i, last, items, headers, octets);
    case Ok(Some(item)) => NextPresent(b, at, i, last, item, items, headers, octets);
  }

  lemma NextAbsent(b: Bytes, at: nat, i: nat, last: u8, items: seq<Bytes>, headers: nat, octets: nat)
    requires i < 8 && ItemIn(b, at, i) == Ok(None)
    ensures at < |b|
    ensures Joined(items, headers, octets, ReadItems(b, at, i, last)) ==
            Joined(items + [[]], headers, octets, ReadItems(b, at, i + 1, if b[at] == 0 then last else b[at]))
  {
    hide *;
    FirstAbsent(b, at, i, last);
    JoinOne(items, headers, octets, [], 0, 0, ReadItems(b, at, i + 1, if b[at] == 0 then last else b[at]));
  }

  lemma NextPresent(b: Bytes, at: nat, i: nat, last: u8, item: Bytes, items: seq<Bytes>, headers: nat, octets: nat)
    requires i < 8 && ItemIn(b, at, i) == Ok(Some(item))
    ensures Joined(items, headers, octets, ReadItems(b, at, i, last)) ==
            Joined(items + [item], headers + 1, octets + |item|, ReadItems(b, at + 2 + |item|, i + 1, i + 1))
  {
    hide *;
    FirstPresent(b, at, i, last, item);
    JoinOne(items, headers, octets, item, 1, |item|, ReadItems(b, at + 2 + |item|, i + 1, i + 1));
  }

  lemma JoinedToFailure(items: seq<Bytes>, headers: nat, octets: nat, e: Error)
    ensures Joined(items, headers, octets, Leave(e)) == Leave(e)
  {
  }

  lemma JoinOne(items: seq<Bytes>, headers: nat, octets: nat, item: Bytes, h: nat, o: nat, rest: Result<Read<SomeItems>>)
    ensures Joined(items, headers, octets, Joined([item], h, o, rest)) == Joined(items + [item], headers + h, octets + o, rest)
  {
    if rest.Ok? {
      assert items + ([item] + rest.value.value.items) == items + [item] + rest.value.value.items;
    }
  }

  lemma LastItem(b: Bytes, at: nat, last: u8, items: seq<Bytes>, headers: nat, octets: nat)
    ensures Joined(items, headers, octets, ReadItems(b, at, 8, last)) == Ok(Read(SomeItems(items, headers, octets, last), at))
  {
    assert items + [] == items;
  }

  lemma ItemInOrder(items: Items, i: nat)
    requires i < 8 && Short(items)
    ensures |items[i]| < 0x100
    ensures WriteItems(items, i) ==
            (if items[i] == [] then [] else [i + 1, |items[i]|] + items[i]) + WriteItems(items, i + 1)
    ensures |WriteItems(items, i)| == (if items[i] == [] then 0 else 2 + |items[i]|) + |WriteItems(items, i + 1)|
  {
  }

  lemma NoMoreItems(items: Items)
    requires Short(items)
    ensures WriteItems(items, 8) == []
  {
  }
}
