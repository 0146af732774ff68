/**
 The layout of RTP packets (rtppacket.cpp, section 5.1 of RFC 3550): what is written, what is read
 back, and exactly when the two agree.
 */
module RtpLayout {
  import opened Outcomes
  import opened Machine
  import opened Octets

  const KRtpVersion := 2
  const KPayloadTypeMax := 127
  const KMaxCsrcIdentifiers := 15
  const KMinRtpHeaderSize := 12

  type bit = x: int | 0 <= x < 2

  /** An extension: its profile-defined type, of which 16 bits are sent, and its octets. */
  datatype Extension = Extension(kind: u32, data: Bytes)

  datatype RtpPacket = RtpPacket(
    padding: bit, marker: bit, payloadType: u8, seqNum: u16, timeStamp: u32, ssrc: u32,
    csrcs: seq<u32>, extension: Option<Extension>, payload: Bytes)
  {
    /** At most 15 CSRCs, and an extension whose length in words fits the 16-bit signed variable it is
        computed in. */
    predicate Buildable() {
      |csrcs| <= KMaxCsrcIdentifiers && (extension.Some? ==> |extension.value.data| <= 4 * 0x7FFF)
    }
  }

  // ----- Writing -----

  function Words(octets: nat): nat { (octets + 3) / 4 }

  /** The words as the builder's signed 16-bit variable holds them. */
  function Words16(octets: nat): int {
    var w := Words(octets) % 0x1_0000;
    if w < 0x8000 then w else w - 0x1_0000
  }

  /** The packet whose extension is cut to the words the variable holds; up to 0x7FFF, all of it. */
  function Cut(p: RtpPacket): (r: RtpPacket)
    ensures |p.csrcs| <= KMaxCsrcIdentifiers ==> r.Buildable()
    ensures p.Buildable() ==> r == p
  {
    if p.extension.None? then p
    else
      var Extension(kind, data) := p.extension.value;
      var w := Words16(|data|);
      p.(extension := Some(Extension(kind, if w < 0 then [] else if 4 * w < |data| then data[..4 * w] else data)))
  }

  /** Extension data filled up with zeros to whole words. */
  function Filled(data: Bytes): (r: Bytes)
    ensures |r| == 4 * Words(|data|)
  {
    data + Zeros(4 * Words(|data|) - |data|)
  }

  function WriteWords(words: seq<u32>): (r: Bytes)
    ensures |r| == 4 * |words|
  {
    if words == [] then [] else WriteWords(words[..|words| - 1]) + Write32(words[|words| - 1])
  }

  function FirstOctet(p: RtpPacket): Octet
    requires |p.csrcs| <= KMaxCsrcIdentifiers
  {
    KRtpVersion * 0x40 + p.padding * 0x20 + (if p.extension.Some? then 0x10 else 0) + |p.csrcs|
  }

  function Fixed(p: RtpPacket): (r: Bytes)
    requires p.Buildable() && p.payloadType <= KPayloadTypeMax
    ensures |r| == 12
  {
    [FirstOctet(p), p.marker * 0x80 + p.payloadType] + Write16(p.seqNum) + Write32(p.timeStamp) + Write32(p.ssrc)
  }

  function WriteExtension(e: Option<Extension>): (r: Bytes)
    requires e.Some? ==> |e.value.data| <= 4 * 0x7FFF
    ensures |r| == if e.Some? then 4 + 4 * Words(|e.value.data|) else 0
  {
    if e.None? then []
    else Write16(e.value.kind % 0x1_0000) + Write16(Words(|e.value.data|)) + Filled(e.value.data)
  }

  function Layout(p: RtpPacket): (r: Bytes)
    requires p.Buildable() && p.payloadType <= KPayloadTypeMax
    ensures |r| >= 12
  {
    Fixed(p) + WriteWords(p.csrcs) + WriteExtension(p.extension) + p.payload
  }

  // ----- Reading -----

  /** The CSRC list; None when one is zero. */
  function ReadCsrcs(b: Bytes, at: nat, n: nat): Option<seq<u32>>
    requires at + 4 * n <= |b|
  {
    if n == 0 then Some([])
    else
      var most := ReadCsrcs(b, at, n - 1);
      var word := Read32(b, at + 4 * (n - 1));
      if most.None? || word == 0 then None else Some(most.value + [word])
  }

  /** The extension at a position of a packet of the given size, and what follows it. */
  function ReadExtension(b: Bytes, size: nat, at: nat): Option<(Extension, nat)>
    requires at <= size <= |b|
  {
    if size - at < 4 then None
    else
      var octets := 4 * Read16(b, at + 2) as int;
      if size - at - 4 < octets then None
      else Some((Extension(Read16(b, at), b[at + 4..at + 4 + octets]), at + 4 + octets))
  }

  function AfterCsrcs(b: Bytes, size: nat, csrcs: seq<u32>): Result<RtpPacket>
    requires 12 + 4 * |csrcs| <= size <= |b|
  {
    var at := 12 + 4 * |csrcs|;
    var extended := b[0] / 0x10 % 2 == 1;
    var e := if extended then ReadExtension(b, size, at) else None;
    if extended && e.None? then Leave(Corrupt)
    else
      Ok(RtpPacket(
        b[0] / 0x20 % 2, b[1] / 0x80, b[1] % 0x80, Read16(b, 2), Read32(b, 4), Read32(b, 8), csrcs,
        if extended then Some(e.value.0) else None,
        if extended then b[e.value.1..size] else b[at..size]))
  }

  /**
   The packet in the first octets of a buffer.  The code leaves it to its callers that a fixed
   header is there: a shorter packet is read on into the buffer.
   */
  function ParseSized(b: Bytes, size: int): Result<RtpPacket>
    requires 12 <= |b| && size <= |b|
  {
    var count := b[0] % 0x10;
    if count > 0 && size - 12 < 4 * count then Leave(Corrupt)
    else if count == 0 && size < 12 then
      if b[0] / 0x10 % 2 == 1 then Leave(Corrupt)
      else Ok(RtpPacket(b[0] / 0x20 % 2, b[1] / 0x80, b[1] % 0x80, Read16(b, 2), Read32(b, 4), Read32(b, 8), [], None, []))
    else
      match ReadCsrcs(b, 12, count)
      case None => Leave(Corrupt)
      case Some(csrcs) => CsrcCount(b, 12, count); AfterCsrcs(b, size, csrcs)
  }

  lemma {:induction false} CsrcCount(b: Bytes, at: nat, n: nat)
    requires at + 4 * n <= |b|
    ensures ReadCsrcs(b, at, n).Some? ==> |ReadCsrcs(b, at, n).value| == n
  {
    if n > 0 {
      CsrcCount(b, at, n - 1);
    }
  }

  /** RtpPacketProcessRtpL on a buffer holding a packet of the given size; reading outside the buffer is
      a panic. */
  function Parse(b: Bytes, size: nat): Result<RtpPacket>
    requires size <= |b|
  {
    if |b| < 1 then Leave(Panic)
    else if b[0] / 0x40 != KRtpVersion then Leave(Corrupt)
    else if b[0] / 0x20 % 2 == 0 then if |b| < 12 then Leave(Panic) else ParseSized(b, size)
    else if size < 1 then Leave(Panic)
    else if size - b[size - 1] - KMinRtpHeaderSize > 0 then ParseSized(b, size - b[size - 1])
    else Leave(Corrupt)
  }

  // ----- The round trip -----

  /** What the receiver can get of a packet: 16 bits of the extension type, its data in words. */
  function Received(p: RtpPacket): RtpPacket {
    if p.extension.None? then p
    else p.(extension := Some(Extension(p.extension.value.kind % 0x1_0000, Filled(p.extension.value.data))))
  }

  /** No CSRC is zero, and if the padding bit is set, the last octet, taken for a padding count, is
      zero and not part of the fixed header. */
  predicate Readable(p: RtpPacket)
    requires p.Buildable() && p.payloadType <= KPayloadTypeMax
  {
    var wire := Layout(p);
    0 !in p.csrcs && (p.padding == 1 ==> wire[|wire| - 1] == 0 && |wire| > 12)
  }

  lemma FixedReads(p: RtpPacket, after: Bytes)
    requires p.Buildable() && p.payloadType <= KPayloadTypeMax
    ensures var b := Fixed(p) + after;
            && b[0] == FirstOctet(p) && b[1] == p.marker * 0x80 + p.payloadType
            && Read16(b, 2) == p.seqNum && Read32(b, 4) == p.timeStamp && Read32(b, 8) == p.ssrc
  {
    hide FirstOctet, Write16, Write32, Read16, Read32;
    var b := Fixed(p) + after;
    var octets: Bytes := [FirstOctet(p), p.marker * 0x80 + p.payloadType];
    var seq_, stamp, source := Write16(p.seqNum), Write32(p.timeStamp), Write32(p.ssrc);
    assert b == octets + seq_ + (stamp + source + after);
    Read16Write16(octets, p.seqNum, stamp + source + after);
    assert b == (octets + seq_) + stamp + (source + after);
    Read32Write32(octets + seq_, p.timeStamp, source + after);
    assert b == (octets + seq_ + stamp) + source + after;
    Read32Write32(octets + seq_ + stamp, p.ssrc, after);
  }

  lemma FirstOctetBits(p: RtpPacket)
    requires |p.csrcs| <= KMaxCsrcIdentifiers
    ensures var o := FirstOctet(p);
            && o / 0x40 == KRtpVersion && o / 0x20 % 2 == p.padding
            && o / 0x10 % 2 == (if p.extension.Some? then 1 else 0) && o % 0x10 == |p.csrcs|
  {
  }

  lemma {:induction false} CsrcsRead(before: Bytes, words: seq<u32>, after: Bytes)
    ensures ReadCsrcs(before + WriteWords(words) + after, |before|, |words|) == if 0 in words then None else Some(words)
  {
    hide Write32, Read32;
    if words != [] {
      var most, last := words[..|words| - 1], words[|words| - 1];
      var b := before + WriteWords(words) + after;
      assert b == before + WriteWords(most) + (Write32(last) + after);
      CsrcsRead(before, most, Write32(last) + after);
      assert b == (before + WriteWords(most)) + Write32(last) + after;
      Read32Write32(before + WriteWords(most), last, after);
      assert words == most + [last];
    }
  }

  lemma PayloadReads(before: Bytes, payload: Bytes, rest: Bytes, size: nat)
    requires |before| <= size <= |before| + |payload|
    ensures (before + payload + rest)[|before|..size] == payload[..size - |before|]
  {
  }

  lemma FewWords(octets: nat)
    requires octets <= 4 * 0x7FFF
    ensures Words(octets) <= 0x7FFF
  {
  }

  lemma ExtensionReads(before: Bytes, e: Extension, after: Bytes, size: nat)
    requires |e.data| <= 4 * 0x7FFF
    requires |before| <= size <= |before + WriteExtension(Some(e)) + after|
    ensures ReadExtension(before + WriteExtension(Some(e)) + after, size, |before|) ==
            var end := |before| + 4 + 4 * Words(|e.data|);
            if size < end then None else Some((Extension(e.kind % 0x1_0000, Filled(e.data)), end))
  {
    hide Write16, Read16, Filled, Words;
    FewWords(|e.data|);
    var n: u16 := Words(|e.data|);
    var kind, words, data := Write16(e.kind % 0x1_0000), Write16(n), Filled(e.data);
    var b := before + WriteExtension(Some(e)) + after;
    assert b == before + kind + (words + data + after);
    Read16Write16(before, e.kind % 0x1_0000, words + data + after);
    assert b == (before + kind) + words + (data + after);
    Read16Write16(before + kind, n, data + after);
    assert b == (before + kind + words) + data + after;
    PayloadReads(before + kind + words, data, after, |before| + 4 + 4 * n);
    assert data[..4 * n] == data;
  }

  /** Where the payload starts. */
  function PayloadAt(p: RtpPacket): nat {
    12 + 4 * |p.csrcs| + if p.extension.Some? then 4 + 4 * Words(|p.extension.value.data|) else 0
  }

  /** A packet's parts, found in a buffer that goes on behind it. */
  lemma LayoutReads(p: RtpPacket, rest: Bytes)
    requires p.Buildable() && p.payloadType <= KPayloadTypeMax
    ensures var b := Layout(p) + rest;
            && b[0] == FirstOctet(p) && b[1] / 0x80 == p.marker && b[1] % 0x80 == p.payloadType
            && Read16(b, 2) == p.seqNum && Read32(b, 4) == p.timeStamp && Read32(b, 8) == p.ssrc
  {
    hide FirstOctet, Fixed, WriteExtension, WriteWords, Read16, Read32;
    var words, extension := WriteWords(p.csrcs), WriteExtension(p.extension);
    assert Layout(p) + rest == Fixed(p) + (words + extension + p.payload + rest);
    FixedReads(p, words + extension + p.payload + rest);
  }

  lemma LayoutExtensionReads(p: RtpPacket, rest: Bytes, size: nat)
    requires p.Buildable() && p.payloadType <= KPayloadTypeMax && p.extension.Some?
    requires 12 + 4 * |p.csrcs| <= size <= |Layout(p)|
    ensures ReadExtension(Layout(p) + rest, size, 12 + 4 * |p.csrcs|) ==
            if size < PayloadAt(p) then None
            else Some((Extension(p.extension.value.kind % 0x1_0000, Filled(p.extension.value.data)), PayloadAt(p)))
  {
    hide FirstOctet, Fixed, WriteExtension, ReadExtension, WriteWords, Filled, Words;
    var front, extension := Fixed(p) + WriteWords(p.csrcs), WriteExtension(p.extension);
    assert Layout(p) + rest == front + extension + (p.payload + rest);
    ExtensionReads(front, p.extension.value, p.payload + rest, size);
  }

  lemma LayoutPayloadReads(p: RtpPacket, rest: Bytes, size: nat)
    requires p.Buildable() && p.payloadType <= KPayloadTypeMax && PayloadAt(p) <= size <= |Layout(p)|
    ensures (Layout(p) + rest)[PayloadAt(p)..size] == p.payload[..size - PayloadAt(p)]
  {
    hide FirstOctet, Fixed, WriteExtension, WriteWords, Words;
    PayloadReads(Fixed(p) + WriteWords(p.csrcs) + WriteExtension(p.extension), p.payload, rest, size);
  }

  lemma LayoutSize(p: RtpPacket)
    requires p.Buildable() && p.payloadType <= KPayloadTypeMax
    ensures |Layout(p)| == PayloadAt(p) + |p.payload|
  {
    hide Words;
  }

  lemma AfterCsrcsReads(p: RtpPacket, rest: Bytes, size: nat)
    requires p.Buildable() && p.payloadType <= KPayloadTypeMax
    requires 12 + 4 * |p.csrcs| <= size <= |Layout(p)|
    ensures AfterCsrcs(Layout(p) + rest, size, p.csrcs) ==
            if size < PayloadAt(p) then Leave(Corrupt)
            else Ok(Received(p).(payload := p.payload[..size - PayloadAt(p)]))
  {
    hide Layout, FirstOctet, ReadExtension, Filled, Words, Read16, Read32;
    LayoutReads(p, rest);
    FirstOctetBits(p);
    LayoutSize(p);
    if p.extension.Some? {
      LayoutExtensionReads(p, rest, size);
    }
    if PayloadAt(p) <= size {
      LayoutPayloadReads(p, rest, size);
    }
  }

  /** Any cut that leaves more than the fixed header is read as the packet with less payload, or
      refused. */
  lemma SizedReads(p: RtpPacket, rest: Bytes, size: nat)
    requires p.Buildable() && p.payloadType <= KPayloadTypeMax
    requires 12 <= size <= |Layout(p)|
    ensures ParseSized(Layout(p) + rest, size) ==
            if 0 in p.csrcs || size < PayloadAt(p) then Leave(Corrupt)
            else Ok(Received(p).(payload := p.payload[..size - PayloadAt(p)]))
  {
    hide Layout, FirstOctet, AfterCsrcs, ReadCsrcs, Words, Received, Read16, Read32;
    LayoutReads(p, rest);
    FirstOctetBits(p);
    LayoutSize(p);
    LayoutCsrcsRead(p, rest);
    if 12 + 4 * |p.csrcs| <= size {
      AfterCsrcsReads(p, rest, size);
    }
  }

  lemma LayoutCsrcsRead(p: RtpPacket, rest: Bytes)
    requires p.Buildable() && p.payloadType <= KPayloadTypeMax
    ensures |Layout(p) + rest| >= 12 + 4 * |p.csrcs|
    ensures ReadCsrcs(Layout(p) + rest, 12, |p.csrcs|) == if 0 in p.csrcs then None else Some(p.csrcs)
  {
    hide FirstOctet, Fixed, WriteExtension, ReadCsrcs, WriteWords;
    var tail := WriteExtension(p.extension) + p.payload + rest;
    assert Layout(p) + rest == Fixed(p) + WriteWords(p.csrcs) + tail;
    CsrcsRead(Fixed(p), p.csrcs, tail);
  }

  // ----- What stands on the wire -----

  lemma {:induction false} WordsSpell(before: Bytes, words: seq<u32>, after: Bytes, k: nat)
    requires k < |words|
    ensures Spells(before + WriteWords(words) + after, |before| + 4 * k, 4, words[k])
    decreases |words|
  {
    hide Write32, Read32, Spells;
    var most, last := words[..|words| - 1], words[|words| - 1];
    var b := before + WriteWords(words) + after;
    if k < |most| {
      assert b == before + WriteWords(most) + (Write32(last) + after);
      WordsSpell(before, most, Write32(last) + after, k);
    } else {
      assert b == (before + WriteWords(most)) + Write32(last) + after;
      Read32Write32(before + WriteWords(most), last, after);
      ReadSpells(b, |before| + 4 * k);
    }
  }

  /** Section 5.1 of RFC 3550, octet by octet: version, padding, extension and CSRC count; marker and payload type;
      sequence number, time stamp and SSRC; the CSRC list; the extension with its length in words; the payload. */
  lemma RtpOnTheWire(p: RtpPacket)
    requires p.Buildable() && p.payloadType <= KPayloadTypeMax
    ensures var b, at := Layout(p), 12 + 4 * |p.csrcs|;
            && b[0] == 0x80 + p.padding * 0x20 + (if p.extension.Some? then 0x10 else 0) + |p.csrcs|
            && b[1] == p.marker * 0x80 + p.payloadType
            && Spells(b, 2, 2, p.seqNum) && Spells(b, 4, 4, p.timeStamp) && Spells(b, 8, 4, p.ssrc)
            && (forall k | 0 <= k < |p.csrcs| :: Spells(b, 12 + 4 * k, 4, p.csrcs[k]))
            && at <= |b| - |p.payload| && b[|b| - |p.payload|..] == p.payload
            && match p.extension
               case None => |b| - |p.payload| == at
               case Some(Extension(kind, data)) =>
                 var n := |b| - |p.payload| - (at + 4);
                 && |data| <= n < |data| + 4 && n % 4 == 0
                 && Spells(b, at, 2, kind % 0x1_0000) && Spells(b, at + 2, 2, n / 4)
                 && b[at + 4..at + 4 + n] == data + Zeros(n - |data|)
  {
    hide Layout, Fixed, WriteExtension, WriteWords, Read16, Read32, Spells, Words;
    var b := Layout(p);
    LayoutReads(p, []);
    assert b + [] == b;
    ReadSpells(b, 2);
    ReadSpells(b, 4);
    ReadSpells(b, 8);
    FirstAndSecond(b, p);
    PartsOfLayout(p);
    LayoutSize(p);
    forall k | 0 <= k < |p.csrcs| ensures Spells(b, 12 + 4 * k, 4, p.csrcs[k]) {
      WordsSpell(Fixed(p), p.csrcs, WriteExtension(p.extension) + p.payload, k);
    }
    if p.extension.Some? {
      WordsOf(|p.extension.value.data|);
      ExtensionOnTheWire(Fixed(p) + WriteWords(p.csrcs), p.extension.value, p.payload);
    }
  }

  lemma WordsOf(octets: nat)
    ensures octets <= 4 * Words(octets) < octets + 4
  {
  }

  lemma FirstAndSecond(b: Bytes, p: RtpPacket)
    requires |b| >= 12 && |p.csrcs| <= KMaxCsrcIdentifiers && p.payloadType <= KPayloadTypeMax
    requires b[0] == FirstOctet(p) && b[1] / 0x80 == p.marker && b[1] % 0x80 == p.payloadType
    ensures b[0] == 0x80 + p.padding * 0x20 + (if p.extension.Some? then 0x10 else 0) + |p.csrcs|
    ensures b[1] == p.marker * 0x80 + p.payloadType
  {
  }

  lemma PartsOfLayout(p: RtpPacket)
    requires p.Buildable() && p.payloadType <= KPayloadTypeMax
    ensures var b := Layout(p);
            && b == Fixed(p) + WriteWords(p.csrcs) + (WriteExtension(p.extension) + p.payload)
            && b == (Fixed(p) + WriteWords(p.csrcs)) + WriteExtension(p.extension) + p.payload
            && |p.payload| <= |b| && b[|b| - |p.payload|..] == p.payload
  {
    hide Fixed, WriteWords, WriteExtension;
  }

  lemma ExtensionOnTheWire(before: Bytes, e: Extension, after: Bytes)
    requires |e.data| <= 4 * 0x7FFF
    ensures var b, at, n := before + WriteExtension(Some(e)) + after, |before|, 4 * Words(|e.data|);
            && Spells(b, at, 2, e.kind % 0x1_0000) && Spells(b, at + 2, 2, Words(|e.data|))
            && at + 4 + n <= |b| && |e.data| <= n && b[at + 4..at + 4 + n] == e.data + Zeros(n - |e.data|)
  {
    hide Read16, Words, Spells, Filled, WriteExtension, Zeros;
    var b := before + WriteExtension(Some(e)) + after;
    WordsOf(|e.data|);
    FilledWithZeros(e.data);
    ExtensionReads(before, e, after, |b|);
    ReadSpells(b, |before|);
    ReadSpells(b, |before| + 2);
  }

  lemma FilledWithZeros(data: Bytes)
    ensures |data| <= 4 * Words(|data|) && Filled(data) == data + Zeros(4 * Words(|data|) - |data|)
  {
  }

  /**
   Building a packet and reading it back, whatever the buffer holds behind it, gives the packet as
   it can be received exactly if it is readable: for padding 0, exactly if no CSRC is zero.
   */
  lemma RtpRoundTrip(p: RtpPacket, rest: Bytes)
    requires p.Buildable() && p.payloadType <= KPayloadTypeMax
    ensures Parse(Layout(p) + rest, |Layout(p)|) == Ok(Received(p)) <==> Readable(p)
  {
    hide Layout, FirstOctet, ParseSized, Words;
    var wire := Layout(p);
    var b := wire + rest;
    LayoutReads(p, rest);
    FirstOctetBits(p);
    LayoutSize(p);
    var last, n := wire[|wire| - 1], |p.payload|;
    assert b[|wire| - 1] == last;
    assert p.payload[..n] == p.payload && Received(p).payload == p.payload;
    SizedReads(p, rest, |wire|);
    if |wire| - last - 12 > 0 {
      SizedReads(p, rest, |wire| - last);
      assert 0 < last <= n ==> |p.payload[..n - last]| < n;
    }
  }

  /** The padding bit and a payload of one octet, 5: the octet is taken for the padding count, and the packet is
      refused. */
  lemma PaddingBitRefused()
    ensures var p := RtpPacket(1, 0, 0, 1, 0, 7, [], None, [5]);
            p.Buildable() && Layout(p)[12] == 5 && Parse(Layout(p), |Layout(p)|) == Leave(Corrupt)
  {
    hide ParseSized, Fixed, FirstOctet, Read16, Read32;
    var p := RtpPacket(1, 0, 0, 1, 0, 7, [], None, [5]);
    assert Layout(p) == Fixed(p) + [5];
    FixedReads(p, [5]);
    FirstOctetBits(p);
  }

  /** A source that contributes as 0: the list is refused, and the packet with it. */
  lemma ZeroSourceRefused()
    ensures var p := RtpPacket(0, 0, 0, 1, 0, 7, [0], None, []);
            p.Buildable() && !Readable(p) && Parse(Layout(p), |Layout(p)|) != Ok(Received(p))
  {
    hide Layout, Parse;
    var p := RtpPacket(0, 0, 0, 1, 0, 7, [0], None, []);
    assert p.csrcs[0] == 0;
    RtpRoundTrip(p, []);
    assert Layout(p) + [] == Layout(p);
  }

  // ----- What is accepted -----

  /** The size of a packet without the padding its last octet counts. */
  function Unpadded(b: Bytes, size: nat): int
    requires 0 < size <= |b|
  {
    if b[0] % 0x40 >= 0x20 then size - b[size - 1] else size
  }

  lemma {:induction false} WordsRebuild(b: Bytes, at: nat, n: nat)
    requires at + 4 * n <= |b| && ReadCsrcs(b, at, n).Some?
    ensures WriteWords(ReadCsrcs(b, at, n).value) == b[at..at + 4 * n]
  {
    hide Read32, Write32;
    if n > 0 {
      var last := at + 4 * (n - 1);
      WordsRebuild(b, at, n - 1);
      Write32Read32(b, last);
      OneWordMore(ReadCsrcs(b, at, n - 1).value, Read32(b, last));
      assert b[at..last] + b[last..last + 4] == b[at..at + 4 * n];
    }
  }

  lemma OneWordMore(most: seq<u32>, word: u32)
    ensures WriteWords(most + [word]) == WriteWords(most) + Write32(word)
  {
    hide Write32;
    assert (most + [word])[..|most|] == most;
  }

  /** The list is read unless one of its words is zero. */
  lemma {:induction false} ReadUnlessZero(b: Bytes, at: nat, n: nat)
    requires at + 4 * n <= |b|
    ensures ReadCsrcs(b, at, n).Some? <==> forall k | 0 <= k < n :: !Spells(b, at + 4 * k, 4, 0)
  {
    hide Read32, Spells;
    if n > 0 {
      ReadUnlessZero(b, at, n - 1);
      ZeroWord(b, at + 4 * (n - 1));
    }
  }

  lemma ZeroWord(b: Bytes, at: nat)
    requires at + 4 <= |b|
    ensures Read32(b, at) == 0 <==> Spells(b, at, 4, 0)
  {
    hide Value, Read32;
    ReadSpells(b, at);
  }

  lemma FixedRebuilds(b: Bytes, p: RtpPacket)
    requires |b| >= 12 && 0x80 <= b[0] < 0xC0 && p.Buildable()
    requires p.padding == b[0] / 0x20 % 2 && p.marker == b[1] / 0x80 && p.payloadType == b[1] % 0x80
    requires p.seqNum == Read16(b, 2) && p.timeStamp == Read32(b, 4) && p.ssrc == Read32(b, 8)
    requires |p.csrcs| == b[0] % 0x10 && (p.extension.Some? <==> b[0] / 0x10 % 2 == 1)
    ensures Fixed(p) == b[..12]
  {
    hide Read16, Read32, Write16, Write32;
    FirstRebuilds(b[0], p);
    Write16Read16(b, 2);
    Write32Read32(b, 4);
    Write32Read32(b, 8);
    assert b[..12] == [b[0], b[1]] + b[2..4] + b[4..8] + b[8..12];
  }

  lemma FirstRebuilds(o: Octet, p: RtpPacket)
    requires 0x80 <= o < 0xC0 && p.Buildable() && p.padding == o / 0x20 % 2
    requires |p.csrcs| == o % 0x10 && (p.extension.Some? <==> o / 0x10 % 2 == 1)
    ensures FirstOctet(p) == o
  {
  }

  lemma WholeWords(data: Bytes, n: nat)
    requires |data| == 4 * n
    ensures Words(|data|) == n && Filled(data) == data
  {
  }

  lemma ExtensionRebuilds(b: Bytes, size: nat, at: nat)
    requires at <= size <= |b| && ReadExtension(b, size, at).Some?
    requires |ReadExtension(b, size, at).value.0.data| <= 4 * 0x7FFF
    ensures var (e, next) := ReadExtension(b, size, at).value;
            at <= next <= size && WriteExtension(Some(e)) == b[at..next]
  {
    hide Read16, Write16, Filled, Words;
    var (e, next) := ReadExtension(b, size, at).value;
    WholeWords(e.data, Read16(b, at + 2));
    Write16Read16(b, at);
    Write16Read16(b, at + 2);
    assert b[at..next] == b[at..at + 2] + b[at + 2..at + 4] + b[at + 4..next];
  }

  /** What an accepted packet was read from. */
  lemma ParsedParts(b: Bytes, size: nat)
    requires size <= |b| && Parse(b, size).Ok? && size > 0 && Unpadded(b, size) >= 12
    ensures var p, end, n := Parse(b, size).value, Unpadded(b, size), b[0] % 0x10;
            && 0x80 <= b[0] < 0xC0 && 12 + 4 * n <= end && end <= |b|
            && ReadCsrcs(b, 12, n) == Some(p.csrcs) && |p.csrcs| == n && AfterCsrcs(b, end, p.csrcs) == Ok(p)
  {
    hide ReadCsrcs, ReadExtension, Read16, Read32, AfterCsrcs;
    ParsedSized(b, size);
    SizedParts(b, Unpadded(b, size));
  }

  lemma ParsedSized(b: Bytes, size: nat)
    requires size <= |b| && Parse(b, size).Ok? && size > 0 && Unpadded(b, size) >= 12
    ensures 0 <= Unpadded(b, size) <= |b| && 0x80 <= b[0] < 0xC0 && Parse(b, size) == ParseSized(b, Unpadded(b, size))
  {
    hide ParseSized;
  }

  lemma SizedParts(b: Bytes, end: nat)
    requires 12 <= end <= |b| && ParseSized(b, end).Ok?
    ensures var p, n := ParseSized(b, end).value, b[0] % 0x10;
            && 12 + 4 * n <= end
            && ReadCsrcs(b, 12, n) == Some(p.csrcs) && |p.csrcs| == n && AfterCsrcs(b, end, p.csrcs) == Ok(p)
  {
    hide ReadCsrcs, Read16, Read32, ReadExtension;
    CsrcCount(b, 12, b[0] % 0x10);
  }

  lemma ParsedFields(b: Bytes, end: nat, csrcs: seq<u32>)
    requires 12 + 4 * |csrcs| <= end <= |b| && AfterCsrcs(b, end, csrcs).Ok?
    ensures var p, at := AfterCsrcs(b, end, csrcs).value, 12 + 4 * |csrcs|;
            && p.csrcs == csrcs && p.padding == b[0] / 0x20 % 2 && p.marker == b[1] / 0x80 && p.payloadType == b[1] % 0x80
            && p.seqNum == Read16(b, 2) && p.timeStamp == Read32(b, 4) && p.ssrc == Read32(b, 8)
            && (p.extension.Some? <==> b[0] / 0x10 % 2 == 1)
            && (p.extension.None? ==> p.payload == b[at..end])
            && (p.extension.Some? ==>
                  && ReadExtension(b, end, at).Some? && ReadExtension(b, end, at).value.0 == p.extension.value
                  && at <= ReadExtension(b, end, at).value.1 <= end
                  && p.payload == b[ReadExtension(b, end, at).value.1..end])
  {
    hide Read16, Read32;
  }

  /** The other round trip: a packet that was accepted, built again, gives the octets it was parsed from, up to its
      padding. */
  lemma ParsedRebuilds(b: Bytes, size: nat)
    requires size <= |b| && Parse(b, size).Ok? && size > 0 && Unpadded(b, size) >= 12
    ensures var p := Parse(b, size).value;
            && p.payloadType <= KPayloadTypeMax
            && (p.Buildable() ==> Layout(p) == b[..Unpadded(b, size)])
  {
    hide Parse, AfterCsrcs, ReadCsrcs, ReadExtension, Fixed, WriteWords, WriteExtension, Read16, Read32, Unpadded;
    var p, end, n := Parse(b, size).value, Unpadded(b, size), b[0] % 0x10;
    ParsedParts(b, size);
    ParsedFields(b, end, p.csrcs);
    if p.Buildable() {
      FixedRebuilds(b, p);
      WordsRebuild(b, 12, n);
      if p.extension.Some? {
        ExtensionRebuilds(b, end, 12 + 4 * n);
        Glued(b, 12 + 4 * n, ReadExtension(b, end, 12 + 4 * n).value.1, end);
      } else {
        NoExtension();
        Glued(b, 12 + 4 * n, 12 + 4 * n, end);
      }
    }
  }

  lemma NoExtension()
    ensures WriteExtension(None) == []
  {
  }

  lemma Glued(b: Bytes, i: nat, j: nat, end: nat)
    requires 12 <= i <= j <= end <= |b|
    ensures b[..12] + b[12..i] + b[i..j] + b[j..end] == b[..end]
    ensures i == j ==> b[i..j] == []
  {
  }

  /** Which packets are accepted, of those with room for a fixed header: version 2; with the padding bit, a last
      octet that leaves more than a fixed header; a CSRC list that fits and has no zero in it; and an extension that
      fits. */
  lemma AcceptedExactly(b: Bytes, size: nat)
    requires 12 <= size <= |b|
    ensures var end, at := Unpadded(b, size), 12 + 4 * (b[0] % 0x10);
            Parse(b, size).Ok? <==>
            && 0x80 <= b[0] < 0xC0 && (b[0] >= 0xA0 ==> end > 12) && at <= end
            && (forall k | 0 <= k < b[0] % 0x10 :: !Spells(b, 12 + 4 * k, 4, 0))
            && (b[0] % 0x20 >= 0x10 ==> at + 4 <= end && at + 4 + 4 * (b[at + 2] as int * 0x100 + b[at + 3]) <= end)
  {
    hide Spells, ParseSized;
    var n, end := b[0] % 0x10, Unpadded(b, size);
    if end >= 12 {
      SizedExactly(b, end);
    }
  }

  lemma SizedExactly(b: Bytes, end: nat)
    requires 12 <= end <= |b|
    ensures var n := b[0] % 0x10;
            var at := 12 + 4 * n;
            ParseSized(b, end).Ok? <==>
            && at <= end && (forall k | 0 <= k < n :: !Spells(b, 12 + 4 * k, 4, 0))
            && (b[0] % 0x20 >= 0x10 ==> at + 4 <= end && at + 4 + 4 * (b[at + 2] as int * 0x100 + b[at + 3]) <= end)
  {
    hide ReadCsrcs, Read32, Spells, AfterCsrcs;
    var n := b[0] % 0x10;
    if 12 + 4 * n <= end {
      ReadUnlessZero(b, 12, n);
      CsrcCount(b, 12, n);
      if ReadCsrcs(b, 12, n).Some? {
        AfterExactly(b, end, ReadCsrcs(b, 12, n).value);
      }
    }
  }

  lemma AfterExactly(b: Bytes, end: nat, csrcs: seq<u32>)
    requires 12 + 4 * |csrcs| <= end <= |b|
    ensures var at := 12 + 4 * |csrcs|;
            AfterCsrcs(b, end, csrcs).Ok? <==>
            (b[0] % 0x20 >= 0x10 ==> at + 4 <= end && at + 4 + 4 * (b[at + 2] as int * 0x100 + b[at + 3]) <= end)
  {
    hide Read32;
  }
}
