/**
 SRTCP (srtpcryptohandlersrtcp.cpp, srtppacketrtcp.cpp, srtppacketsrtcp.cpp): the packet
 carries its own 31-bit index, so nothing is estimated, and sent packets may come in any order.

   | header | encrypted payload | E bit and index | MKI | authentication tag |
 */
module Srtcp {
  import opened Machine
  import opened Octets
  import opened Outcomes
  import opened CounterMode
  import opened InitVector
  import opened SrtpPacket

  const E_BIT: u32 := 0x8000_0000

  // ----- Header -----

  predicate IsPadded(p: Bytes) { |p| > 0 && p[0] / 0x20 % 2 == 1 }

  /** UpdateHeaderLengthL.  The last octet is taken for the padding count whatever it is.  The source reads
      the first octets without asking whether they are there; reading outside the packet is the Panic. */
  function RtcpHeaderLength(p: Bytes): (r: Result<nat>)
    ensures r.Ok? ==> (r.value == 4 || r.value == 8) && r.value <= |p|
  {
    if |p| < 1 then Leave(Panic)
    else if p[0] / 0x40 != 2 then Leave(Corrupt)
    else if |p| < 2 then Leave(Panic)
    else if !(200 <= p[1] <= 204) then Leave(Corrupt)
    else if |p| < 4 then Leave(Panic)
    else if Read16(p, 2) as int * 4 > (if IsPadded(p) then |p| - p[|p| - 1] else |p|) then Leave(Corrupt)
    else if p[1] == 200 || p[1] == 201 then if |p| < 8 then Leave(Panic) else Ok(8)
    else Ok(4)
  }

  // ----- Protecting -----

  /** The word that carries the index: the E bit says whether the packet is encrypted. */
  function IndexWord(c: Context, index: u32): u32
    requires index < 0x8000_0000
  {
    if c.encAlg.AesCm? then E_BIT + index else index
  }

  /** StripEBit: exclusive or with the E bit. */
  function StripEBit(word: u32): u32 {
    if word >= 0x8000_0000 then word - 0x8000_0000 else word + 0x8000_0000
  }

  function RtcpTag(c: Context, portion: Bytes): (r: Bytes)
    requires c.Valid()
    ensures |r| == c.TagOctets()
  {
    if c.authAlg.AuthNull? then [] else c.hmac(c.authKey, portion)[..c.TagOctets()]
  }

  function ProtectRtcp(c: Context, index: u32, plain: Bytes): Result<Bytes>
    requires c.Valid() && index < 0x8000_0000
  {
    match RtcpHeaderLength(plain)
    case Leave(e) => Leave(e)
    case Ok(h) =>
      match Transform(c, index, plain[h..])
      case Leave(e) => Leave(e)
      case Ok(text) =>
        var portion := plain[..h] + text + Write32(IndexWord(c, index));
        Ok(portion + c.mki + RtcpTag(c, portion))
  }

  // ----- Unprotecting -----

  datatype ParsedRtcp = ParsedRtcp(header: nat, payload: nat, word: u32, tag: Bytes, mki: Bytes)

  /** CSRTPPacketSRTCP::ConstructL.  A packet too short for header, index, MKI and tag makes Mid panic, or is
      read outside. */
  function ParseRtcp(c: Context, wire: Bytes): (r: Result<ParsedRtcp>)
    requires c.Valid()
    ensures r.Ok? ==> r.value.header + r.value.payload + 4 <= |wire|
  {
    match RtcpHeaderLength(wire)
    case Leave(e) => Leave(e)
    case Ok(h) =>
      var deducted := h + |c.mki| + c.TagOctets() + 4;
      if |wire| < deducted then Leave(Panic)
      else
        var payload := |wire| - deducted;
        var end := |wire| - c.TagOctets();
        var mki := if |c.mki| == 0 then KMKINULL else wire[end - |c.mki|..end];
        Ok(ParsedRtcp(h, payload, Read32(wire, h + payload), wire[end..], if mki == KMKINULL then [] else mki))
  }

  /** AuthenticateL and DecryptL with the stripped index. */
  function OpenRtcp(c: Context, stripped: u32, wire: Bytes, p: ParsedRtcp): Result<Bytes>
    requires c.Valid() && p.header + p.payload + 4 <= |wire|
  {
    if c.authAlg.HmacSha1? && |p.tag| == 0 then Leave(NotFound)
    else if |p.tag| > 0 && RtcpTag(c, wire[..p.header + p.payload + 4]) != p.tag then Leave(NotFound)
    else match Transform(c, stripped, wire[p.header..p.header + p.payload])
         case Leave(e) => Leave(e)
         case Ok(text) => Ok(wire[..p.header] + text)
  }

  /** The header of a longer packet with the same first octets: only the padding count moves. */
  lemma HeaderOfLonger(plain: Bytes, wire: Bytes)
    requires |plain| <= |wire| && RtcpHeaderLength(plain).Ok? && wire[..4] == plain[..4]
    ensures IsPadded(wire) == IsPadded(plain)
    ensures RtcpHeaderLength(wire).Ok? <==> (IsPadded(plain) ==> 4 * Read16(plain, 2) as int <= |wire| - wire[|wire| - 1])
    ensures RtcpHeaderLength(wire).Ok? ==> RtcpHeaderLength(wire) == RtcpHeaderLength(plain)
  {
    assert forall i | 0 <= i < 4 :: wire[i] == wire[..4][i] == plain[..4][i] == plain[i];
  }

  /** Parsing the layout of a protected packet. */
  lemma ParseParts(c: Context, header: Bytes, text: Bytes, word: u32, tag: Bytes)
    requires c.Valid() && |tag| == c.TagOctets()
    ensures var wire := header + text + Write32(word) + c.mki + tag;
            RtcpHeaderLength(wire) == Ok(|header|) ==>
              ParseRtcp(c, wire) == Ok(ParsedRtcp(|header|, |text|, word, tag, if c.mki == KMKINULL then [] else c.mki))
  {
    hide RtcpHeaderLength, Read32, Write32;
    var wire := header + text + Write32(word) + c.mki + tag;
    Seams(header, text, Write32(word), c.mki, tag);
    assert Read32(wire, |header| + |text|) == word by {
      assert wire == (header + text) + Write32(word) + (c.mki + tag);
      Read32Write32(header + text, word, c.mki + tag);
    }
  }

  /** What the receiver finds in a protected packet. */
  lemma ParseOfProtectedRtcp(c: Context, index: u32, plain: Bytes)
    requires c.Valid() && index < 0x8000_0000 && ProtectRtcp(c, index, plain).Ok?
    ensures var wire, h := ProtectRtcp(c, index, plain).value, RtcpHeaderLength(plain).value;
            var text := Transform(c, index, plain[h..]).value;
            && |wire| >= |plain| + 4 && |text| == |plain| - h
            && (RtcpHeaderLength(wire).Ok? <==> (IsPadded(plain) ==> 4 * Read16(plain, 2) as int <= |wire| - wire[|wire| - 1]))
            && (RtcpHeaderLength(wire).Ok? ==>
                  && ParseRtcp(c, wire) ==
                     Ok(ParsedRtcp(h, |plain| - h, IndexWord(c, index),
                                   RtcpTag(c, plain[..h] + text + Write32(IndexWord(c, index))),
                                   if c.mki == KMKINULL then [] else c.mki))
                  && wire[..|plain| + 4] == plain[..h] + text + Write32(IndexWord(c, index))
                  && wire[h..|plain|] == text && wire[..h] == plain[..h])
  {
    hide Transform, RtcpTag, Read32, Write32, RtcpHeaderLength, Read16, IsPadded, ParseRtcp;
    var wire, h := ProtectRtcp(c, index, plain).value, RtcpHeaderLength(plain).value;
    var header, text, word := plain[..h], Transform(c, index, plain[h..]).value, IndexWord(c, index);
    var tag := RtcpTag(c, header + text + Write32(word));
    TransformTwice(c, index, plain[h..]);
    Seams(header, text, Write32(word), c.mki, tag);
    assert wire[..4] == wire[..h][..4] == plain[..4];
    HeaderOfLonger(plain, wire);
    ParseParts(c, header, text, word, tag);
  }

  /** Unprotecting a protected packet of any of the five types gives the packet back, and the index
      when it is encrypted; with the null cipher no index is needed.  It fails exactly when the MKI
      spells NULL, or when the packet announces padding and the last octet of the protected packet,
      taken for the padding count, leaves less room than the length field needs. */
  lemma RtcpRoundTrip(c: Context, index: u32, plain: Bytes)
    requires c.Valid() && index < 0x8000_0000 && ProtectRtcp(c, index, plain).Ok?
    ensures var wire := ProtectRtcp(c, index, plain).value;
            && (ParseRtcp(c, wire).Ok? <==>
                (IsPadded(plain) ==> 4 * Read16(plain, 2) as int <= |wire| - wire[|wire| - 1]))
            && (ParseRtcp(c, wire).Ok? ==>
                  var p := ParseRtcp(c, wire).value;
                  && p.word == IndexWord(c, index)
                  && (c.encAlg.AesCm? ==> StripEBit(p.word) == index)
                  && (forall i: u32 | c.encAlg.NullCipher? || i == index :: OpenRtcp(c, i, wire, p) == Ok(plain))
                  && (|c.mki| > 0 ==> (p.mki == c.mki <==> c.mki != KMKINULL)))
  {
    hide RtcpTag, RtcpHeaderLength, Read32, Write32, Read16, OpenRtcp, ParseRtcp, ProtectRtcp, Encrypt, IsPadded;
    ParseOfProtectedRtcp(c, index, plain);
    var wire := ProtectRtcp(c, index, plain).value;
    if ParseRtcp(c, wire).Ok? {
      ParsedHeader(c, wire);
      OpenOfProtected(c, index, plain);
    }
  }

  lemma ParsedHeader(c: Context, wire: Bytes)
    requires c.Valid() && ParseRtcp(c, wire).Ok?
    ensures RtcpHeaderLength(wire).Ok?
  {
  }

  lemma OpenOfProtected(c: Context, index: u32, plain: Bytes)
    requires c.Valid() && index < 0x8000_0000 && ProtectRtcp(c, index, plain).Ok?
    requires var wire := ProtectRtcp(c, index, plain).value; RtcpHeaderLength(wire).Ok?
    ensures var wire := ProtectRtcp(c, index, plain).value;
            && ParseRtcp(c, wire).Ok?
            && forall i: u32 | c.encAlg.NullCipher? || i == index :: OpenRtcp(c, i, wire, ParseRtcp(c, wire).value) == Ok(plain)
  {
    hide Transform, RtcpTag, RtcpHeaderLength, Read32, Write32, Read16, ParseRtcp, IsPadded;
    ParseOfProtectedRtcp(c, index, plain);
    var wire, h := ProtectRtcp(c, index, plain).value, RtcpHeaderLength(plain).value;
    var p := ParseRtcp(c, wire).value;
    TransformTwice(c, index, plain[h..]);
    assert plain[..h] + plain[h..] == plain;
    assert wire[..p.header + p.payload + 4] == wire[..|plain| + 4];
    assert wire[p.header..p.header + p.payload] == wire[h..|plain|];
    forall i: u32 | c.encAlg.NullCipher? ensures Transform(c, i, wire[h..|plain|]) == Ok(plain[h..]) {
      NullTransform(c, i, index, plain[h..]);
    }
  }

  lemma NullTransform(c: Context, i: u64, j: u64, text: Bytes)
    requires c.Valid() && c.encAlg.NullCipher?
    ensures Transform(c, i, text) == Transform(c, j, text) == Ok(text)
  {
  }

  /** Which packets the header check takes: version 2, a type from 200 to 204, the first words there, and a length
      that what is left without the padding has room for. */
  lemma RtcpHeaderAccepts(p: Bytes)
    ensures RtcpHeaderLength(p).Ok? <==>
            && |p| >= 4 && 0x80 <= p[0] < 0xC0 && 200 <= p[1] <= 204 && (p[1] <= 201 ==> |p| >= 8)
            && 4 * (p[2] as int * 0x100 + p[3]) <= |p| - (if p[0] % 0x40 >= 0x20 then p[|p| - 1] else 0)
  {
  }

  // ----- What stands on the wire -----

  lemma RtcpTagCovers(c: Context, portion: Bytes)
    requires c.Valid()
    ensures RtcpTag(c, portion) ==
            if c.authAlg.AuthNull? then [] else c.hmac(c.authKey, portion)[..c.TagOctets()]
  {
  }

  lemma ClearOctets(plain: Bytes)
    requires RtcpHeaderLength(plain).Ok?
    ensures |plain| >= 4 && RtcpHeaderLength(plain).value == (if plain[1] == 200 || plain[1] == 201 then 8 else 4) <= |plain|
  {
  }

  /** A protected packet, part by part: eight octets of a report or four of another packet in the clear, as many
      octets of text as before, the E bit with 31 bits of index, the MKI, and the first octets of the HMAC over
      everything up to the index. */
  lemma RtcpOnTheWire(c: Context, index: u32, plain: Bytes)
    requires c.Valid() && index < 0x8000_0000 && ProtectRtcp(c, index, plain).Ok?
    ensures |plain| >= 4
    ensures var wire, n, h := ProtectRtcp(c, index, plain).value, |plain|, if plain[1] == 200 || plain[1] == 201 then 8 else 4;
            && h <= n && |wire| == n + 4 + |c.mki| + c.TagOctets()
            && wire[..h] == plain[..h]
            && (c.encAlg.NullCipher? ==> wire[..n] == plain)
            && Spells(wire, n, 4, if c.encAlg.AesCm? then 0x8000_0000 + index as int else index)
            && wire[n + 4..n + 4 + |c.mki|] == c.mki
            && (c.authAlg.HmacSha1? ==>
                  wire[n + 4 + |c.mki|..] == c.hmac(c.authKey, wire[..n + 4])[..c.TagOctets()])
  {
    hide Transform, RtcpTag, RtcpHeaderLength, Write32, Value;
    ClearOctets(plain);
    var h := RtcpHeaderLength(plain).value;
    var header, text := plain[..h], Transform(c, index, plain[h..]).value;
    var word := IndexWord(c, index);
    TransformTwice(c, index, plain[h..]);
    NullKeepsText(c, index, plain[h..]);
    assert plain == plain[..h] + plain[h..];
    RtcpTagCovers(c, header + text + Write32(word));
    Seams(header, text, Write32(word), c.mki, RtcpTag(c, header + text + Write32(word)));
    WordSpells(header + text, word, c.mki + RtcpTag(c, header + text + Write32(word)));
    assert (header + text) + Write32(word) + (c.mki + RtcpTag(c, header + text + Write32(word)))
        == ProtectRtcp(c, index, plain).value;
  }

  lemma WordSpells(before: Bytes, word: u32, after: Bytes)
    ensures Spells(before + Write32(word) + after, |before|, 4, word)
  {
    hide Value, Read32, Write32;
    Read32Write32(before, word, after);
    ReadSpells(before + Write32(word) + after, |before|);
  }

  /** The text on the wire, octet by octet, as for SRTP. */
  lemma RtcpProtectedOctet(c: Context, index: u32, plain: Bytes, i: nat, counter: Block, k: nat)
    requires c.Valid() && c.encAlg.AesCm? && index < 0x8000_0000 && ProtectRtcp(c, index, plain).Ok? && k < 8 && |plain| >= 4
    requires (if plain[1] == 200 || plain[1] == 201 then 8 else 4) + i < |plain|
    requires Value(counter) == Value(CountIV(c.salt, c.ssrc, index)) + i / 16
    ensures var at := (if plain[1] == 200 || plain[1] == 201 then 8 else 4) + i;
            && at < |ProtectRtcp(c, index, plain).value|
            && Bit(ProtectRtcp(c, index, plain).value[at], k) ==
               if Bit(c.aes(c.encKey, counter)[i % 16], k) == 1 then 1 - Bit(plain[at], k) else Bit(plain[at], k)
  {
    hide RtcpHeaderLength, Encrypt, RtcpTag, CountIV, Counter, Value, Bit, Write32;
    ClearOctets(plain);
    var h, iv := RtcpHeaderLength(plain).value, CountIV(c.salt, c.ssrc, index);
    var text := plain[h..];
    EncryptLimit(c, iv, text);
    CounterIsSum(c.salt, c.ssrc, index, i / 16);
    SameValue(counter, Counter(iv, i / 16));
    CounterSpells(iv, i / 16);
    EncryptedOctet(c.aes, c.encKey, iv, text, i, counter, k);
    var cipher := Encrypt(c.aes, c.encKey, iv, text).value;
    var portion := plain[..h] + cipher + Write32(IndexWord(c, index));
    assert ProtectRtcp(c, index, plain).value == portion + c.mki + RtcpTag(c, portion);
    assert portion[h + i] == cipher[i];
  }

  lemma EncryptLimit(c: Context, iv: Block, text: Bytes)
    ensures Encrypt(c.aes, c.encKey, iv, text).Ok? <==> |text| <= KSRTPMaxTextLength
  {
  }

  /** Authentication, on any packet: with HMAC-SHA1 it is refused as not authentic exactly if the tag is not the
      beginning of the HMAC over everything up to the index. */
  lemma RtcpAuthenticExactly(c: Context, stripped: u32, wire: Bytes, p: ParsedRtcp)
    requires c.Valid() && p.header + p.payload + 4 <= |wire| && c.authAlg.HmacSha1?
    ensures OpenRtcp(c, stripped, wire, p) == Leave(NotFound) <==>
            p.tag != c.hmac(c.authKey, wire[..p.header + p.payload + 4])[..c.TagOctets()]
  {
  }

  /** A protected packet altered in any way in front of its MKI, the index word included, with MKI and tag kept: if
      it is still parsed, it is refused exactly if the two HMACs differ in the octets of the tag. */
  lemma AlteredReportRefused(c: Context, index: u32, plain: Bytes, bad: Bytes, stripped: u32)
    requires c.Valid() && c.authAlg.HmacSha1? && index < 0x8000_0000 && ProtectRtcp(c, index, plain).Ok?
    requires var wire, n := ProtectRtcp(c, index, plain).value, |plain|;
             |bad| == |wire| && |wire| >= n + 4 && bad[n + 4..] == wire[n + 4..]
    requires ParseRtcp(c, bad).Ok?
    ensures var wire, n, t := ProtectRtcp(c, index, plain).value, |plain|, c.TagOctets();
            OpenRtcp(c, stripped, bad, ParseRtcp(c, bad).value) == Leave(NotFound) <==>
            c.hmac(c.authKey, bad[..n + 4])[..t] != c.hmac(c.authKey, wire[..n + 4])[..t]
  {
    hide RtcpHeaderLength, Transform, RtcpTag, Read32, Write32, OpenRtcp, ProtectRtcp, Value;
    var wire, n, p := ProtectRtcp(c, index, plain).value, |plain|, ParseRtcp(c, bad).value;
    RtcpOnTheWire(c, index, plain);
    RtcpAuthenticExactly(c, stripped, bad, p);
    assert bad[n + 4..][|c.mki|..] == bad[n + 4 + |c.mki|..] && wire[n + 4..][|c.mki|..] == wire[n + 4 + |c.mki|..];
  }

  /** The MKI, on any packet that is parsed: the receiver keeps it unless it spells NULL. */
  lemma RtcpMkiExactly(c: Context, wire: Bytes)
    requires c.Valid() && ParseRtcp(c, wire).Ok?
    ensures |wire| >= c.TagOctets() + |c.mki|
    ensures |c.mki| > 0 ==>
              (ParseRtcp(c, wire).value.mki == c.mki <==>
               wire[|wire| - c.TagOctets() - |c.mki|..|wire| - c.TagOctets()] == c.mki && c.mki != KMKINULL)
  {
    hide RtcpHeaderLength, Read32;
  }

  /** A padded receiver report the receiver refuses: without MKI and tag, the last octet of index 200 is
      taken for 200 octets of padding. */
  lemma PaddedReportRefused(c: Context)
    requires c.Valid() && c.authAlg.AuthNull? && c.mki == []
    ensures var plain := [0xA0, 201, 0, 1, 0, 0, 0, 4];
            && ProtectRtcp(c, 200, plain).Ok?
            && |ProtectRtcp(c, 200, plain).value| == 12
            && ParseRtcp(c, ProtectRtcp(c, 200, plain).value) == Leave(Corrupt)
  {
    hide Transform, ParseRtcp, RtcpTag;
    var plain: Bytes := [0xA0, 201, 0, 1, 0, 0, 0, 4];
    assert RtcpHeaderLength(plain) == Ok(8);
    assert plain[8..] == [] && plain[..8] == plain;
    NoText(c, 200);
    var wire := ProtectRtcp(c, 200, plain).value;
    assert wire == plain + Write32(IndexWord(c, 200)) + [] + RtcpTag(c, plain + [] + Write32(IndexWord(c, 200)));
    assert wire[|wire| - 1] == 200 && wire[..8] == plain;
    HeaderOfLonger(plain, wire);
    RefusedAsCorrupt(c, wire);
  }

  lemma NoText(c: Context, index: u32)
    requires c.Valid()
    ensures Transform(c, index, []) == Ok([])
  {
    if c.encAlg.AesCm? {
      TransformTwice(c, index, []);
    }
  }

  lemma RefusedAsCorrupt(c: Context, wire: Bytes)
    requires c.Valid() && RtcpHeaderLength(wire) == Leave(Corrupt)
    ensures ParseRtcp(c, wire) == Leave(Corrupt)
  {
  }
}
