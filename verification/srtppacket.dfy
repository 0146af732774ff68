/**
 SRTP packets: how one is laid out from a plain RTP packet, and how the receiver takes it
 apart again (srtppacket.cpp, srtppacketrtp.cpp, srtppacketsrtp.cpp and the packet side of
 srtpcryptohandlersrtp.cpp).  HMAC-SHA1 is a parameter giving 20 octets.

   | header | encrypted payload | MKI | authentication tag |
 */
module SrtpPacket {
  import opened Machine
  import opened Octets
  import opened Outcomes
  import opened CounterMode
  import opened InitVector
  import opened Rollover

  type Digest = b: Bytes | |b| == 20 witness Zeros(20)
  type Hmac = (Bytes, Bytes) -> Digest

  datatype EncAlg = NullCipher | AesCm
  datatype AuthAlg = AuthNull | HmacSha1

  /** The crypto context and the session keys derived from it.  With key derivation rate 0 the
      session keys do not depend on the packet index. */
  datatype Context = Context(
    aes: BlockCipher, hmac: Hmac,
    encAlg: EncAlg, authAlg: AuthAlg, tagBits: nat,
    encKey: Block, authKey: Bytes, salt: Bytes, ssrc: u32, mki: Bytes)
  {
    /** CSRTPCryptoContext::Valid, for the two authentication modes modelled here. */
    predicate Valid() {
      && |salt| == 14
      && (authAlg.HmacSha1? ==> tagBits == 80 || tagBits == 32)
      && (authAlg.AuthNull? ==> tagBits == 0)
    }

    function TagOctets(): nat { tagBits / 8 }
  }

  /** The literal the source uses for "no MKI in the packet": the characters NULL. */
  const KMKINULL: Bytes := [0x4E, 0x55, 0x4C, 0x4C]

  // ----- RTP header length -----

  const KMinSizeRtpHeader := 12

  function CsrcCount(p: Bytes): nat
    requires |p| >= 12
  {
    p[0] % 0x10
  }

  predicate HasExtension(p: Bytes)
    requires |p| >= 12
  {
    p[0] / 0x10 % 2 == 1
  }

  function SequenceNumber(p: Bytes): u16
    requires |p| >= 12
  {
    Read16(p, 2)
  }

  /** Where the extension header of a packet begins, and how many octets its data has. */
  function ExtensionAt(p: Bytes): nat
    requires |p| >= 12
  {
    12 + 4 * CsrcCount(p)
  }

  function ExtensionOctets(p: Bytes): nat
    requires |p| >= 12 && ExtensionAt(p) + 4 <= |p|
  {
    4 * Read16(p, ExtensionAt(p) + 2)
  }

  /** Section 5.1 and 5.3.1 of RFC 3550: the header the first octets announce lies within the packet. */
  predicate WellFormedRtp(p: Bytes) {
    && |p| >= 12
    && ExtensionAt(p) <= |p|
    && (HasExtension(p) ==> ExtensionAt(p) + 4 <= |p| && ExtensionAt(p) + 4 + ExtensionOctets(p) <= |p|)
  }

  /** The length section 5.1 of RFC 3550 gives the header. */
  function RtpHeaderLength(p: Bytes): nat
    requires WellFormedRtp(p)
  {
    if HasExtension(p) then ExtensionAt(p) + 4 + ExtensionOctets(p) else ExtensionAt(p)
  }

  /** UpdateHeaderLengthL.  The extension length is checked after the pointer has passed the
      extension, so it is compared with what is left behind it. */
  function HeaderLength(p: Bytes): (r: Result<nat>)
    ensures r.Ok? ==> 12 <= r.value <= |p|
  {
    if |p| < 12 then Leave(Corrupt)
    else if HasExtension(p) then
      if |p| - ExtensionAt(p) < 4 then Leave(Corrupt)
      else
        var end := ExtensionAt(p) + 4 + ExtensionOctets(p);
        if |p| - end < ExtensionOctets(p) || end > |p| then Leave(Corrupt) else Ok(end)
    else if ExtensionAt(p) > |p| then Leave(Corrupt)
    else Ok(ExtensionAt(p))
  }

  /** The header is accepted exactly when it is well formed and a packet with an extension has at
      least as much payload as extension data; then the length is the standard's. */
  lemma HeaderLengthAccepts(p: Bytes)
    ensures HeaderLength(p).Ok? <==>
            WellFormedRtp(p) && (HasExtension(p) ==> |p| - RtpHeaderLength(p) >= ExtensionOctets(p))
    ensures HeaderLength(p).Ok? ==> HeaderLength(p).value == RtpHeaderLength(p)
  {
  }

  /** A well-formed packet the source refuses: one extension word and no payload. */
  lemma ShortPayloadAfterExtensionRefused()
    ensures var p := [0x90, 0] + Zeros(10) + [0, 0, 0, 1] + Zeros(4);
            WellFormedRtp(p) && HeaderLength(p) == Leave(Corrupt)
  {
    var p: Bytes := [0x90, 0] + Zeros(10) + [0, 0, 0, 1] + Zeros(4);
    assert p[0] == 0x90 && p[12 + 2] == 0 && p[12 + 3] == 1 && |p| == 20;
    assert HasExtension(p) && CsrcCount(p) == 0 && ExtensionOctets(p) == 4;
  }

  /** The header is read the same from any longer packet that begins with it. */
  lemma HeaderLengthStable(p: Bytes, q: Bytes)
    requires HeaderLength(p).Ok? && |q| >= |p|
    requires p[..HeaderLength(p).value] == q[..HeaderLength(p).value]
    ensures HeaderLength(q) == HeaderLength(p)
    ensures SequenceNumber(q) == SequenceNumber(p)
  {
    var h := HeaderLength(p).value;
    assert forall i | 0 <= i < h :: p[i] == p[..h][i] == q[..h][i] == q[i];
  }

  // ----- The transforms -----

  function Transform(c: Context, index: u64, text: Bytes): Result<Bytes>
    requires c.Valid()
  {
    if c.encAlg.NullCipher? then Ok(text)
    else Encrypt(c.aes, c.encKey, CountIV(c.salt, c.ssrc, index), text)
  }

  lemma TransformTwice(c: Context, index: u64, text: Bytes)
    requires c.Valid() && Transform(c, index, text).Ok?
    ensures |Transform(c, index, text).value| == |text|
    ensures Transform(c, index, Transform(c, index, text).value) == Ok(text)
  {
    if c.encAlg.AesCm? {
      EncryptIsXorWithKeystream(c.aes, c.encKey, CountIV(c.salt, c.ssrc, index), text);
    }
  }

  /** The tag over the authenticated portion followed by the octets of the counter. */
  function Tag(c: Context, portion: Bytes, roc: u32): (r: Result<Bytes>)
    requires c.Valid()
    ensures r.Ok? ==> |r.value| == c.TagOctets()
  {
    if c.authAlg.AuthNull? then Ok([])
    else match RocOctets(roc)
         case None => Leave(Panic)
         case Some(octets) => Ok(c.hmac(c.authKey, portion + octets)[..c.TagOctets()])
  }

  // ----- Protecting -----

  /** CSRTPPacketRTP followed by EncryptL, at roll-over counter roc. */
  function Protect(c: Context, roc: u32, plain: Bytes): Result<Bytes>
    requires c.Valid()
  {
    match HeaderLength(plain)
    case Leave(e) => Leave(e)
    case Ok(h) =>
      match Transform(c, SenderIndex(roc, SequenceNumber(plain)), plain[h..])
      case Leave(e) => Leave(e)
      case Ok(text) =>
        match Tag(c, plain[..h] + text, roc)
        case Leave(e) => Leave(e)
        case Ok(tag) => Ok(plain[..h] + text + c.mki + tag)
  }

  /** Exactly which packets can be protected. */
  lemma ProtectSucceeds(c: Context, roc: u32, plain: Bytes)
    requires c.Valid()
    ensures Protect(c, roc, plain).Ok? <==>
            && HeaderLength(plain).Ok?
            && (c.encAlg.AesCm? ==> |plain| - HeaderLength(plain).value <= KSRTPMaxTextLength)
            && (c.authAlg.HmacSha1? ==> roc < 0x1_0000)
  {
    RocOctetsDefined(roc);
  }

  // ----- Unprotecting -----

  /** What CSRTPPacketSRTP finds in a packet. */
  datatype Parsed = Parsed(header: nat, payload: nat, tag: Bytes, mki: Bytes)

  /** CSRTPPacketSRTP::ConstructL.  Slices outside the packet panic. */
  function Parse(c: Context, wire: Bytes): (r: Result<Parsed>)
    requires c.Valid()
    ensures r.Ok? ==> r.value.header + r.value.payload <= |wire| && |wire| >= 12
    ensures r.Ok? ==> HeaderLength(wire) == Ok(r.value.header)
  {
    match HeaderLength(wire)
    case Leave(e) => Leave(e)
    case Ok(h) =>
      var deducted := h + |c.mki| + c.TagOctets();
      if |wire| > h && |wire| < deducted then Leave(Panic)
      else if |c.mki| > 0 && |wire| < c.TagOctets() + |c.mki| then Leave(Panic)
      else
        var payload := if |wire| <= h then 0 else |wire| - deducted;
        var tag := if c.authAlg.HmacSha1? then wire[|wire| - c.TagOctets()..] else [];
        var mki := if |c.mki| == 0 then KMKINULL
                   else wire[|wire| - c.TagOctets() - |c.mki|..|wire| - c.TagOctets()];
        Ok(Parsed(h, payload, tag, if mki == KMKINULL then [] else mki))
  }

  predicate MkiMatches(c: Context, p: Parsed) {
    |c.mki| > 0 ==> p.mki == c.mki
  }

  /** AuthenticateL: the tag is recomputed with v, because ROC is not updated yet. */
  function Authenticate(c: Context, v: s32, wire: Bytes, p: Parsed): Result<()>
    requires c.Valid() && p.header + p.payload <= |wire|
  {
    if |p.tag| > 0 && c.authAlg.HmacSha1? then
      match Tag(c, wire[..p.header + p.payload], ToU32(v))
      case Leave(e) => Leave(e)
      case Ok(tag) => if tag == p.tag then Ok(()) else Leave(NotFound)
    else Ok(())
  }

  /** DecryptL */
  function Decrypt(c: Context, index: u64, wire: Bytes, p: Parsed): Result<Bytes>
    requires c.Valid() && p.header + p.payload <= |wire|
  {
    match Transform(c, index, wire[p.header..p.header + p.payload])
    case Leave(e) => Leave(e)
    case Ok(text) => Ok(wire[..p.header] + text)
  }

  /** The packet side of unprotecting, given the receiver's guess v and the index it makes of it. */
  function Unprotect(c: Context, v: s32, index: u64, wire: Bytes): Result<Bytes>
    requires c.Valid()
  {
    match Parse(c, wire)
    case Leave(e) => Leave(e)
    case Ok(p) =>
      if !MkiMatches(c, p) then Leave(NotFound)
      else match Authenticate(c, v, wire, p)
           case Leave(e) => Leave(e)
           case Ok(_) => Decrypt(c, index, wire, p)
  }

  /** The text EncryptL puts into the packet. */
  function ProtectedText(c: Context, roc: u32, plain: Bytes): Bytes
    requires c.Valid() && Protect(c, roc, plain).Ok?
  {
    Transform(c, SenderIndex(roc, SequenceNumber(plain)), plain[HeaderLength(plain).value..]).value
  }

  /** The receiver re-derives header length, payload, MKI, tag and authenticated octets of every
      protected packet; only an MKI spelling NULL is taken for none. */
  lemma ParseOfProtected(c: Context, roc: u32, plain: Bytes)
    requires c.Valid() && Protect(c, roc, plain).Ok?
    ensures var wire, h, text := Protect(c, roc, plain).value, HeaderLength(plain).value, ProtectedText(c, roc, plain);
            && HeaderLength(wire) == HeaderLength(plain)
            && SequenceNumber(wire) == SequenceNumber(plain)
            && wire[..|plain|] == plain[..h] + text
            && wire[h..|plain|] == text
            && Parse(c, wire) == Ok(Parsed(h, |plain| - h, Tag(c, plain[..h] + text, roc).value,
                                           if c.mki == KMKINULL then [] else c.mki))
  {
    hide HeaderLength, Transform, Tag, SenderIndex, Parse, SequenceNumber;
    var wire, h := Protect(c, roc, plain).value, HeaderLength(plain).value;
    var header, text := plain[..h], ProtectedText(c, roc, plain);
    TransformTwice(c, SenderIndex(roc, SequenceNumber(plain)), plain[h..]);
    var tag := Tag(c, header + text, roc).value;
    Behind(header, text, c.mki, tag);
    assert header[..h] == plain[..h];
    HeaderLengthStable(plain, wire);
    ParseParts(c, header, text, tag);
  }

  lemma Behind(header: Bytes, text: Bytes, mki: Bytes, tag: Bytes)
    ensures var wire := header + text + mki + tag;
            && wire[..|header|] == header && wire[..|header| + |text|] == header + text
            && wire[|header|..|header| + |text|] == text
            && wire[|wire| - |tag|..] == tag && wire[|wire| - |tag| - |mki|..|wire| - |tag|] == mki
  {
  }

  /** Parsing the layout of a protected packet. */
  lemma ParseParts(c: Context, header: Bytes, text: Bytes, tag: Bytes)
    requires c.Valid() && |tag| == c.TagOctets()
    requires HeaderLength(header + text + c.mki + tag) == Ok(|header|)
    ensures Parse(c, header + text + c.mki + tag) ==
            Ok(Parsed(|header|, |text|, tag, if c.mki == KMKINULL then [] else c.mki))
  {
    hide HeaderLength;
    Behind(header, text, c.mki, tag);
  }

  /** The receiver recomputes its sender's tag. */
  lemma AuthenticProtected(c: Context, roc: u32, wire: Bytes, p: Parsed)
    requires c.Valid() && p.header + p.payload <= |wire|
    requires Tag(c, wire[..p.header + p.payload], roc) == Ok(p.tag)
    ensures Authenticate(c, ToS32(roc), wire, p) == Ok(())
  {
    hide Tag;
    U32OfS32(roc);
  }

  /** Decrypting with the sender's index undoes the encryption. */
  lemma DecryptProtected(c: Context, index: u64, text: Bytes, wire: Bytes, p: Parsed)
    requires c.Valid() && p.header + p.payload <= |wire|
    requires Transform(c, index, text) == Ok(wire[p.header..p.header + p.payload])
    ensures Decrypt(c, index, wire, p) == Ok(wire[..p.header] + text)
  {
    hide Transform;
    var sent := wire[p.header..p.header + p.payload];
    assert Transform(c, index, sent) == Ok(text) by {
      TransformTwice(c, index, text);
    }
  }

  /** Unprotecting a protected packet gives the packet back, for every packet the sender accepts,
      any CSRC list, extension, MKI and tag length, as long as the two machine forms of the index
      agree; it fails exactly when the context's MKI spells NULL. */
  lemma RoundTrip(c: Context, roc: u32, plain: Bytes)
    requires c.Valid() && Protect(c, roc, plain).Ok?
    requires roc % 0x1_0000 < 0x8000
    ensures Unprotect(c, ToS32(roc), ReceiverIndex(ToS32(roc), SequenceNumber(plain)), Protect(c, roc, plain).value) ==
            if c.mki == KMKINULL then Leave(NotFound) else Ok(plain)
  {
    hide Tag, Transform, Parse, Authenticate, Decrypt, HeaderLength;
    var sn, h := SequenceNumber(plain), HeaderLength(plain).value;
    var wire, text := Protect(c, roc, plain).value, ProtectedText(c, roc, plain);
    ParseOfProtected(c, roc, plain);
    var p := Parse(c, wire).value;
    AuthenticProtected(c, roc, wire, p);
    SenderAndReceiverAgree(roc, sn);
    DecryptProtected(c, SenderIndex(roc, sn), plain[h..], wire, p);
    assert wire[..h] + plain[h..] == plain by {
      assert wire[..h] == wire[..|plain|][..h] == plain[..h];
    }
  }

  // ----- What stands on the wire -----

  /** A protected packet, part by part: the header in the clear, as many octets of payload as before, the MKI,
      and the first octets of the HMAC over header, payload and the octets of ROC. */
  lemma ProtectedOnTheWire(c: Context, roc: u32, plain: Bytes)
    requires c.Valid() && Protect(c, roc, plain).Ok?
    ensures WellFormedRtp(plain)
    ensures var wire, h, n := Protect(c, roc, plain).value, RtpHeaderLength(plain), |plain|;
            && h <= n && |wire| == n + |c.mki| + c.TagOctets()
            && wire[..h] == plain[..h]
            && (c.encAlg.NullCipher? ==> wire[..n] == plain)
            && wire[n..n + |c.mki|] == c.mki
            && (c.authAlg.HmacSha1? ==>
                  && RocOctets(roc).Some?
                  && wire[n + |c.mki|..] == c.hmac(c.authKey, wire[..n] + RocOctets(roc).value)[..c.TagOctets()])
  {
    hide HeaderLength, Transform, Tag, SenderIndex, SequenceNumber, RocOctets, WellFormedRtp, RtpHeaderLength;
    HeaderLengthAccepts(plain);
    var h := HeaderLength(plain).value;
    var header, text := plain[..h], ProtectedText(c, roc, plain);
    TransformTwice(c, SenderIndex(roc, SequenceNumber(plain)), plain[h..]);
    NullKeepsText(c, SenderIndex(roc, SequenceNumber(plain)), plain[h..]);
    assert plain == plain[..h] + plain[h..];
    TagCovers(c, header + text, roc);
    Behind(header, text, c.mki, Tag(c, header + text, roc).value);
  }

  lemma NullKeepsText(c: Context, index: u64, text: Bytes)
    requires c.Valid()
    ensures c.encAlg.NullCipher? ==> Transform(c, index, text) == Ok(text)
  {
  }

  /** The tag is of the portion and the octets of the counter, under the authentication key. */
  lemma TagCovers(c: Context, portion: Bytes, roc: u32)
    requires c.Valid()
    ensures Tag(c, portion, roc) ==
            if c.authAlg.AuthNull? then Ok([])
            else if RocOctets(roc).None? then Leave(Panic)
            else Ok(c.hmac(c.authKey, portion + RocOctets(roc).value)[..c.TagOctets()])
  {
  }

  /**
   The payload on the wire, octet by octet: under AES-CM, bit k of payload octet i is flipped exactly if it is set
   in the block cipher's octet i mod 16 for the block that spells IV + i / 16.
   */
  lemma ProtectedOctet(c: Context, roc: u32, plain: Bytes, i: nat, counter: Block, k: nat)
    requires c.Valid() && c.encAlg.AesCm? && Protect(c, roc, plain).Ok? && k < 8
    requires WellFormedRtp(plain) && RtpHeaderLength(plain) + i < |plain|
    requires Value(counter) == Value(CountIV(c.salt, c.ssrc, SenderIndex(roc, SequenceNumber(plain)))) + i / 16
    ensures var at := RtpHeaderLength(plain) + i;
            && at < |Protect(c, roc, plain).value|
            && Bit(Protect(c, roc, plain).value[at], k) ==
               if Bit(c.aes(c.encKey, counter)[i % 16], k) == 1 then 1 - Bit(plain[at], k) else Bit(plain[at], k)
  {
    hide HeaderLength, Encrypt, Tag, SenderIndex, SequenceNumber, CountIV, Counter, Value, Bit, RtpHeaderLength, WellFormedRtp;
    HeaderLengthAccepts(plain);
    ProtectSucceeds(c, roc, plain);
    var h, iv := HeaderLength(plain).value, CountIV(c.salt, c.ssrc, SenderIndex(roc, SequenceNumber(plain)));
    var text := plain[h..];
    CounterIsSum(c.salt, c.ssrc, SenderIndex(roc, SequenceNumber(plain)), i / 16);
    SameValue(counter, Counter(iv, i / 16));
    CounterSpells(iv, i / 16);
    EncryptedOctet(c.aes, c.encKey, iv, text, i, counter, k);
    ParseOfProtected(c, roc, plain);
    assert Protect(c, roc, plain).value[h + i] == Protect(c, roc, plain).value[h..|plain|][i];
  }

  /** Authentication, on any packet with a tag: it succeeds exactly if the tag is the beginning of the HMAC over
      everything up to the MKI and the octets of the guessed counter. */
  lemma AuthenticExactly(c: Context, v: s32, wire: Bytes, p: Parsed)
    requires c.Valid() && p.header + p.payload <= |wire| && c.authAlg.HmacSha1? && |p.tag| > 0
    ensures if !(0 <= v < 0x1_0000) then Authenticate(c, v, wire, p) == Leave(Panic)
            else
              && RocOctets(v).Some?
              && var tag := c.hmac(c.authKey, wire[..p.header + p.payload] + RocOctets(v).value)[..c.TagOctets()];
                 Authenticate(c, v, wire, p) == if p.tag == tag then Ok(()) else Leave(NotFound)
  {
    hide RocOctets;
    RocOctetsDefined(ToU32(v));
  }

  /** What the receiver authenticates of a packet as long as a protected one: everything up to the MKI, unless the
      header, altered, claims the whole packet. */
  function Covered(c: Context, bad: Bytes): nat
    requires c.Valid() && Parse(c, bad).Ok?
  {
    if HeaderLength(bad).value == |bad| then |bad| else |bad| - |c.mki| - c.TagOctets()
  }

  lemma CoveredIsParsed(c: Context, bad: Bytes)
    requires c.Valid() && Parse(c, bad).Ok?
    ensures Parse(c, bad).value.header + Parse(c, bad).value.payload == Covered(c, bad) <= |bad|
    ensures c.authAlg.HmacSha1? && |bad| >= c.TagOctets() ==> Parse(c, bad).value.tag == bad[|bad| - c.TagOctets()..]
  {
    hide HeaderLength;
  }

  /**
   A protected packet altered in any way in front of its MKI, with MKI and tag kept: if it is still parsed, it is
   authentic exactly if the two HMACs agree in the octets of the tag.
   */
  lemma AlteredInFront(c: Context, roc: u32, plain: Bytes, bad: Bytes)
    requires c.Valid() && c.authAlg.HmacSha1? && roc < 0x1_0000 && Protect(c, roc, plain).Ok?
    requires var wire := Protect(c, roc, plain).value;
             |bad| == |wire| && bad[|wire| - c.TagOctets() - |c.mki|..] == wire[|wire| - c.TagOctets() - |c.mki|..]
    requires Parse(c, bad).Ok?
    ensures RocOctets(roc).Some?
    ensures var wire, t, octets := Protect(c, roc, plain).value, c.TagOctets(), RocOctets(roc).value;
            && Authenticate(c, roc, bad, Parse(c, bad).value) ==
               if c.hmac(c.authKey, bad[..Covered(c, bad)] + octets)[..t] == c.hmac(c.authKey, wire[..|plain|] + octets)[..t]
               then Ok(()) else Leave(NotFound)
  {
    hide HeaderLength, Parse, Tag, Protect, RocOctets, RtpHeaderLength, WellFormedRtp;
    var wire := Protect(c, roc, plain).value;
    ProtectedOnTheWire(c, roc, plain);
    CoveredIsParsed(c, bad);
    AuthenticExactly(c, roc, bad, Parse(c, bad).value);
    var at := |c.mki|;
    assert bad[|wire| - c.TagOctets() - at..][at..] == bad[|wire| - c.TagOctets()..];
    assert wire[|wire| - c.TagOctets() - at..][at..] == wire[|wire| - c.TagOctets()..];
  }

  /** The MKI, on any packet that is parsed: it matches exactly if the context has none, or the octets in front of
      the tag are the context's and do not spell NULL. */
  lemma MkiMatchesExactly(c: Context, wire: Bytes)
    requires c.Valid() && Parse(c, wire).Ok?
    ensures |c.mki| > 0 ==> |wire| >= c.TagOctets() + |c.mki|
    ensures MkiMatches(c, Parse(c, wire).value) <==>
            |c.mki| == 0 ||
            (wire[|wire| - c.TagOctets() - |c.mki|..|wire| - c.TagOctets()] == c.mki && c.mki != KMKINULL)
  {
    hide HeaderLength;
  }

  /** So a packet with other octets in place of the MKI is refused, though no tag covers them. */
  lemma ForeignMkiRefused(c: Context, v: s32, index: u64, wire: Bytes)
    requires c.Valid() && Parse(c, wire).Ok? && |c.mki| > 0 && |wire| >= c.TagOctets() + |c.mki|
    requires wire[|wire| - c.TagOctets() - |c.mki|..|wire| - c.TagOctets()] != c.mki
    ensures Unprotect(c, v, index, wire) == Leave(NotFound)
  {
    hide HeaderLength, Authenticate, Decrypt, Parse, MkiMatches;
    MkiMatchesExactly(c, wire);
  }

  // ----- The packet objects -----

  /** CSRTPPacketRTP, and CSRTPPacketSRTP once ConstructEncryptedL has run. */
  class Packet {
    const packet: Bytes
    var headerLength: nat
    var payloadLength: nat
    var sequenceNumber: u16
    var authenticationTag: Bytes
    var masterKeyIdentifier: Bytes

    constructor (packet: Bytes)
      ensures this.packet == packet
      ensures authenticationTag == [] && masterKeyIdentifier == []
    {
      this.packet := packet;
      headerLength, payloadLength, sequenceNumber := 0, 0, 0;
      authenticationTag, masterKeyIdentifier := [], [];
    }

    /** Walks a pointer over the header. */
    method UpdateHeaderLengthL() returns (r: Result<()>)
      modifies this`headerLength
      ensures r == match HeaderLength(packet) case Ok(_) => Ok(()) case Leave(e) => Leave(e)
      ensures r.Ok? ==> HeaderLength(packet) == Ok(headerLength)
    {
      var size := |packet|;
      if size < KMinSizeRtpHeader {
        return Leave(Corrupt);
      }
      var numCSRC := packet[0] % 0x10;
      var headerExt := packet[0] / 0x10 % 2;
      var pointer: int := KMinSizeRtpHeader;
      if numCSRC != 0 {
        pointer := pointer + numCSRC * 4;
      }
      if headerExt != 0 {
        if size - pointer < 4 {
          return Leave(Corrupt);
        }
        pointer := pointer + 2;
        var extLength: int := Read16(packet, pointer);
        pointer := pointer + 2;
        pointer := pointer + extLength * 4;
        if size - pointer < extLength * 4 {
          return Leave(Corrupt);
        }
      }
      headerLength := pointer;
      if headerLength > size {
        return Leave(Corrupt);
      }
      return Ok(());
    }

    /** CSRTPPacketRTP::ConstructL */
    method ConstructPlainL() returns (r: Result<()>)
      modifies this`headerLength, this`payloadLength, this`sequenceNumber
      ensures r == match HeaderLength(packet) case Ok(_) => Ok(()) case Leave(e) => Leave(e)
      ensures r.Ok? ==> HeaderLength(packet) == Ok(headerLength) && headerLength + payloadLength == |packet|
      ensures r.Ok? ==> |packet| >= 12 && sequenceNumber == SequenceNumber(packet)
    {
      r := UpdateHeaderLengthL();
      if r.Leave? {
        return;
      }
      sequenceNumber := Read16(packet, 2);
      payloadLength := |packet| - headerLength;
    }

    /** UpdatePayloadLengthL and UpdatePayload: a negative length makes Mid panic. */
    method UpdatePayloadLengthL(c: Context) returns (r: Result<()>)
      modifies this`payloadLength
      ensures var deducted := headerLength + |c.mki| + c.TagOctets();
              && r == (if headerLength < |packet| < deducted then Leave(Panic) else Ok(()))
              && (r.Ok? ==> payloadLength == if |packet| <= headerLength then 0 else |packet| - deducted)
    {
      var deductedLen := headerLength + |c.mki| + c.tagBits / 8;
      if |packet| <= headerLength {
        payloadLength := 0;
      } else if |packet| < deductedLen {
        return Leave(Panic);
      } else {
        payloadLength := |packet| - deductedLen;
      }
      return Ok(());
    }

    method UpdateAuthenticationTagL(c: Context)
      requires c.Valid() && |packet| >= 12 && authenticationTag == []
      modifies this`authenticationTag
      ensures authenticationTag == if c.authAlg.HmacSha1? then packet[|packet| - c.TagOctets()..] else []
    {
      if c.tagBits > 0 && c.authAlg.HmacSha1? {
        var position := |packet| - c.tagBits / 8;
        authenticationTag := packet[position..];
      }
    }

    /** An identifier equal to the literal NULL leaves the field empty. */
    method UpdateMasterKeyIdentifier(c: Context) returns (r: Result<()>)
      requires c.Valid() && |packet| >= 12 && masterKeyIdentifier == []
      modifies this`masterKeyIdentifier
      ensures r == if |c.mki| > 0 && |packet| < c.TagOctets() + |c.mki| then Leave(Panic) else Ok(())
      ensures r.Ok? ==>
                var end := |packet| - c.TagOctets();
                masterKeyIdentifier == if |c.mki| == 0 || packet[end - |c.mki|..end] == KMKINULL then []
                                       else packet[end - |c.mki|..end]
    {
      var mki := KMKINULL;
      if |c.mki| > 0 {
        var position: int := |packet| - c.tagBits / 8 - |c.mki|;
        if position < 0 {
          return Leave(Panic);
        }
        mki := packet[position..position + |c.mki|];
      }
      if mki != KMKINULL {
        masterKeyIdentifier := mki;
      }
      return Ok(());
    }

    /** CSRTPPacketSRTP::ConstructL */
    method ConstructEncryptedL(c: Context) returns (r: Result<()>)
      requires c.Valid() && authenticationTag == [] && masterKeyIdentifier == []
      modifies this
      ensures r == match Parse(c, packet) case Ok(_) => Ok(()) case Leave(e) => Leave(e)
      ensures r.Ok? ==> Parse(c, packet) == Ok(AsParsed()) && sequenceNumber == SequenceNumber(packet)
    {
      hide HeaderLength;
      r := ConstructPlainL();
      if r.Leave? {
        return;
      }
      r := UpdatePayloadLengthL(c);
      if r.Leave? {
        return;
      }
      UpdateAuthenticationTagL(c);
      r := UpdateMasterKeyIdentifier(c);
    }

    function AsParsed(): Parsed
      reads this
    {
      Parsed(headerLength, payloadLength, authenticationTag, masterKeyIdentifier)
    }
  }

  // ----- Sizes in all five authentication modes -----

  /** The ROC-carrying modes send the sender's counter in some packets (TagWithROCLengthL). */
  datatype AuthMode = ModeNull | ModeHmac | ModeRcc1 | ModeRcc2 | ModeRcc3

  predicate ValidMode(mode: AuthMode, tagBits: nat) {
    match mode
    case ModeNull => tagBits == 0
    case ModeHmac => tagBits == 80 || tagBits == 32
    case ModeRcc1 => tagBits == 112
    case ModeRcc2 => tagBits == 112
    case ModeRcc3 => tagBits == 32
  }

  /** CountEncryptedPacketSizeL, in 32-bit unsigned arithmetic. */
  function EncryptedSize(mode: AuthMode, tagBits: nat, carries: bool, header: nat, payload: nat, mki: nat): u32 {
    var size := header + payload + mki + if mode.ModeNull? then 0 else tagBits / 8;
    var size := if !carries && !mode.ModeNull? && !mode.ModeHmac? then size - 4 else size;
    ToU32(if !carries && mode.ModeRcc1? then size - 10 else size)
  }

  /** UpdatePayloadLengthL, in 32-bit unsigned arithmetic. */
  function ReceivedPayloadLength(mode: AuthMode, tagBits: nat, carries: bool, packet: nat, header: nat, mki: nat): u32 {
    var tag := tagBits / 8;
    var tag := if !carries && (mode.ModeRcc2? || mode.ModeRcc3?) then tag - 4 else tag;
    var tag := if !carries && mode.ModeRcc1? then 0 else tag;
    if packet <= header then 0 else ToU32(packet - (header + mki + tag))
  }

  lemma ExactU32(x: nat)
    requires x < 0x1_0000_0000
    ensures ToU32(x) == x
  {
  }

  /** Sender and receiver agree on the payload length in every mode a valid context allows,
      in packets that carry the sender's counter (only the ROC-carrying modes have them) and in
      packets that do not. */
  lemma PayloadLengthsAgree(mode: AuthMode, tagBits: nat, carries: bool, header: nat, payload: nat, mki: nat)
    requires ValidMode(mode, tagBits)
    requires carries ==> mode.ModeRcc1? || mode.ModeRcc2? || mode.ModeRcc3?
    requires header + payload + mki + 14 < 0x1_0000_0000
    ensures ReceivedPayloadLength(mode, tagBits, carries,
                                  EncryptedSize(mode, tagBits, carries, header, payload, mki), header, mki) == payload
  {
    var tag := if mode.ModeNull? then 0
               else if mode.ModeHmac? || carries then tagBits / 8
               else if mode.ModeRcc1? then 0 else tagBits / 8 - 4;
    var size := header + payload + mki + tag;
    ExactU32(size);
    ExactU32(payload);
    hide ToU32;
    assert EncryptedSize(mode, tagBits, carries, header, payload, mki) == size;
    assert size > header ==> ReceivedPayloadLength(mode, tagBits, carries, size, header, mki) == ToU32(payload as int);
  }
}
