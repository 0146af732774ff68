/**
 The two stacks on top of each other: a packet built by the RTP stack, protected and unprotected by
 the SRTP stack, and parsed again.
 */
module SecuredRtp {
  import opened Machine
  import opened Octets
  import opened Outcomes
  import opened RtpLayout
  import SrtpPacket
  import Rollover

  lemma BuiltHeader(p: RtpPacket)
    requires p.Buildable() && p.payloadType <= KPayloadTypeMax
    ensures var wire := Layout(p);
            && SrtpPacket.HasExtension(wire) == p.extension.Some?
            && SrtpPacket.ExtensionAt(wire) == 12 + 4 * |p.csrcs|
            && SrtpPacket.SequenceNumber(wire) == p.seqNum
  {
    hide Layout, FirstOctet, Read16, Read32;
    LayoutReads(p, []);
    FirstOctetBits(p);
    assert Layout(p) + [] == Layout(p);
  }

  lemma BuiltExtension(p: RtpPacket)
    requires p.Buildable() && p.payloadType <= KPayloadTypeMax && p.extension.Some?
    ensures var at := 12 + 4 * |p.csrcs|;
            at + 4 <= |Layout(p)| && Read16(Layout(p), at + 2) == Words(|p.extension.value.data|)
  {
    hide Layout, Filled, Words, Read16;
    LayoutSize(p);
    LayoutExtensionReads(p, [], |Layout(p)|);
    assert Layout(p) + [] == Layout(p);
  }

  /**
   The SRTP stack accepts what the RTP stack builds, with the right header length, exactly if the
   packet has no extension or at least as much payload as extension data.
   */
  lemma BuiltHeaderAccepted(p: RtpPacket)
    requires p.Buildable() && p.payloadType <= KPayloadTypeMax
    ensures SrtpPacket.HeaderLength(Layout(p)) ==
            if p.extension.Some? && |p.payload| < 4 * Words(|p.extension.value.data|) then Leave(Corrupt)
            else Ok(PayloadAt(p))
  {
    hide Layout, Words, Read16, SrtpPacket.HasExtension, SrtpPacket.CsrcCount;
    BuiltHeader(p);
    LayoutSize(p);
    if p.extension.Some? {
      BuiltExtension(p);
    }
  }

  /**
   Built, protected, unprotected and parsed, a packet arrives as it can be received exactly if the
   MKI does not spell NULL and the packet is readable.
   */
  lemma SecuredRoundTrip(c: SrtpPacket.Context, roc: u32, p: RtpPacket)
    requires c.Valid() && p.Buildable() && p.payloadType <= KPayloadTypeMax && roc % 0x1_0000 < 0x8000
    requires SrtpPacket.Protect(c, roc, Layout(p)).Ok?
    ensures var wire := SrtpPacket.Protect(c, roc, Layout(p)).value;
            var index := Rollover.ReceiverIndex(ToS32(roc), p.seqNum);
            var plain := SrtpPacket.Unprotect(c, ToS32(roc), index, wire);
            (plain.Ok? && |plain.value| >= 12 && Parse(plain.value, |plain.value|) == Ok(Received(p)))
            <==> c.mki != SrtpPacket.KMKINULL && Readable(p)
  {
    hide Layout, Parse, Readable, Received, SrtpPacket.Protect, SrtpPacket.Unprotect, Rollover.ReceiverIndex;
    BuiltHeader(p);
    SrtpPacket.RoundTrip(c, roc, Layout(p));
    RtpRoundTrip(p, []);
    assert Layout(p) + [] == Layout(p);
  }
}
