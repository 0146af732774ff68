# RTP and SRTP stack: model and proofs

This project models the RTP/RTCP stack and the SRTP/SRTCP stack of the repository in Dafny and
proves properties of them. `dafny verify dfyconfig.toml` checks everything.

| file | what it models |
|---|---|
| `machine.dfy` | integer widths, 64-bit words, octet strings, big-endian fields, exclusive or |
| `replaywindow.dfy` | the 64-bit sliding replay window |
| `rollover.dfy` | packet indices, roll-over counters and their estimation |
| `countermode.dfy` | AES counter mode and its cipher cache; the block cipher is a parameter |
| `initvector.dfy` | initialisation vectors made by printing and reading hexadecimal digits |
| `srtppacket.dfy`, `srtphandler.dfy`, `srtpprotocol.dfy` | SRTP packets, the handler object, and whole runs of sender, network and receiver |
| `srtpinject.dfy` | the same runs with altered and invented packets put in by the network |
| `srtcp.dfy`, `srtcphandler.dfy` | SRTCP packets, the handler object, and whole runs |
| `srtcpinject.dfy` | the same runs with packets put in by the network |
| `ntpclock.dfy` | 16.16 fixed-point time and the round-trip delay |
| `reception.dfy` | sequence number tracking and loss figures of a receiving stream |
| `transtream.dfy` | numbering and counts of a transmission stream, and the SRTP index on top of it |
| `rtplayout.dfy`, `rtcplayout.dfy`, `rtppacket.dfy` | the layout of RTP packets and RTCP sections, and the packet object that writes and reads them in one buffer |
| `rtcpreport.dfy`, `rtcpcompound.dfy` | the report builder of a session, the loop that reads compound packets, and the two together |
| `securedrtp.dfy` | the RTP and the SRTP stack on top of each other |
| `sendqueue.dfy` | the send queue of a socket |
| `registry.dfy` | the array of sessions and streams |

Objects whose methods update fields are classes with those fields; each method is proved against
functions on values, and the main results are lemmas about these functions: over all inputs, over all
runs of a step system, or over both peers of a protocol. Where several fields stand for one number
too wide for them, a predicate called `Represents` ties the fields to unbounded numbers.

## What the code does that its documentation does not say

Each of these is a lemma that says exactly when the expected property holds, or shows an input for
which it does not.

- The SRTP header check compares the extension length with what is left *behind* the extension, so a
  packet with an extension needs as much payload (`SrtpPacket.HeaderLengthAccepts`).
- A master key identifier that spells NULL is never recognised (`SrtpPacket.RoundTrip`).
- The octets of ROC under the authentication tag are not the 32-bit ROC of section 4.2 of RFC 3711,
  and do not exist from ROC = 2^16 on (`InitVector.RocOctetsAreBigEndianRoc`, `InitVector.RocOctetsSpell`).
- The replay check shifts the bit map before the packet is authenticated. A packet a window ahead that
  fails authentication makes the receiver take packets of the window a second time
  (`SrtpInjection.AlteredPacketOpensReplay`, `SrtpInjection.ReplayRun`). No packet can be taken twice
  exactly while the map lacks no accepted index of the window, and it never lacks one exactly if every
  such shift was harmless (`SrtpInjection.ReplayPossible`, `SrtpInjection.GuardingExactlyWhenHarmless`).
- SRTCP does the same, with the index the packet carries in the clear (`SrtcpInjection.ForgedOpensReplay`,
  `SrtcpInjection.ReplayRun`, `SrtcpInjection.GuardingExactlyWhenHarmless`). It also looks at that index for
  re-keying before it authenticates the packet: one unauthentic packet with the index word 0xFFFF_FFFF, and the
  receiver refuses every packet from then on (`SrtcpInjection.ForgedLocksOut`, `SrtcpInjection.FlagExactly`).
- From ROC = 2^16 on the receiver can take a packet for one far behind the highest index (`Rollover.FarIndexRecovered`).
- A key protects one packet more than its life time (`SrtpProtocol.KeyLifeTime`,
  `SrtpProtocol.KeyLifeTimeReached`); a duplicate can raise the receiver's re-keying flag one packet
  earlier (`SrtpProtocol.FlagAtDelivery`).
- The SRTCP sender never stops for the age of its key, so its key stream repeats after 2^31 packets
  (`SrtcpHandler.SenderNeverStops`, `SrtcpHandler.KeystreamDistinctExactly`).
- With the null cipher an SRTCP receiver accepts one packet (`SrtcpHandler.NullCipherTakesOnePacket`,
  `SrtcpInjection.NullCipherTakesOnePacketUnder`).
- An SRTCP packet whose plain packet has the padding bit is judged by its last octet (`Srtcp.RtcpRoundTrip`,
  `Srtcp.PaddedReportRefused`).
- Exactly half a turn of sequence numbers behind, the receiver's highest number steps back
  (`Reception.TrackIsMaximum`), and unless more than 2^15 packets were lost since the last report, more
  packets count as received than expected (`Reception.SoundExactlyWhenCovered`).
- Once a multiple of 2^32 packets is passed, the correction for it is 2^16
  (`Reception.CumulativeExactly`, `Reception.LossForgottenAtWrap`).
- A reported SR time stamp of 0 measures a delay of 0 (`NtpClock.MeasuredRoundTrip`,
  `NtpClock.ZeroStampMeasuresNothing`).
- An explicit first sequence number makes the SR packet count wrong (`TranStream.PacketCountExact`,
  `TranStream.ExplicitNumberMiscounts`).
- A packet queued between a cancel and the socket's answer can be reported as sent without having been
  (`SendQueue.AnsweredButNeverSent`), or be left in an idle queue (`SendQueue.StrandedAfterCancel`); a
  packet the socket cancels by itself is sent again (`SendQueue.SentTwice`).
- Close calls with an id of the other kind corrupt the registry (`Registry.KeepsRegistered`,
  `Registry.SessionClosedAsStream`) or stop the thread (`Registry.StreamClosedAsSession`).
- RTCP packets are built in 1024 octets without a look at the room: 42 reporting streams overrun them, and so do
  31 with a long CNAME, or eight long items (`RtcpReport.ReportFits`, `RtcpReport.FortyTwoBlocksOverrun`,
  `RtcpReport.ThirtyOneBlocksOverrun`, `RtcpReport.LongItemsOverrun`). More than 128 receiving streams overrun an array
  of flags (`RtcpReport.Session.BuildRTCPReport`).
- A session compares the payload alone with its socket's size, so CSRCs, extension and header can overrun the buffer
  the RTP packet is built in (`RtpPackets.SendFits`, `RtpPackets.FullPayloadOverruns`).
- An APP packet with more than 512 octets of data overruns the receiver's array
  (`RtcpCompound.ReportWithAppIsHeard`).
- An RTP packet built with the padding bit set gets no padding octets (`RtpLayout.RtpRoundTrip`,
  `RtpLayout.PaddingBitRefused`), and from 32 report blocks on the source count spills into other header bits
  (`RtcpLayout.CountNeedsFiveBits`).
- The check that refuses a padding bit in the first section of a compound packet never fires
  (`RtcpCompound.PaddedFirstSectionAccepted`).
- A compound packet is accepted without the check that its lengths add up in two ways: when it ends right
  behind a section header, and when its last section is a BYE or APP of a known receiving stream
  (`RtcpCompound.AcceptedLengthsAddUp`, `RtcpCompound.BareHeaderAccepted`, `RtcpCompound.ByeAcceptedUnchecked`).

## Model

| member | source | states |
|---|---|---|
| `ReplayWindow.CheckThenCommit` | `rtp/srtpstack/src/srtpcryptohandler.cpp:261-289` | a check passes exactly the indices that are new or unseen within the window, and check and commit together add exactly that index to the set the bit map stands for |
| `ReplayWindow.WindowRefinesMemory` | `rtp/srtpstack/src/srtpcryptohandler.cpp:261-289` | from the all-zero start, after any sequence of indices and for any window up to 64, the shifted bit map and its top are the plain set of accepted indices |
| `ReplayWindow.UncommittedCheck` | `rtp/srtpstack/src/srtpcryptohandler.cpp:270-288` | the check shifts the map although the packet may be dropped later: the map then still means the accepted set exactly if the index was not ahead, or the accepted indices were precisely every delta-th one |
| `ReplayWindow.DropKeepsCover` | `rtp/srtpstack/src/srtpcryptohandler.cpp:270-288` | after a check without its commit every accepted index of the window is still in the map exactly if the index was not ahead, or each of them but the top has an accepted one delta above it |
| `ReplayWindow.DropForgets` | `rtp/srtpstack/src/srtpcryptohandler.cpp:270-278` | after 4 and 5 were accepted, a check of an index 64 ahead that is not committed lets 4 pass again |
| `ReplayWindow.ReplayBitmap.ReplayCheck` | `rtp/srtpstack/src/srtpcryptohandler.cpp:261-289` | the method, with its early exits, is the check on the map |
| `ReplayWindow.ReplayBitmap.MarkSeen` | `rtp/srtpstack/src/srtpcryptohandlersrtp.cpp:800-806` | an index inside the window has its bit set and no other bit changed |
| `Rollover.NearestIsUnique` | `rtp/srtpstack/src/srtpcryptohandlersrtp.cpp:265-316` | within half a turn of the highest index a sequence number belongs to exactly one index |
| `Rollover.ReceiverIndexExact` | `rtp/srtpstack/src/srtpcryptohandlersrtp.cpp:313` | the receiver's signed 32-bit index equals 2^16 * v + SEQ exactly while 0 <= v < 2^15 |
| `Rollover.EstimateIsNearest` | `rtp/srtpstack/src/srtpcryptohandlersrtp.cpp:265-316` | for every ROC, s_l and sequence number the computed index is the nearest one, as section 3.3.1 and Appendix A of RFC 3711 ask, exactly if that is neither negative nor 2^31 and more; below ROC = 2^15 the call leaves exactly if it is negative |
| `Rollover.EstimateExact` | `rtp/srtpstack/src/srtpcryptohandlersrtp.cpp:265-316` | for every receiver state, an index in reach of the highest one is recovered exactly if it is below 2^31; below ROC = 2^15 no other index is taken for the sender's |
| `Rollover.FarIndexRecovered` | `rtp/srtpstack/src/srtpcryptohandlersrtp.cpp:265-316` | from ROC = 2^16 on the last part fails: at highest index 2^32, sequence number 0 gives index 0 |
| `Rollover.SenderIndexExact` | `rtp/srtpstack/src/srtppacketrtp.cpp:221-227` | the sender's unsigned 32-bit index equals 2^16 * ROC + SEQ exactly for ROC below 2^16 |
| `Rollover.SenderAndReceiverAgree` | `rtp/srtpstack/src/srtppacketrtp.cpp:221-227` | the two machine forms of the index agree exactly while the low half of ROC is below 2^15 |
| `Rollover.UpdateKeepsMaximum` | `rtp/srtpstack/src/srtpcryptohandlersrtp.cpp:346-403` | after the update 2^16 * ROC + s_l is the larger of what it was and the accepted index |
| `CounterMode.CountersDistinct` | `rtp/srtpstack/src/srtpaesctrcrypto.cpp:273-306` | successive counter blocks differ only in the low 32 bits and are pairwise distinct for 2^32 blocks |
| `CounterMode.CounterSpells` | `rtp/srtpstack/src/srtpaesctrcrypto.cpp:273-306` | read as numbers, the last four octets of the n-th counter are those of the IV plus n modulo 2^32, and the others stay |
| `CounterMode.EncryptedOctet` | `rtp/srtpstack/src/srtpaesctrcrypto.cpp:154-266` | bit k of octet i of a text is flipped exactly if it is set in octet i mod 16 of the encrypted block that has i / 16 added to the last 32 bits of the IV |
| `Octets.XorDiffers` | `rtp/srtpstack/src/srtpaesctrcrypto.cpp:236` | a bit of an exclusive or is set exactly if the two octets differ in it |
| `CounterMode.EncryptIsXorWithKeystream` | `rtp/srtpstack/src/srtpaesctrcrypto.cpp:154-266` | encryption is exclusive or with the key stream of the same bit length, and its own inverse, for every length up to the limit |
| `CounterMode.EncryptInPieces` | `rtp/srtpstack/src/srtpaesctrcrypto.cpp:154-266` | the block loop and the last partial block put together are that exclusive or |
| `CounterMode.AesCtrCrypto.CreateEncryptorL` | `rtp/srtpstack/src/srtpaesctrcrypto.cpp:312-320` | afterwards the cached cipher is the one for the key passed in |
| `CounterMode.AesCtrCrypto.IncreaseIV` | `rtp/srtpstack/src/srtpaesctrcrypto.cpp:273-306` | the octet-wise carry loop adds one to the low 32 bits of the counter in place, modulo 2^32 |
| `CounterMode.AesCtrCrypto.KeystreamL` | `rtp/srtpstack/src/srtpaesctrcrypto.cpp:64-146` | the key stream, or the error for a bad length |
| `CounterMode.AesCtrCrypto.EncryptL` | `rtp/srtpstack/src/srtpaesctrcrypto.cpp:154-266` | the in-place block loops compute the encryption, and keep the cipher cache valid |
| `InitVector.DeHexOfHex` | `rtp/srtpstack/src/srtputils.cpp:299-320` | printing a number in hexadecimal and reading the digits back in pairs spells the same number, in no more octets than needed |
| `InitVector.IvTerms` | `rtp/srtpstack/src/srtputils.cpp:33-137` | the three terms of the IV are k_s * 2^16, SSRC * 2^64 and i * 2^16 (section 4.1.1 of RFC 3711) |
| `InitVector.IvDistinct` | `rtp/srtpstack/src/srtputils.cpp:33-71` | different packet indices give different IVs |
| `InitVector.IvBits` | `rtp/srtpstack/src/srtputils.cpp:33-71` | the IV as one formula: bit k of it, read as a number, is the exclusive or of bit k of k_s * 2^16, of SSRC * 2^64 and of i * 2^16 |
| `InitVector.IvDistinctAcrossSources` | `rtp/srtpstack/src/srtputils.cpp:33-71` | under one key and salt, different sources or different indices below 2^48 give different IVs |
| `InitVector.CounterBlocksNeverMeet` | `rtp/srtpstack/src/srtputils.cpp:33-71` | two counter blocks are equal only if they are the same block of the same packet |
| `InitVector.StreamsNeverMeet` | `rtp/srtpstack/src/srtputils.cpp:33-71` | nor are counter blocks of two streams under one key equal: the same source, the same packet and the same block, or different blocks |
| `InitVector.CounterIsSum` | `rtp/srtpstack/src/srtputils.cpp:33-71` | for the 2^16 blocks of a packet the counter is the IV plus the number of the block, as whole numbers |
| `InitVector.RocOctetsDefined` | `rtp/srtpstack/src/srtpcryptohandlersrtp.cpp:228-258` | the octets of ROC for the tag exist exactly for ROC below 2^16; beyond, the descriptor overflows |
| `InitVector.RocOctetsSpell` | `rtp/srtpstack/src/srtpcryptohandlersrtp.cpp:228-258` | the octets for each number of digits: ROC in as few as its digits need, then one zero octet for each digit missing from four |
| `InitVector.RocOctetsAreBigEndianRoc` | `rtp/srtpstack/src/srtpcryptohandlersrtp.cpp:228-258` | they are the 32-bit big-endian ROC of section 4.2 of RFC 3711 exactly for ROC = 0 |
| `SrtpPacket.HeaderLengthAccepts` | `rtp/srtpstack/src/srtppacketrtp.cpp:89-143` | a header is accepted exactly if it is well formed and, with an extension, the payload is at least as long as the extension data; the length is then the one of RFC 3550 |
| `SrtpPacket.ShortPayloadAfterExtensionRefused` | `rtp/srtpstack/src/srtppacketrtp.cpp:132-141` | a well-formed packet that is refused |
| `SrtpPacket.HeaderLengthStable` | `rtp/srtpstack/src/srtppacketrtp.cpp:89-143` | appending octets behind a packet does not change its header length |
| `SrtpPacket.ProtectSucceeds` | `rtp/srtpstack/src/srtpcryptohandlersrtp.cpp:514-551` | exactly which packets can be protected |
| `SrtpPacket.ParseOfProtected` | `rtp/srtpstack/src/srtppacketsrtp.cpp:72-248` | the receiver finds the header length, payload, MKI and tag the sender wrote |
| `SrtpPacket.AuthenticProtected` | `rtp/srtpstack/src/srtpcryptohandlersrtp.cpp:185-258` | the tag the receiver computes is the one in the packet |
| `SrtpPacket.ProtectedOnTheWire` | `rtp/srtpstack/src/srtpcryptohandlersrtp.cpp:514-636` | a protected packet part by part: the header in the clear, as many octets of payload, the MKI, and the beginning of the HMAC over header, payload and the octets of ROC |
| `SrtpPacket.ProtectedOctet` | `rtp/srtpstack/src/srtpcryptohandlersrtp.cpp:514-551` | bit k of payload octet i on the wire is flipped exactly if it is set in octet i mod 16 of the block IV + i / 16 encrypted with the session key |
| `SrtpPacket.AuthenticExactly` | `rtp/srtpstack/src/srtpcryptohandlersrtp.cpp:185-258` | any packet with a tag is authentic exactly if the tag is the beginning of the HMAC over everything up to the MKI and the octets of the guessed counter; no such octets, no verdict |
| `SrtpPacket.AlteredInFront` | `rtp/srtpstack/src/srtpcryptohandlersrtp.cpp:185-258` | a protected packet altered in any way in front of its MKI, tag kept, is authentic exactly if the two HMACs agree in the octets of the tag |
| `SrtpPacket.MkiMatchesExactly` | `rtp/srtpstack/src/srtppacketsrtp.cpp:219-248` | the MKI of any packet matches exactly if the context has none or the octets in front of the tag are its own and do not spell NULL |
| `SrtpPacket.ForeignMkiRefused` | `rtp/srtpstack/src/tsrtpstreaminstatenormal.cpp:52-68` | a packet with other octets in place of the MKI is refused, though no tag covers them |
| `SrtpPacket.DecryptProtected` | `rtp/srtpstack/src/srtpcryptohandlersrtp.cpp:158-178` | decrypting the payload found gives the plain payload |
| `SrtpPacket.RoundTrip` | `rtp/srtpstack/src/srtpcryptohandlersrtp.cpp:158-258` | unprotecting a protected packet gives it back for every packet the sender accepts, any CSRC list, extension, MKI and tag length; it fails exactly if the MKI spells NULL |
| `SrtpPacket.PayloadLengthsAgree` | `rtp/srtpstack/src/srtppacketrtp.cpp:179-200` | sender and receiver agree on the payload length in all five authentication modes |
| `SrtpPacket.Packet.UpdateHeaderLengthL` | `rtp/srtpstack/src/srtppacketrtp.cpp:89-143` | the walking pointer computes the header length function |
| `SrtpPacket.Packet.UpdatePayloadLengthL` | `rtp/srtpstack/src/srtppacketsrtp.cpp:109-140` | payload length behind header, MKI and tag |
| `SrtpPacket.Packet.UpdateAuthenticationTagL` | `rtp/srtpstack/src/srtppacketsrtp.cpp:170-213` | the tag is the last octets of the packet |
| `SrtpPacket.Packet.UpdateMasterKeyIdentifier` | `rtp/srtpstack/src/srtppacketsrtp.cpp:219-248` | the MKI stands before the tag; one equal to NULL is dropped |
| `SrtpPacket.Packet.ConstructEncryptedL` | `rtp/srtpstack/src/srtppacketsrtp.cpp:72-81` | the fields of a received packet are those the parse function gives |
| `SrtpHandler.CryptoHandlerSrtp.constructor` | `rtp/srtpstack/src/srtpcryptohandlersrtp.cpp:102-119` | both sides start in agreement with the simple sender and receiver |
| `SrtpHandler.CryptoHandlerSrtp.ReKeyCheck` | `rtp/srtpstack/src/srtpcryptohandlersrtp.cpp:440-480` | the remainder test flags exactly the last index and a used-up life time |
| `SrtpHandler.ReKeyDueExactly` | `rtp/srtpstack/src/srtpcryptohandlersrtp.cpp:440-480` | the flag is due at the index a whole turn of sequence numbers before the last of the 2^48, and once the life time is used up |
| `SrtpHandler.CryptoHandlerSrtp.CountSenderPacketIndexL` | `rtp/srtpstack/src/srtpcryptohandlersrtp.cpp:420-434` | sender index and re-key flag |
| `SrtpHandler.CryptoHandlerSrtp.EncryptL` | `rtp/srtpstack/src/srtpcryptohandlersrtp.cpp:514-636` | the packet buffer filled front to back is the protected packet |
| `SrtpHandler.CryptoHandlerSrtp.UpdateROC` | `rtp/srtpstack/src/srtpcryptohandlersrtp.cpp:673-691` | ROC goes up exactly after sequence number 65535 |
| `SrtpHandler.CryptoHandlerSrtp.DoProtectRtpL` | `rtp/srtpstack/src/tsrtpstreamoutstatenormal.cpp:46-81` | protecting refines a sender that counts |
| `SrtpHandler.CryptoHandlerSrtp.CountReceiverPacketIndexL` | `rtp/srtpstack/src/srtpcryptohandlersrtp.cpp:265-316` | the guess v and the index, or the error |
| `SrtpHandler.CryptoHandlerSrtp.ReplayProtectionL` | `rtp/srtpstack/src/srtpcryptohandlersrtp.cpp:767-781` | the replay check on the difference narrowed to 32 bits |
| `SrtpHandler.CryptoHandlerSrtp.UpdateSlAndRocL` | `rtp/srtpstack/src/srtpcryptohandlersrtp.cpp:346-413` | the update of s_l and ROC |
| `SrtpHandler.CryptoHandlerSrtp.AddReplayIndex` | `rtp/srtpstack/src/srtpcryptohandlersrtp.cpp:788-809` | top index and bit map after a packet is accepted |
| `SrtpHandler.CryptoHandlerSrtp.AdmitL` | `rtp/srtpstack/src/tsrtpstreaminstatenormal.cpp:52-68` | from every state, index, MKI and replay check together are the verdict of a receiver that remembers the indices its map stands for |
| `SrtpHandler.CryptoHandlerSrtp.CheckFreshL` | `rtp/srtpstack/src/srtpcryptohandlersrtp.cpp:767-781` | the check passes exactly the indices fresh to the receiver the map amounts to, whatever brought the map about |
| `SrtpHandler.CryptoHandlerSrtp.OpenL` | `rtp/srtpstack/src/srtpcryptohandlersrtp.cpp:158-221` | authentication of header, payload and counter octets against the tag, then decryption: `SrtpPacket.AuthenticExactly` says what the tag must be |
| `SrtpHandler.CryptoHandlerSrtp.CommitL` | `rtp/srtpstack/src/tsrtpstreaminstatenormal.cpp:78-79` | afterwards 2^16 * ROC + s_l, the replay top and the maximum accepted index are equal, and the checked map has the index marked |
| `SrtpHandler.CryptoHandlerSrtp.DoUnprotectSrtpL` | `rtp/srtpstack/src/tsrtpstreaminstatenormal.cpp:46-87` | in every state of the map, also after packets dropped behind the replay check, outcome and new state are those of the receiver the map amounts to; while the map is the accepted set, of the receiver that remembers every index |
| `SrtpHandler.PassesIsFresh` | `rtp/srtpstack/src/srtpcryptohandler.cpp:261-289` | any map passes exactly the indices fresh to the receiver that remembers what the map stands for |
| `SrtpHandler.StepCases` | `rtp/srtpstack/src/tsrtpstreaminstatenormal.cpp:46-87` | the three ways of a packet: refused with the map untouched, dropped with the map shifted, accepted with the map shifted and marked |
| `SrtpHandler.MapRemembers` | `rtp/srtpstack/src/tsrtpstreaminstatenormal.cpp:46-87` | while the map is the accepted set, the outcome is that of the receiver that remembers every index, and the map stays the accepted set unless the packet is dropped behind its check |
| `SrtpHandler.IndexIsMachineIndex` | `rtp/srtpstack/src/srtpcryptohandlersrtp.cpp:265-316` | the machine's guess and index are the nearest index, before and after the first packet |
| `SrtpHandler.NarrowDelta` | `rtp/srtpstack/src/srtpcryptohandlersrtp.cpp:770-775` | narrowing the 64-bit index difference to 32 bits loses nothing |
| `SrtpHandler.AcceptedMaximum` | `rtp/srtpstack/src/srtpcryptohandlersrtp.cpp:346-413` | committing an accepted index makes the maximum of it and the old highest index the new one |
| `SrtpProtocol.RunKeepsInv` | `rtp/srtpstack/src/tsrtpstreaminstatenormal.cpp:46-87` | what every run of sender, network and receiver keeps |
| `SrtpProtocol.DeliveredExactlyWhatWasSent` | `rtp/srtpstack/src/tsrtpstreaminstatenormal.cpp:46-87` | in every run with loss, duplication and reordering within reach, each packet handed on is the one sent at that position, under the sender's index, and none is handed on twice |
| `SrtpProtocol.AcceptedExactlyWhenNew` | `rtp/srtpstack/src/tsrtpstreaminstatenormal.cpp:52-87` | a delivered packet is accepted if and only if re-keying is not due, the MKI can be recognised, and it is newer than all taken or untaken inside the window |
| `SrtpProtocol.DeliveryIsNotDropped` | `rtp/srtpstack/src/tsrtpstreaminstatenormal.cpp:46-87` | no packet the sender made is dropped behind its replay check, so the handler object follows the run at every delivery |
| `SrtpProtocol.HighestIsMaximum` | `rtp/srtpstack/src/srtpcryptohandlersrtp.cpp:346-413` | the receiver's highest index is the maximum of those accepted, in every run |
| `SrtpProtocol.KeystreamNeverReused` | `rtp/srtpstack/src/srtputils.cpp:33-71` | no key stream block is used for two packets of a run, nor twice within one |
| `SrtpProtocol.KeyLifeTime` | `rtp/srtpstack/src/srtpcryptohandlersrtp.cpp:440-480` | in every run at most life time + 1 packets are sent and at most as many accepted, and the sender has re-keying flagged exactly when it has sent that many |
| `SrtpProtocol.SendRefusedExactly` | `rtp/srtpstack/src/srtpcryptohandlersrtp.cpp:420-480` | after any run the sender takes a packet exactly if at most life time packets were sent and the packet can be protected |
| `SrtpProtocol.FlagAtDelivery` | `rtp/srtpstack/src/srtpcryptohandlersrtp.cpp:440-480` | the receiver has re-keying flagged from the first delivery after life time acceptances on, accepted or not |
| `SrtpProtocol.KeyLifeTimeReached` | `rtp/srtpstack/src/srtpcryptohandlersrtp.cpp:440-480` | for every stream long enough there is a run that sends and accepts life time + 1 packets under one key |
| `SrtpInjection.OnlyWhatWasSent` | `rtp/srtpstack/src/tsrtpstreaminstatenormal.cpp:46-87` | with any refused octets put in between, every packet handed on is still the one sent at its position, under its index, and the highest index the largest accepted |
| `SrtpInjection.AcceptedExactlyByMap` | `rtp/srtpstack/src/tsrtpstreaminstatenormal.cpp:46-87` | in such a run a delivered packet is accepted if and only if re-keying is not due, the MKI can be recognised, and it is ahead of all taken or its bit in the window is clear |
| `SrtpInjection.RegularRun` | `rtp/srtpstack/src/tsrtpstreaminstatenormal.cpp:46-87` | without packets put in, the receiver with the map goes through the same states as the remembering one of the runs above, and its map is the accepted set all along |
| `SrtpInjection.ReplayPossible` | `rtp/srtpstack/src/tsrtpstreaminstatenormal.cpp:46-87` | at the end of any such run some packet can be handed on a second time exactly if the map lacks an accepted index of the window and the receiver does not refuse everything |
| `SrtpInjection.MoveKeepsGuard` | `rtp/srtpstack/src/srtpcryptohandler.cpp:261-289` | sending and delivering keep every accepted index of the window in the map; a put-in packet does exactly if it is not checked, not ahead, or its shift moves an accepted index onto each of them |
| `SrtpInjection.GuardingExactlyWhenHarmless` | `rtp/srtpstack/src/srtpcryptohandler.cpp:261-289` | the map lacks no accepted index at any time of a run exactly if every packet put in met that condition when it came |
| `SrtpInjection.NothingTwiceWhileHarmless` | `rtp/srtpstack/src/tsrtpstreaminstatenormal.cpp:46-87` | then no position is handed on twice |
| `SrtpInjection.AlteredIsNotAuthentic` | `rtp/srtpstack/src/srtpcryptohandlersrtp.cpp:185-221` | a protected packet with its last tag octet altered is parsed, matched and given its index as before, and fails authentication |
| `SrtpInjection.AlteredInFrontRefused` | `rtp/srtpstack/src/srtpcryptohandlersrtp.cpp:185-221` | a protected packet altered in any way in front of its MKI, tag kept, is refused exactly if the two HMACs differ in the octets of the tag |
| `SrtpInjection.AlteredPacketOpensReplay` | `rtp/srtpstack/src/tsrtpstreaminstatenormal.cpp:46-87` | in every run, when a packet at least a window ahead arrives with its tag altered, every packet of the window already handed on but the highest can be handed on again |
| `SrtpInjection.ReplayRun` | `rtp/srtpstack/src/tsrtpstreaminstatenormal.cpp:46-87` | such a run, packet by packet, for every window of 2 to 64 indices: packets 0 and 1 are taken, an altered one is dropped, and packet 0 is handed on again |
| `Srtcp.HeaderOfLonger` | `rtp/srtpstack/src/srtppacketrtcp.cpp:94-146` | exactly when the header of a protected packet is still accepted |
| `Srtcp.RtcpHeaderAccepts` | `rtp/srtpstack/src/srtppacketrtcp.cpp:94-146` | which packets the header check takes: version 2, types 200 to 204, and a length that what is left without the padding has room for |
| `Srtcp.ParseOfProtectedRtcp` | `rtp/srtpstack/src/srtppacketsrtcp.cpp:71-234` | what the receiver finds in a protected packet |
| `Srtcp.RtcpRoundTrip` | `rtp/srtpstack/src/srtpcryptohandlersrtcp.cpp:144-358` | a protected packet comes back, encrypted with its index, with the null cipher under any; it fails exactly if the MKI spells NULL or the last octet, taken for a padding count, leaves too little room |
| `Srtcp.RtcpOnTheWire` | `rtp/srtpstack/src/srtpcryptohandlersrtcp.cpp:213-332` | a protected packet part by part: 8 octets of a report or 4 of another packet in the clear, as many octets of text, E bit and 31 bits of index, the MKI, and the beginning of the HMAC over everything up to the index |
| `Srtcp.RtcpProtectedOctet` | `rtp/srtpstack/src/srtpcryptohandlersrtcp.cpp:213-332` | the encrypted octets bit by bit, as for SRTP |
| `Srtcp.RtcpAuthenticExactly` | `rtp/srtpstack/src/srtpcryptohandlersrtcp.cpp:144-192` | any packet is refused as not authentic exactly if its tag is not the beginning of the HMAC over everything up to the index |
| `Srtcp.AlteredReportRefused` | `rtp/srtpstack/src/srtpcryptohandlersrtcp.cpp:144-192` | a protected packet altered in any way in front of its MKI, the index included, tag kept, is refused exactly if the two HMACs differ in the octets of the tag |
| `Srtcp.RtcpMkiExactly` | `rtp/srtpstack/src/srtppacketsrtcp.cpp:71-234` | the MKI of any packet matches exactly if the octets in front of the tag are the context's and do not spell NULL |
| `Srtcp.PaddedReportRefused` | `rtp/srtpstack/src/srtppacketrtcp.cpp:94-146` | a padded receiver report the receiver refuses: the last octet of index 200 is read as 200 octets of padding |
| `SrtcpHandler.CryptoHandlerSrtcp.CountSenderPacketIndexL` | `rtp/srtpstack/src/srtpcryptohandlersrtcp.cpp:504-537` | the next index modulo 2^31, with the E bit if the packet is encrypted |
| `SrtcpHandler.CryptoHandlerSrtcp.InitialPacketIndex` | `rtp/srtpstack/src/srtpcryptohandlersrtcp.cpp:568-575` | the first index is 0 |
| `SrtcpHandler.CryptoHandlerSrtcp.IndexReKeyCheckL` | `rtp/srtpstack/src/srtpcryptohandlersrtcp.cpp:606-641` | the re-key flag |
| `SrtcpHandler.CryptoHandlerSrtcp.EncryptL` | `rtp/srtpstack/src/srtpcryptohandlersrtcp.cpp:213-332` | the buffer filled front to back is the protected packet |
| `SrtcpHandler.CryptoHandlerSrtcp.DoProtectRtcpL` | `rtp/srtpstack/src/tsrtpstreamoutstatenormal.cpp:87-108` | protecting refines a counter modulo 2^31 |
| `SrtcpHandler.CryptoHandlerSrtcp.ReceiverPacketIndexL` | `rtp/srtpstack/src/srtpcryptohandlersrtcp.cpp:543-563` | the index of the packet, or with the null cipher the one before |
| `SrtcpHandler.CryptoHandlerSrtcp.ReplayProtectionL` | `rtp/srtpstack/src/srtpcryptohandlersrtcp.cpp:482-498` | the replay check on the difference narrowed to 32 bits, whose smallest value, negated in the code, is an outcome of its own |
| `SrtcpHandler.CryptoHandlerSrtcp.AddReplayIndex` | `rtp/srtpstack/src/srtpcryptohandlersrtcp.cpp:647-667` | top index and bit map after acceptance |
| `SrtcpHandler.CryptoHandlerSrtcp.OpenL` | `rtp/srtpstack/src/srtpcryptohandlersrtcp.cpp:144-270` | authentication and decryption |
| `SrtcpHandler.CryptoHandlerSrtcp.DoUnprotectSrtcpL` | `rtp/srtpstack/src/tsrtpstreaminstatenormal.cpp:93-127` | for every packet, short ones included, in every state of the map, with and without the E bit, outcome and new state are the map's; while the map is the accepted set, packets with the E bit are treated as by the receiver that remembers every index |
| `SrtcpHandler.MapRemembers` | `rtp/srtpstack/src/tsrtpstreaminstatenormal.cpp:93-127` | so outcome and new state agree with the remembering receiver, and the map stays the accepted set unless the packet is dropped behind its check |
| `SrtcpHandler.DeliveredExactlyWhatWasSent` | `rtp/srtpstack/src/tsrtpstreaminstatenormal.cpp:93-127` | in every run with loss, duplication and reordering and no packet put in, what is handed on is what was sent, and no index twice |
| `SrtcpHandler.AcceptedExactlyWhenNew` | `rtp/srtpstack/src/tsrtpstreaminstatenormal.cpp:93-127` | in every run without packets put in, a delivered packet is accepted if and only if re-keying is not due, the MKI can be recognised, a padding bit in it finds a last octet that leaves room and, with replay protection, its index is new |
| `SrtcpHandler.SenderCounts` | `rtp/srtpstack/src/srtpcryptohandlersrtcp.cpp:504-537` | the n-th packet has index n modulo 2^31 |
| `SrtcpHandler.SenderNeverStops` | `rtp/srtpstack/src/srtpcryptohandlersrtcp.cpp:504-537` | the sender refuses no packet for the age of its key: after any run the next packet is protected with the next index modulo 2^31 |
| `SrtcpHandler.KeystreamDistinctExactly` | `rtp/srtpstack/src/srtpcryptohandlersrtcp.cpp:504-537` | the counter blocks of a run are distinct for different packets exactly while at most 2^31 packets are sent |
| `SrtcpHandler.ReceiverKeyLifeTime` | `rtp/srtpstack/src/srtpcryptohandlersrtcp.cpp:606-641` | in every run without packets put in, encrypted or not, at most life time + 1 packets are accepted, and re-keying is flagged by then |
| `SrtcpHandler.NullCipherTakesOnePacket` | `rtp/srtpstack/src/srtpcryptohandlersrtcp.cpp:558-561` | with the null cipher and replay protection at most one packet of a run without packets put in is ever accepted |
| `SrtcpInjection.OnlyWhatWasSent` | `rtp/srtpstack/src/tsrtpstreaminstatenormal.cpp:93-127` | with any refused octets put in between, every packet handed on is still the one sent at its position, and the top of the map the largest index handed on |
| `SrtcpInjection.AcceptedExactlyByMap` | `rtp/srtpstack/src/tsrtpstreaminstatenormal.cpp:93-127` | in such a run a delivered packet is accepted if and only if re-keying is not due, the MKI can be recognised, a padding bit finds a last octet that leaves room, and, with replay protection, it is ahead of all taken or its bit in the window is clear |
| `SrtcpInjection.RegularRun` | `rtp/srtpstack/src/tsrtpstreaminstatenormal.cpp:93-127` | without packets put in, the receiver with the map goes through the same states as the remembering one of the runs above, and its map is the accepted set all along |
| `SrtcpInjection.ReplayPossible` | `rtp/srtpstack/src/srtpcryptohandlersrtcp.cpp:482-498` | at the end of any such run some packet can be handed on a second time exactly if the map lacks an accepted index of the window and the receiver does not refuse everything |
| `SrtcpInjection.MoveKeepsGuard` | `rtp/srtpstack/src/srtpcryptohandler.cpp:261-289` | sending and delivering keep every accepted index of the window in the map; a put-in packet does exactly if it is not checked, not ahead, or its shift moves an accepted index onto each of them |
| `SrtcpInjection.GuardingExactlyWhenHarmless` | `rtp/srtpstack/src/srtpcryptohandler.cpp:261-289` | the map lacks no accepted index at any time of a run exactly if every packet put in met that condition when it came |
| `SrtcpInjection.NothingTwiceWhileHarmless` | `rtp/srtpstack/src/tsrtpstreaminstatenormal.cpp:93-127` | then no index is handed on twice |
| `SrtcpInjection.FlagAfter` | `rtp/srtpstack/src/srtpcryptohandlersrtcp.cpp:543-563` | one packet, authentic or not, raises the re-keying flag exactly if it carries the last index or comes when the life time is used up; with the E bit, the last index is the word 0xFFFF_FFFF |
| `SrtcpInjection.FlagExactly` | `rtp/srtpstack/src/srtpcryptohandlersrtcp.cpp:606-641` | in every run, encrypted or not, re-keying is due exactly if some packet processed, sent or put in, met that condition when it came |
| `SrtcpInjection.LockedForGood` | `rtp/srtpstack/src/srtpcryptohandlersrtcp.cpp:543-563` | once it is due no move of any kind changes the receiver, and nothing more is handed on |
| `SrtcpInjection.ForgedIsNotAuthentic` | `rtp/srtpstack/src/srtpcryptohandlersrtcp.cpp:144-270` | a report with any index word and a tag other than its own is parsed and opens under no index |
| `SrtcpInjection.ForgedLocksOut` | `rtp/srtpstack/src/srtpcryptohandlersrtcp.cpp:606-641` | at any time of any run one such report with the word 0xFFFF_FFFF is refused and has the receiver refuse every packet after it |
| `SrtcpInjection.ForgedOpensReplay` | `rtp/srtpstack/src/srtpcryptohandlersrtcp.cpp:482-498` | at any time of any run one such report a window or more ahead leaves nothing in the map but the top, and every packet of the window already handed on but the one at the top can be handed on again |
| `SrtcpInjection.ReplayRun` | `rtp/srtpstack/src/tsrtpstreaminstatenormal.cpp:93-127` | such a run, packet by packet: reports 0 and 1 are taken, a forged one is dropped, and report 0 is handed on again |
| `SrtcpInjection.NullCipherTakesOnePacketUnder` | `rtp/srtpstack/src/srtpcryptohandlersrtcp.cpp:558-561` | with the null cipher nothing put in gets a second packet accepted |
| `SecuredRtp.BuiltHeaderAccepted` | `rtp/srtpstack/src/srtppacketrtp.cpp:89-143` | the SRTP stack takes a packet the RTP stack has built, with the right header length, exactly if it has no extension or at least as much payload as extension data |
| `SecuredRtp.SecuredRoundTrip` | `rtp/rtpstack/src/rtppacket.cpp:580-809` | built, protected, unprotected and parsed, a packet arrives as it can be received exactly if the MKI does not spell NULL and the packet is readable |
| `NtpClock.DelaySinceIsFixed` | `rtp/rtpstack/src/rtprecvstream.cpp:557-560` | the delay since the last SR is the elapsed time in 16.16 seconds, rounded down, modulo 2^16 seconds |
| `NtpClock.MiddleOfCurrent` | `rtp/rtpstack/src/rtptranstream.cpp:432-447` | the middle 32 bits of the time stamp sent are the fixed-point time |
| `NtpClock.CurrentIsFixed` | `rtp/rtpstack/src/rtptranstream.cpp:432-447` | the whole NTP time of an SR is the reference plus the fixed-point time since then, on seconds that wrap at 2^32, with the low half of the fraction empty |
| `NtpClock.CurrentNTPIsFixed` | `rtp/rtpstack/src/rtptranstream.cpp:671-682` | so is the time the round-trip code computes |
| `NtpClock.InTenthsRoundsDown` | `rtp/rtpstack/src/rtptranstream.cpp:684-702` | a positive difference is turned into tenths of a millisecond, rounded down; the rest gives 0 |
| `NtpClock.FourRoundings` | `rtp/rtpstack/src/rtptranstream.cpp:665-705` | three conversions rounded down and one back give the true value or one less |
| `NtpClock.MeasuredRoundTrip` | `rtp/rtpstack/src/rtptranstream.cpp:665-705` | across two peers with wrapping clocks the measured delay is the true round-trip time r or r - 1, never negative, exactly if the time stamp reported is not 0 or r is at most 1 |
| `NtpClock.ZeroStampMeasuresNothing` | `rtp/rtpstack/src/rtptranstream.cpp:665-705` | with clocks at 0 an SR sent at once carries the stamp 0, and a round trip of one second is measured as 0 |
| `Reception.CircleDistance` | `rtp/rtpstack/src/rtputil.cpp:40-72` | Min16 and Wrap16 decide like distances on the 16-bit circle, also at exactly half a turn |
| `Reception.TrackIsMaximum` | `rtp/rtpstack/src/rtprecvstream.cpp:425-442` | a packet leaves the extended highest number right exactly under the stated condition on its distance |
| `Reception.Losses` | `rtp/rtpstack/src/rtprecvstream.cpp:478-513` | the loss fraction is 256 * lost / expected rounded down, and fits 8 bits because an interval with packets expected had one received |
| `Reception.RecvStream.constructor` | `rtp/rtpstack/src/rtprecvstream.cpp:30-50` | the empty stream |
| `Reception.RecvStream.UpdateParamL` | `rtp/rtpstack/src/rtprecvstream.cpp:365-450` | the 16-bit fields are the low bits of the unbounded tracking, with the SSRC checks and errors |
| `Reception.RecvStream.LossFigures` | `rtp/rtpstack/src/rtprecvstream.cpp:473-516` | in every state, report and kept fields are the 32-bit figures whose truth the next two rows and `CreateReport` state |
| `Reception.InWordsInRange` | `rtp/rtpstack/src/rtprecvstream.cpp:473-516` | below 2^32 packets expected and 2^24 lost in an interval, the 32-bit figures are the true ones, and the wrap-around correction stays 0 |
| `Reception.CumulativeExactly` | `rtp/rtpstack/src/rtprecvstream.cpp:473-490` | the cumulative loss is right exactly if it fits 32 bits and the number expected has not passed a multiple of 2^32 that the number received, or the one last reported, has not |
| `Reception.LossForgottenAtWrap` | `rtp/rtpstack/src/rtprecvstream.cpp:473-490` | when 2^32 packets are expected and five of them were lost, the report says none |
| `Reception.RecvStream.CreateReport` | `rtp/rtpstack/src/rtprecvstream.cpp:458-565` | the whole report block; while the fields stand for a sound stream in range, with its true losses |
| `Reception.ArrivalKeepsSound` | `rtp/rtpstack/src/rtprecvstream.cpp:425-442` | an arrival leaves received within expected, overall and since the last report, exactly if it does not step back or more than 2^15 packets were lost since that report |
| `Reception.SoundExactlyWhenCovered` | `rtp/rtpstack/src/rtprecvstream.cpp:425-516` | at all times of a run that holds exactly if every step back comes at such a time |
| `Reception.LossAccounting` | `rtp/rtpstack/src/rtprecvstream.cpp:425-516` | in every such run the interval losses add up to the cumulative loss of the last report |
| `Reception.HighestIsMaximum` | `rtp/rtpstack/src/rtprecvstream.cpp:389-442` | with arrivals less than 2^15 from the highest number, in any order, that number is the maximum of all that arrived |
| `Reception.StepBackBreaksAccounting` | `rtp/rtpstack/src/rtputil.cpp:62-72` | a packet exactly half a turn behind can make the number of expected packets negative |
| `TranStream.TranStream.constructor` | `rtp/rtpstack/src/rtptranstream.cpp:28-65` | the first number is the base |
| `TranStream.TranStream.SyncInit` | `rtp/rtpstack/src/rtptranstream.cpp:402-423` | the NTP reference |
| `TranStream.TranStream.BuildRtpPacket` | `rtp/rtpstack/src/rtptranstream.cpp:186-295` | the sequence number a packet gets and the state after it are those of one packet more in the runs of the next rows |
| `TranStream.TranStream.CreateReport` | `rtp/rtpstack/src/rtptranstream.cpp:454-504` | the SR counts are the unbounded ones modulo 2^32 |
| `TranStream.NumbersCountUp` | `rtp/rtpstack/src/rtptranstream.cpp:256-290` | with automatic numbers, after any run of these calls the n-th packet has got base + n across every wrap, and the state is base, base + number of packets, and the sum of the payloads |
| `TranStream.NumberFollows` | `rtp/rtpstack/src/rtptranstream.cpp:256-290` | whatever numbers the application gives, the next packet is numbered one more than the last, and an explicit number replaces the low 16 bits only |
| `TranStream.OctetsAddUp` | `rtp/rtpstack/src/rtptranstream.cpp:256-290` | the octet count is the sum of the payloads, whatever the numbering |
| `TranStream.PacketCountExact` | `rtp/rtpstack/src/rtptranstream.cpp:256-290` | the SR packet count is right after every packet of a run exactly if explicit numbers agree with automatic numbering |
| `TranStream.ExplicitNumberMiscounts` | `rtp/rtpstack/src/rtptranstream.cpp:256-290` | base 1 and one packet with the explicit number 1000: the report counts 1000 packets |
| `TranStream.IndexCountsUp` | `rtp/srtpstack/src/srtpcryptohandlersrtp.cpp:673-691` | ROC and sequence number together count the packets |
| `TranStream.SenderContinuity` | `rtp/srtpstack/src/srtppacketrtp.cpp:221-227` | the SRTP index of packet n is the first index + n across every wrap |
| `SendQueue.CommSend.constructor` | `rtp/rtpstack/src/rtpcommsend.cpp:47-58` | empty, waiting, idle |
| `SendQueue.CommSend.CompleteClientRequest` | `rtp/rtpstack/src/rtpcommsend.cpp:291-301` | the client is told once, if there is one |
| `SendQueue.CommSend.CompleteAndRemoveRequests` | `rtp/rtpstack/src/rtpcommsend.cpp:268-284` | everything queued is answered in order and removed |
| `SendQueue.CommSend.RemoveFromQueue` | `rtp/rtpstack/src/rtpcommsend.cpp:136-145` | the head is answered and removed |
| `SendQueue.CommSend.SendNextPacket` | `rtp/rtpstack/src/rtpcommsend.cpp:246-261` | the head goes to the socket and stays queued |
| `SendQueue.CommSend.SendAsync` | `rtp/rtpstack/src/rtpcommsend.cpp:175-201` | queued and started, or on failure everything answered |
| `SendQueue.CommSend.SendSync` | `rtp/rtpstack/src/rtpcommsend.cpp:208-239` | the same without a client, and its return value |
| `SendQueue.CommSend.RunL` | `rtp/rtpstack/src/rtpcommsend.cpp:99-129` | the reaction to a completion |
| `SendQueue.CommSend.CancelAsyncSend` | `rtp/rtpstack/src/rtpcommsend.cpp:162-168` | purge with KErrCancel, still active |
| `SendQueue.CommSend.Cancel` | `rtp/rtpstack/src/rtpcommsend.cpp:151-155` | purge and wait |
| `SendQueue.CommSend.Delete` | `rtp/rtpstack/src/rtpcommsend.cpp:88-92` | cancel, then purge with KErrAbort |
| `SendQueue.AnsweredOnceOrQueued` | `rtp/rtpstack/src/rtpcommsend.cpp:99-301` | in every run each request is answered exactly once or still queued, and nothing else is answered |
| `SendQueue.AnsweredInOrder` | `rtp/rtpstack/src/rtpcommsend.cpp:99-301` | while queueing does not fail, requests are answered in the order they were made |
| `SendQueue.TellsReason` | `rtp/rtpstack/src/rtpcommsend.cpp:99-284` | whoever an event answers is told the socket's result, the error of queueing, KErrCancel, or KErrAbort from an object that was idle when destroyed; errors are notified exactly when the socket or an asynchronous send fails |
| `SendQueue.AnswersHaveReasons` | `rtp/rtpstack/src/rtpcommsend.cpp:99-284` | in every run each answer was given by one event with its reason, and KErrNone only when the socket completed a request with KErrNone |
| `SendQueue.CompletionIsForHead` | `rtp/rtpstack/src/rtpcommsend.cpp:99-129` | in every run "Tx state error" and KErrDisconnected are unreachable, and a completion is for the packet in flight exactly if no purge came between |
| `SendQueue.StepStrands` | `rtp/rtpstack/src/rtpcommsend.cpp:99-129` | from an object whose idle queue is empty, an event leaves packets in an idle queue exactly if it is the completion KErrCancel with packets queued |
| `SendQueue.StrandedExactly` | `rtp/rtpstack/src/rtpcommsend.cpp:99-284` | no packet is in an idle queue at any time of a run exactly if no such completion occurs |
| `SendQueue.StepKeepsOrder` | `rtp/rtpstack/src/rtpcommsend.cpp:99-284` | an event keeps the socket order, with the packets still to come younger, exactly if it is not KErrCancel for a packet still in the queue |
| `SendQueue.SocketOrder` | `rtp/rtpstack/src/rtpcommsend.cpp:99-284` | packets reach the socket in submission order, none twice, at all times of a run exactly if that never occurs |
| `SendQueue.StrandedAfterCancel` | `rtp/rtpstack/src/rtpcommsend.cpp:99-168` | send, cancel, send and the socket's KErrCancel: the second packet stays in an idle queue, its client unanswered |
| `SendQueue.SentTwice` | `rtp/rtpstack/src/rtpcommsend.cpp:99-129` | a packet whose own request ends with KErrCancel is given to the socket again by the next send |
| `SendQueue.AnsweredButNeverSent` | `rtp/rtpstack/src/rtpcommsend.cpp:136-168` | a packet queued between a cancel and the completion can be reported as sent although the socket never had it |
| `Registry.RtpManager.constructor` | `rtp/rtpstack/src/rtpmanager.cpp:76-80` | no entries |
| `Registry.NextIdIsFresh` | `rtp/rtpstack/src/rtpmanager.cpp:1361-1364` | in an orderly registry the id assigned next is no entry's and not the null id exactly if the counter has not reached its end |
| `Registry.FindsTheEntry` | `rtp/rtpstack/src/rtpmanager.cpp:1347-1399` | and looking up an entry's id finds that entry |
| `Registry.AddingSession` | `rtp/rtpstack/src/rtpmanager.cpp:1371-1375` | appending a new session with that id keeps the registry in order |
| `Registry.AddingStream` | `rtp/rtpstack/src/rtpmanager.cpp:1371-1375` | so does appending a stream for the session an entry names, be it a session's or a stream's |
| `Registry.RtpManager.CreateSessionL` | `rtp/rtpstack/src/rtpmanager.cpp:360-405` | a new session and its entry, or neither |
| `Registry.RtpManager.CreateStreamL` | `rtp/rtpstack/src/rtpmanager.cpp:555-618` | a stream's entry naming its session |
| `Registry.RtpManager.AddStreamToSession` | `rtp/rtpstack/src/rtpmanager.cpp:1554-1577` | the same for a stream the session makes itself |
| `Registry.RtpManager.DeleteStreams` | `rtp/rtpstack/src/rtpmanager.cpp:1425-1452` | the in-place deletion loop removes exactly the stream entries with the address |
| `Registry.RtpManager.RemoveRtpObject` | `rtp/rtpstack/src/rtpmanager.cpp:1406-1464` | the whole removal, at the index found before the loop |
| `Registry.RtpManager.CloseStreamL` | `rtp/rtpstack/src/rtpmanager.cpp:680-701` | closing a stream |
| `Registry.RtpManager.CloseSessionL` | `rtp/rtpstack/src/rtpmanager.cpp:490-505` | closing a session |
| `Registry.RtpManager.RemoveRtpAllObjects` | `rtp/rtpstack/src/rtpmanager.cpp:1471-1497` | every session deleted, no entries left |
| `Registry.IndexStillRight` | `rtp/rtpstack/src/rtpmanager.cpp:1413-1460` | the index found before the deletion loop is still right after it |
| `Registry.ClosesExactly` | `rtp/rtpstack/src/rtpmanager.cpp:490-505` | closing a session removes that session, its streams and nothing else |
| `Registry.ClosesStreamExactly` | `rtp/rtpstack/src/rtpmanager.cpp:1406-1464` | closing a stream removes its entry and nothing else |
| `Registry.ClosesNothingOrAll` | `rtp/rtpstack/src/rtpmanager.cpp:1406-1497` | closing an id nobody has changes nothing; closing all leaves no entry and no session |
| `Registry.CreatesSessionExactly` | `rtp/rtpstack/src/rtpmanager.cpp:360-405` | a new session has the next id and one entry at the end, or without room neither entry nor object |
| `Registry.AddsStreamExactly` | `rtp/rtpstack/src/rtpmanager.cpp:555-618` | a new stream has an entry at the end exactly if the session is found, the stream made and room there, and the entry names the session of the id given; when ids are used up |
| `Registry.KeepsRegistered` | `rtp/rtpstack/src/rtpmanager.cpp:1406-1464` | a call keeps the registry in order exactly if a close call is given an id of its own kind |
| `Registry.SessionClosedAsStream` | `rtp/rtpstack/src/rtpmanager.cpp:1406-1464` | a session created and closed by CloseStreamL: the session object stays, with no entry for it |
| `Registry.StreamClosedAsSession` | `rtp/rtpstack/src/rtpmanager.cpp:1406-1464` | a stream closed by CloseSessionL: the deletion is past the end of the array and stops the thread |
| `Registry.RunKeepsRegistered` | `rtp/rtpstack/src/rtpmanager.cpp:360-618` | no run with ids of the right kind stops the thread, loses a session or leaves an entry for one that is gone, though addresses come back |
| `Registry.LookupIsLive` | `rtp/rtpstack/src/rtpmanager.cpp:1347-1354` | looking up an id never gives a deleted session |
| `RtpLayout.RtpRoundTrip` | `rtp/rtpstack/src/rtppacket.cpp:112-240` | building and parsing gives the packet as it can be received, whatever follows in the buffer, exactly if no CSRC is zero and, with the padding bit set, the last octet is zero and behind the fixed header |
| `RtpLayout.RtpOnTheWire` | `rtp/rtpstack/src/rtppacket.cpp:112-240` | section 5.1 of RFC 3550 field by field, each at its octets in network order, up to extension and payload |
| `RtpLayout.ParsedRebuilds` | `rtp/rtpstack/src/rtppacket.cpp:580-809` | the other round trip: an accepted packet, built again, gives the octets it was parsed from, up to the padding |
| `RtpLayout.AcceptedExactly` | `rtp/rtpstack/src/rtppacket.cpp:580-809` | which packets are accepted: version 2, a padding count that leaves more than a fixed header, a CSRC list that fits and has no zero, an extension that fits |
| `RtpLayout.PaddingBitRefused` | `rtp/rtpstack/src/rtppacket.cpp:580-640` | a packet with the padding bit and the one payload octet 5 is refused |
| `RtpLayout.ZeroSourceRefused` | `rtp/rtpstack/src/rtppacket.cpp:673-739` | so is a packet with a contributing source 0: it does not come back |
| `RtpLayout.SizedReads` | `rtp/rtpstack/src/rtppacket.cpp:634-809` | any cut of a built packet is read as the packet with less payload, or refused |
| `RtpLayout.ExtensionReads` | `rtp/rtpstack/src/rtppacket.cpp:199-232` | an extension comes back with 16 bits of its type, its length in words and its data filled up with zeros |
| `RtpLayout.CsrcsRead` | `rtp/rtpstack/src/rtppacket.cpp:191-196` | the CSRC list comes back, or is refused for a zero |
| `RtpPackets.RtpPacket.BuildRtp` | `rtp/rtpstack/src/rtppacket.cpp:112-240` | for every buffer, what is written is header, CSRCs and extension octets in order and the payload over the octets behind the words counted, or the buffer is overrun; KErrTooBig for a payload type above 127, and a negative word count is the failure |
| `RtpPackets.RtpPacket.PutExtension` | `rtp/rtpstack/src/rtppacket.cpp:199-232` | for every length of the data and every room in the buffer, the extension header with its signed 16-bit word count and the data, a negative count being the failure |
| `RtpPackets.BuiltIsLayout` | `rtp/rtpstack/src/rtppacket.cpp:112-240` | a packet is built inside the buffer exactly if its octets fit; then it is the layout of the packet with its extension cut to the words counted, and up to 0x7FFF words nothing else in the buffer has changed |
| `RtpPackets.SendFits` | `rtp/rtpstack/src/rtpsession.cpp:597-624` | a packet the session sends, whose payload it has compared with the socket's size, stays inside the session's buffer exactly if header, CSRCs, extension and payload together are at most the larger of 8192 and that size |
| `RtpPackets.FullPayloadOverruns` | `rtp/rtpstack/src/rtpsession.cpp:597-624` | the largest payload the session takes does not, from a socket size of 8192 on |
| `RtpPackets.RtpPacket.ProcessCsrcs` | `rtp/rtpstack/src/rtppacket.cpp:673-739` | the CSRC loop |
| `RtpPackets.RtpPacket.ProcessExtension` | `rtp/rtpstack/src/rtppacket.cpp:740-792` | extension checks and copy loop |
| `RtpPackets.RtpPacket.ProcessSized` | `rtp/rtpstack/src/rtppacket.cpp:634-809` | the fields behind the padding check |
| `RtpPackets.RtpPacket.ProcessRtp` | `rtp/rtpstack/src/rtppacket.cpp:580-809` | for every buffer and size the parsed packet and the size without padding, or the error |
| `RtcpLayout.HeaderReads` | `rtp/rtpstack/src/rtppacket.cpp:815-871` | a header written comes back, unless its length exceeds the packet |
| `RtcpLayout.HeaderOnTheWire` | `rtp/rtpstack/src/rtppacket.cpp:247-281` | the section header octet by octet: version and count, type, length, and the SSRC of an RR |
| `RtcpLayout.HeaderAcceptedExactly` | `rtp/rtpstack/src/rtppacket.cpp:815-871` | which headers are accepted, and the type, count and cursor read |
| `RtcpLayout.CountNeedsFiveBits` | `rtp/rtpstack/src/rtppacket.cpp:250-259` | a source count comes back exactly if it is below 32 |
| `RtcpLayout.SrRoundTrip` | `rtp/rtpstack/src/rtppacket.cpp:389-417` | an SR section comes back, the cursor at its end |
| `RtcpLayout.SrOnTheWire` | `rtp/rtpstack/src/rtppacket.cpp:389-417` | the six words of an SR in their order on the wire (section 6.4.1 of RFC 3550) |
| `RtcpLayout.RrRoundTrip` | `rtp/rtpstack/src/rtppacket.cpp:350-382` | a report block comes back with 24 bits of its loss count |
| `RtcpLayout.RrOnTheWire` | `rtp/rtpstack/src/rtppacket.cpp:350-382` | the fields of a report block in their order on the wire, the cumulative loss in 24 bits |
| `RtcpLayout.ByeRoundTrip` | `rtp/rtpstack/src/rtppacket.cpp:313-343` | a BYE comes back; the cursor stops at its end exactly if it was padded to a word |
| `RtcpLayout.ByeOnTheWire` | `rtp/rtpstack/src/rtppacket.cpp:313-343` | SSRC, length, reason and zeros on the wire |
| `RtcpLayout.AppRoundTrip` | `rtp/rtpstack/src/rtppacket.cpp:288-306` | an APP section comes back whole exactly if its data is a whole number of words |
| `RtcpLayout.AppOnTheWire` | `rtp/rtpstack/src/rtppacket.cpp:288-306` | SSRC, name and data on the wire |
| `RtcpLayout.SdesRoundTrip` | `rtp/rtpstack/src/rtppacket.cpp:424-469` | for every subset and size of the eight items an SDES comes back; the cursor stops at its end exactly if it was padded to a word |
| `RtcpLayout.SdesOnTheWire` | `rtp/rtpstack/src/rtppacket.cpp:424-469` | SSRC, then each item that is there with type, length and octets behind those before it, then a zero octet |
| `RtpPackets.RtpPacket.BuildRtcp` | `rtp/rtpstack/src/rtppacket.cpp:247-281` | header octets, cursor and size: written in place, or the buffer is overrun, for every room in it |
| `RtpPackets.RtpPacket.BuildRr` | `rtp/rtpstack/src/rtppacket.cpp:350-382` | the 24 octets of a report block, written in place, or the buffer is overrun, for every room in it |
| `RtpPackets.RtpPacket.BuildSr` | `rtp/rtpstack/src/rtppacket.cpp:389-417` | the 24 octets of an SR, written in place, or the buffer is overrun, for every room in it |
| `RtpPackets.RtpPacket.BuildBye` | `rtp/rtpstack/src/rtppacket.cpp:313-343` | BYE octets and padding, written in place, or the buffer is overrun, for every room in it |
| `RtpPackets.RtpPacket.BuildApp` | `rtp/rtpstack/src/rtppacket.cpp:288-306` | APP octets, written in place, or the buffer is overrun, for every room in it |
| `RtpPackets.RtpPacket.BuildSdes` | `rtp/rtpstack/src/rtppacket.cpp:424-469` | the item loop, the null octet and the padding, written in place, or the buffer is overrun, for every room in it |
| `RtpPackets.RtpPacket.ProcessRtcp` | `rtp/rtpstack/src/rtppacket.cpp:815-871` | header checks in order, and the size after the padding bit, for every size including 0 |
| `RtpPackets.RtpPacket.ProcessSr` | `rtp/rtpstack/src/rtppacket.cpp:1027-1056` | SR fields |
| `RtpPackets.RtpPacket.ProcessRr` | `rtp/rtpstack/src/rtppacket.cpp:988-1021` | report block fields |
| `RtpPackets.RtpPacket.ProcessBye` | `rtp/rtpstack/src/rtppacket.cpp:931-982` | BYE fields and the skipped padding |
| `RtpPackets.RtpPacket.ProcessApp` | `rtp/rtpstack/src/rtppacket.cpp:877-925` | APP fields by the length of the header |
| `RtpPackets.RtpPacket.ProcessSdes` | `rtp/rtpstack/src/rtppacket.cpp:1062-1169` | the item loop, and the skipped padding |
| `RtpPackets.RtpPacket.Finish` | `rtp/rtpstack/src/rtppacket.cpp:1223-1243` | done, more or error by where the cursor stands |
| `RtcpReport.ReportSectionAgrees` | `rtp/rtpstack/src/rtpsession.cpp:1546-1629` | the source count is the number of report blocks written, and the length field the words of the section |
| `RtcpReport.SdesSectionAgrees` | `rtp/rtpstack/src/rtpsession.cpp:1950-1995` | the same for an SDES section with its padding |
| `RtcpReport.ByeSectionAgrees` | `rtp/rtpstack/src/rtptranstream.cpp:302-355` | the same for a BYE |
| `RtcpReport.AppSectionAgrees` | `rtp/rtpstack/src/rtptranstream.cpp:362-394` | an APP section agrees with its header exactly if its data is a whole number of words |
| `RtcpReport.BlocksInOrder` | `rtp/rtpstack/src/rtpsession.cpp:1764-1792` | each stream that has received since it last reported, and no other, has its block in the report, in the order of the streams |
| `RtcpReport.ReportOnTheWire` | `rtp/rtpstack/src/rtpsession.cpp:1546-1629` | count, type and length of the first section, its SSRC (of the transmitting stream whether it has sent or not, or the session's own), the SR, and each block in its place |
| `RtcpReport.SdesNames` | `rtp/rtpstack/src/rtpsession.cpp:1836-1895` | the SDES behind it is in the same name, the CNAME first |
| `RtcpReport.ReportedOnce` | `rtp/rtpstack/src/rtpsession.cpp:1764-1792` | after a report no stream has a block left to report; after a last report all have |
| `RtcpReport.EveryFifthIsFull` | `rtp/rtpstack/src/rtpsession.cpp:1836-1895` | the first report of a session and every fifth after it hold all items, the others the CNAME alone |
| `RtcpReport.Session.ShouldBuildEmptyRR` | `rtp/rtpstack/src/rtpsession.cpp:1516-1539` | exactly when nothing was sent or received |
| `RtcpReport.Session.DetermineSourceCountAndLength` | `rtp/rtpstack/src/rtpsession.cpp:1546-1577` | the loop counts the streams that report |
| `RtcpReport.Session.SetParamsForFullRTCPReport` | `rtp/rtpstack/src/rtpsession.cpp:1585-1629` | the header of the first section |
| `RtcpReport.Session.BuildRrSection` | `rtp/rtpstack/src/rtpsession.cpp:1764-1792` | one block per reporting stream, in order, written or overrunning the buffer, and the flags cleared unless it is the last report |
| `RtcpReport.Session.BuildReportSection` | `rtp/rtpstack/src/rtpsession.cpp:1705-1728` | the first section, or the empty RR, in any buffer |
| `RtcpReport.Session.MeasureSdes` | `rtp/rtpstack/src/rtpsession.cpp:1950-1978` | number and octets of the items to send |
| `RtcpReport.Session.CreateSDES` | `rtp/rtpstack/src/rtpsession.cpp:1929-2040` | the SDES section with length and padding, in any buffer |
| `RtcpReport.Session.BuildSdesSection` | `rtp/rtpstack/src/rtpsession.cpp:1836-1895` | all items in every fifth report, the CNAME alone in the others |
| `RtcpReport.Session.BuildRTCPReport` | `rtp/rtpstack/src/rtpsession.cpp:1636-1733` | for any streams and items, with cursor and size equal, the compound report is in the session's packet whole exactly if its size, computed from the streams and items before the call, is at most 1024 octets, and otherwise the packet is overrun; more than 128 receiving streams overrun the flags; the errors |
| `RtcpReport.Session.BuildByePacket` | `rtp/rtpstack/src/rtpsession.cpp:779-818` | report and BYE are in the packet whole exactly if report size and BYE size together are at most 1024 octets; a reason of 255 octets and more is refused |
| `RtcpReport.Session.BuildAppPacket` | `rtp/rtpstack/src/rtpsession.cpp:828-868` | report and APP are in the packet whole exactly if report size, 12 and the octets of data together are at most 1024; data of 512 octets and more is refused |
| `RtcpReport.CompoundSize` | `rtp/rtpstack/src/rtpsession.cpp:1546-1629` | the octets of a report follow from the number of reporting streams, from whether an SR is due, and from the items chosen |
| `RtcpReport.ReportFits` | `rtp/rtpstack/src/rtpsession.cpp:132` | so a report is written inside the 1024 octets, and whole, exactly if that number is at most 1024 |
| `RtcpReport.FortyTwoBlocksOverrun` | `rtp/rtpstack/src/rtpsession.cpp:1764-1792` | from 42 reporting streams on no report fits, whatever the items |
| `RtcpReport.ThirtyOneBlocksOverrun` | `rtp/rtpstack/src/rtpsession.cpp:1764-1792` | an SR with 31 blocks and a CNAME of 255 octets has 1040 |
| `RtcpReport.LongItemsOverrun` | `rtp/rtpstack/src/rtpsession.cpp:1929-2040` | an SR without blocks and eight items of 122 octets have 1032 |
| `RtcpReport.Session.BuildBye` | `rtp/rtpstack/src/rtptranstream.cpp:302-355` | a BYE behind a report, in any buffer, keeps cursor and size equal |
| `RtcpReport.Session.BuildApp` | `rtp/rtpstack/src/rtptranstream.cpp:362-394` | an APP of any subtype behind a report, in any buffer, does so exactly for whole words of data |
| `RtcpCompound.Section` | `rtp/rtpstack/src/rtpsession.cpp:2047-2140` | a section that goes on leaves the cursor inside the packet and not before where it was |
| `RtcpCompound.RrBlocks` | `rtp/rtpstack/src/rtpsession.cpp:2321-2386` | reading on moves the cursor by 24 octets for each block and stays inside the packet |
| `RtcpCompound.AcceptedLengthsAddUp` | `rtp/rtpstack/src/rtpsession.cpp:2147-2253` | in both ways of being accepted the lengths of all sections add up to the size if octets follow the last header and it is not a BYE or APP of a known receiving stream; otherwise any other lengths before would have been accepted too |
| `RtcpCompound.BareHeaderAccepted` | `rtp/rtpstack/src/rtpsession.cpp:2178-2185` | reading that ends right behind a header is accepted without that check |
| `RtcpCompound.ByeAcceptedUnchecked` | `rtp/rtpstack/src/rtpsession.cpp:2216-2219` | a packet of 20 octets whose lengths add up to 12 is accepted, and its BYE handed on |
| `RtcpCompound.BeginsWithReport` | `rtp/rtpstack/src/rtpsession.cpp:2188-2196` | a packet that begins with neither SR nor RR is refused with nothing handed on, unless it is a bare header |
| `RtcpCompound.PaddedFirstSectionAccepted` | `rtp/rtpstack/src/rtpsession.cpp:2198-2209` | the check on the padding bit of the first section never fires: a padded RR is accepted |
| `RtcpCompound.BlocksRead` | `rtp/rtpstack/src/rtpsession.cpp:2321-2386` | blocks written are heard one by one up to the first that is not about an own stream |
| `RtcpCompound.ReportSectionHeard` | `rtp/rtpstack/src/rtpsession.cpp:2047-2140` | what is heard of the first section of a built report |
| `RtcpCompound.ReportIsHeard` | `rtp/rtpstack/src/rtpsession.cpp:2147-2253` | a built report with at most 31 blocks is accepted exactly if the receiver knows the streams in it, and then everything put in is parsed and handed on, in order |
| `RtcpCompound.ReportWithByeIsHeard` | `rtp/rtpstack/src/rtpsession.cpp:2147-2253` | a built report with a BYE behind it ends the reading as a receiving stream's exactly if the report is heeded and the BYE names a receiving stream, and then all of it is parsed and handed on, the BYE last; how a BYE of an unknown stream ends |
| `RtcpCompound.ReportWithAppIsHeard` | `rtp/rtpstack/src/rtpsession.cpp:2761-2824` | a built report with an APP of whole words behind it: all of it is parsed and handed on exactly if the report is heeded, the APP names a receiving stream and has at most 512 octets of data; with more the receiver writes outside its array |
| `RtcpCompound.Receiver.ProcessRRSectionL` | `rtp/rtpstack/src/rtpsession.cpp:2321-2386` | the loop over the blocks |
| `RtcpCompound.Receiver.ProcessSRSectionL` | `rtp/rtpstack/src/rtpsession.cpp:2260-2314` | the SR, then its blocks |
| `RtcpCompound.Receiver.ProcessSDESSectionL` | `rtp/rtpstack/src/rtpsession.cpp:2633-2669` | the SDES parsed, and the stream it is handed to |
| `RtcpCompound.Receiver.ProcessByeOrApp` | `rtp/rtpstack/src/rtpsession.cpp:2676-2824` | BYE and APP end the reading for a known receiving stream; APP data of more than 512 octets overruns the receiver's array |
| `RtcpCompound.Receiver.ProcessOneRTCPReportSectionL` | `rtp/rtpstack/src/rtpsession.cpp:2047-2140` | one section by its type |
| `RtcpCompound.Receiver.ProcessRTCPReportL` | `rtp/rtpstack/src/rtpsession.cpp:2147-2253` | the loop ends on every buffer and every datagram, the empty one included, and computes the verdict and what is handed on |
| `Octets.Read16Write16` | `rtp/rtpstack/src/rtppacket.cpp:1251-1267` | a 16-bit field reads back anywhere in a packet |
| `Octets.Read24Write24` | `rtp/rtpstack/src/rtppacket.cpp:1302-1318` | a 24-bit field keeps the low 24 bits |
| `Octets.Read32Write32` | `rtp/rtpstack/src/rtppacket.cpp:1275-1295` | a 32-bit field reads back |

## Left out

- AES, HMAC-SHA1 and key derivation: the block cipher and the hash are function parameters of fixed output length, and the key derivation rate is 0, so session keys do not change within a run. Re-keying ends a run: the observer callbacks that install new master keys are not modelled.
- The ROC-carrying authentication modes, beyond the payload lengths (`SrtpPacket.PayloadLengthsAgree`): the two sides do not agree on index and tag there.
- The packet counters against the key's life time are unbounded numbers; in the code they have 64 bits.
- The hexadecimal digits that CountIV and the ROC code print are modelled as their values, not as characters.
- SrtpHandler.CryptoHandlerSrtp.DoUnprotectSrtpL: states nothing for highest indices of 2^31 - 2^15 and more, where the signed product of the receiver overflows (`Rollover.ReceiverIndexExact` says when).
- SrtcpHandler.CryptoHandlerSrtcp.DoUnprotectSrtcpL: reading behind the end of a short packet, and negating the smallest TInt (a packet without the E bit can bring that about), are undefined in C++ and outcomes of their own (`Panic`).
- SrtcpHandler.DeliveredExactlyWhatWasSent: the network puts no packets in; `SrtcpInjection` is about those that do.
- SrtcpInjection.OnlyWhatWasSent: the network puts in only octets the receiver does not accept; that tags cannot be guessed is an assumption on HMAC-SHA1. A run goes on after a `Panic`, which leaves map and log alone.
- SrtpProtocol.AcceptedExactlyWhenNew: the network delivers indices within 2^15 of the receiver's highest, which the index estimation needs; a first packet belongs to ROC 0.
- SrtpInjection.OnlyWhatWasSent: the network puts in only octets the receiver does not accept; that tags cannot be guessed is an assumption on HMAC-SHA1, and with null authentication it excludes altered packets that are accepted.
- Reception.LossAccounting: runs have no statistics reset, and a report made once received exceeds expected is stated in 32-bit words only (`Reception.RecvStream.LossFigures`). Jitter, bandwidth estimates and the ring of octet counts are left out: heuristics without a sharp specification; jitter is a parameter of the report.
- TranStream.TranStream.BuildRtpPacket: gives the numbering of the packet; its octets are `RtpPackets.RtpPacket.BuildRtp`.
- RtpPackets.RtpPacket.BuildRtp: padding and marker are single bits, and extension data is present when it has a length. Writing behind the end of the buffer and filling zeros in for a negative word count, undefined in the code, are outcomes of their own (`Overrun`, `Panic`); what becomes of the memory behind the buffer is not modelled.
- RtpPackets.RtpPacket.ProcessRtp: reading outside the buffer, undefined in the code, is an outcome of its own.
- RtcpCompound.Walk: reading behind the end of the buffer, undefined in the code, is an outcome of its own (`Outside`); which streams match an SSRC, and the stream type left over when none does, are parameters. SDES bookkeeping, SSRC collisions and what observers do are left out.
- RtcpCompound.ReportIsHeard: what is parsed is handed on to the stream; what the stream makes of it for the observer is not modelled. For an SDES that brings no news the observer gets an empty one, and of an SR it gets SSRC and time stamps only.
- RtcpReport.Session.BuildRTCPReport: SDES items have at most 255 octets, the size of the buffers the session keeps them in (`ipappprotocols_plat/rtprtcp_api/inc/rtpdef.h:34`); what each stream would report is a value taken from `Reception` and `TranStream`.
- SendQueue.SocketOrder: the list of the code is a sequence; the socket's answers are events, in any order and with any error.
- Registry.RunKeepsRegistered: runs of fewer than 2^32 calls, after which ids wrap. A session's own bookkeeping of its streams is left out.
- Sockets, connections, timers, the active scheduler, logging, address resolution, the randomised RTCP interval, the STP packet format, the forwarding calls of the public API, and memory failures other than those the send queue and the registry report.
