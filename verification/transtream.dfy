/**
 The numbering of a transmission stream (rtptranstream.cpp): sequence numbers and cycles, the
 packet count of sender reports, and the packet index SRTP derives from them.
 */
module TranStream {
  import opened Machine
  import NtpClock
  import Reception
  import Rollover

  const KGetTimeOfDayToNTPOffset: u32 := 2208988800

  /** What the stream would hold without machine widths: the extended number of the next packet. */
  datatype Sending = Sending(base: u16, next: nat, octets: nat)

  /** An explicit number replaces the low 16 bits of the next one. */
  function Renumbered(next: nat, explicit: bool, number: u16): nat {
    if explicit then next / 0x1_0000 * 0x1_0000 + number else next
  }

  function Built(s: Sending, explicit: bool, number: u16, payload: nat): Sending {
    s.(next := Renumbered(s.next, explicit, number) + 1, octets := s.octets + payload)
  }

  datatype SenderReport = SenderReport(
    ssrc: u32, ntpSec: u32, ntpFrac: u32, timeStamp: u32, numPacketsSent: u32, cumNumOctetsSent: u32)

  class TranStream {
    var iFlagFirstPkg: bool
    var iFlagSentRTPPackets: bool
    var iLocalSSRC: u32
    var iTimeStamp: u32
    var iBaseSeqNum: u16
    var iSeqNum: u16
    var iSeqNumCycles: u16
    var iCumNumOctetsSent: u32
    var iSyncInfo: NtpClock.SyncInfo

    ghost predicate Represents(s: Sending)
      reads this
    {
      && iBaseSeqNum == s.base
      && iSeqNum == ToU16(s.next)
      && iSeqNumCycles == ToU16(s.next / 0x1_0000)
      && iCumNumOctetsSent == ToU32(s.octets)
    }

    /** base is the random first number. */
    constructor (ssrc: u32, base: u16)
      ensures Represents(Sending(base, base, 0))
      ensures iFlagFirstPkg && !iFlagSentRTPPackets && iLocalSSRC == ssrc
    {
      iFlagFirstPkg, iFlagSentRTPPackets := true, false;
      iLocalSSRC, iTimeStamp := ssrc, 0;
      iBaseSeqNum, iSeqNum, iSeqNumCycles := base, base, 0;
      iCumNumOctetsSent := 0;
      iSyncInfo := NtpClock.SyncInfo(0, 0, 0);
    }

    /** seconds since 1970 and local time come from the system's clocks. */
    method SyncInit(seconds: u32, now: u32)
      modifies this`iSyncInfo
      ensures NtpClock.Fixed(now % 10000) < 0x1_0000
      ensures iSyncInfo == NtpClock.SyncInfo(
                ToU32(seconds + KGetTimeOfDayToNTPOffset), NtpClock.Fixed(now % 10000) * 0x1_0000, now)
    {
      var part := ToU32(now % NtpClock.KTenthOfmsPerSecond * 0x1_0000);
      assert part == now % 10000 * 0x1_0000;
      iSyncInfo := NtpClock.SyncInfo(
        ToU32(seconds + KGetTimeOfDayToNTPOffset), ToU32(part / NtpClock.KTenthOfmsPerSecond * 0x1_0000), now);
    }

    /** BuildRtpPacket: the sequence number the packet gets, and what the stream keeps of it. */
    method BuildRtpPacket(
        timeStamp: u32, payload: nat, number: u16, explicit: bool, seconds: u32, now: u32, ghost s: Sending)
      returns (seqNum: u16)
      requires Represents(s)
      modifies this
      ensures seqNum == ToU16(Renumbered(s.next, explicit, number))
      ensures Represents(Built(s, explicit, number, payload))
      ensures !iFlagFirstPkg && iFlagSentRTPPackets && iTimeStamp == timeStamp
      ensures iLocalSSRC == old(iLocalSSRC)
      ensures !old(iFlagFirstPkg) ==> iSyncInfo == old(iSyncInfo)
      ensures old(iFlagFirstPkg) ==>
                iSyncInfo == NtpClock.SyncInfo(
                  ToU32(seconds + KGetTimeOfDayToNTPOffset), NtpClock.Fixed(now % 10000) * 0x1_0000, now)
    {
      hide NtpClock.Fixed, Renumbered;
      RenumberedInWords(s.next, explicit, number);
      if iFlagFirstPkg {
        SyncInit(seconds, now);
        iFlagFirstPkg := false;
      }
      if explicit {
        iSeqNum := number;
      }
      seqNum := iSeqNum;
      Reception.LowWord(s.octets, payload);
      iCumNumOctetsSent := ToU32(iCumNumOctetsSent + payload);
      iTimeStamp := timeStamp;
      NextInWords(Renumbered(s.next, explicit, number));
      iSeqNum := ToU16(iSeqNum + 1);
      if iSeqNum == 0 {
        iSeqNumCycles := ToU16(iSeqNumCycles + 1);
      }
      iFlagSentRTPPackets := true;
    }

    /** RtpStreamCreateRtcpReportSection, without the copies for the application. */
    method CreateReport(now: u32, ghost s: Sending) returns (report: SenderReport)
      requires Represents(s)
      ensures report.ssrc == iLocalSSRC && report.timeStamp == iTimeStamp
      ensures (report.ntpSec, report.ntpFrac) == NtpClock.SyncCurrent(iSyncInfo, now)
      ensures report.numPacketsSent == ToU32(s.next - s.base)
      ensures report.cumNumOctetsSent == ToU32(s.octets)
    {
      hide NtpClock.SyncCurrent, ToU16, ToU32;
      Reception.ExtendedInWords(s.next);
      Reception.LowWord(s.next, -(s.base as int));
      Reception.LowWord(iSeqNum + ToU32(iSeqNumCycles as int * 0x1_0000), -(iBaseSeqNum as int));
      var numPacketsSent := ToU32(iSeqNum + ToU32(iSeqNumCycles as int * 0x1_0000) - iBaseSeqNum);
      var (sec, frac) := NtpClock.SyncCurrent(iSyncInfo, now);
      report := SenderReport(iLocalSSRC, sec, frac, iTimeStamp, numPacketsSent, iCumNumOctetsSent);
    }
  }

  lemma RenumberedInWords(next: nat, explicit: bool, number: u16)
    ensures ToU16(Renumbered(next, explicit, number)) == if explicit then number else ToU16(next)
    ensures ToU16(Renumbered(next, explicit, number) / 0x1_0000) == ToU16(next / 0x1_0000)
  {
  }

  lemma NextInWords(n: nat)
    ensures ToU16(n + 1) == ToU16(ToU16(n) + 1)
    ensures ToU16((n + 1) / 0x1_0000) ==
            if ToU16(n + 1) == 0 then ToU16(ToU16(n / 0x1_0000) + 1) else ToU16(n / 0x1_0000)
  {
  }

  // ----- Runs -----

  /** A packet to build, with so many octets of payload: numbered automatically or by the application. */
  datatype Build = Automatic(payload: nat) | Explicit(payload: nat, number: u16)
  {
    /** The number the application gives, if any. */
    function Number(): u16 { if Explicit? then number else 0 }
  }

  /** The stream after a run of BuildRtpPacket calls, from the state its constructor leaves. */
  function AllBuilt(base: u16, builds: seq<Build>): Sending {
    if builds == [] then Sending(base, base, 0)
    else
      var s, last := AllBuilt(base, builds[..|builds| - 1]), builds[|builds| - 1];
      Built(s, last.Explicit?, last.Number(), last.payload)
  }

  /** The extended number of the next packet. */
  function Next(base: u16, builds: seq<Build>): nat { AllBuilt(base, builds).next }

  /** The sequence numbers BuildRtpPacket gave the packets. */
  function Sequences(base: u16, builds: seq<Build>): (r: seq<u16>)
    ensures |r| == |builds|
  {
    if builds == [] then []
    else
      var before, last := builds[..|builds| - 1], builds[|builds| - 1];
      Sequences(base, before) + [ToU16(Renumbered(Next(base, before), last.Explicit?, last.Number()))]
  }

  function Payloads(builds: seq<Build>): nat {
    if builds == [] then 0 else Payloads(builds[..|builds| - 1]) + builds[|builds| - 1].payload
  }

  /** The packets behind an automatic one are numbered from it: with explicit numbers or without, each number but
      an explicit one is one more than the one before. */
  lemma NumberFollows(base: u16, builds: seq<Build>)
    requires builds != []
    ensures var before, last := builds[..|builds| - 1], builds[|builds| - 1];
            && AllBuilt(base, builds).base == AllBuilt(base, before).base
            && Next(base, builds) == (if last.Automatic? then Next(base, before)
                                      else Next(base, before) / 0x1_0000 * 0x1_0000 + last.number) + 1
            && ToU16(Next(base, builds)) == ToU16(Sequences(base, builds)[|before|] as int + 1)
  {
  }

  /** The octet count of a sender report is the sum of the payloads, whatever the numbering. */
  lemma {:induction false} OctetsAddUp(base: u16, builds: seq<Build>)
    ensures AllBuilt(base, builds).octets == Payloads(builds) && AllBuilt(base, builds).base == base
  {
    if builds != [] {
      OctetsAddUp(base, builds[..|builds| - 1]);
    }
  }

  /** Explicit numbers, if any, are the ones automatic numbering would give. */
  predicate AsAutomatic(base: u16, builds: seq<Build>) {
    forall k | 0 <= k < |builds| :: builds[k].Explicit? ==> builds[k].number == ToU16(base + k)
  }

  /** The packet count of an SR made after the first n packets is right. */
  predicate CountsRight(base: u16, builds: seq<Build>, n: nat)
    requires n <= |builds|
  {
    ToU32(Next(base, builds[..n]) - base) == ToU32(n)
  }

  /** Automatic numbering counts up across every wrap: packet n gets base + n, and the state is the base, the
      number of packets and the sum of their payloads. */
  lemma {:induction false} NumbersCountUp(base: u16, builds: seq<Build>)
    requires AsAutomatic(base, builds)
    ensures AllBuilt(base, builds) == Sending(base, base + |builds|, Payloads(builds))
    ensures forall n | 0 <= n < |builds| :: Sequences(base, builds)[n] == ToU16(base + n)
  {
    if builds != [] {
      NumbersCountUp(base, builds[..|builds| - 1]);
    }
  }

  lemma OneNumberOff(base: u16, n: nat, number: u16)
    ensures ToU32(Renumbered(base + n, true, number) + 1 - base) == ToU32(n + 1) <==> number == ToU16(base + n)
  {
    var d := number - ToU16(base + n);
    assert Renumbered(base + n, true, number) + 1 - base == n + 1 + d;
    assert d != 0 ==> (n + 1 + d) % 0x1_0000_0000 != (n + 1) % 0x1_0000_0000 by {
      var a, b := (n + 1 + d) / 0x1_0000_0000, (n + 1) / 0x1_0000_0000;
      assert d == (a - b) * 0x1_0000_0000 + (n + 1 + d) % 0x1_0000_0000 - (n + 1) % 0x1_0000_0000;
    }
  }

  /**
   The SR packet count is right, modulo 2^32, after every packet of a run exactly if the explicit
   numbers agree with automatic numbering.  An explicit first number is the usual way to break it:
   the base stays the random one.
   */
  lemma {:induction false} PacketCountExact(base: u16, builds: seq<Build>)
    ensures (forall n | 0 <= n <= |builds| :: CountsRight(base, builds, n)) <==> AsAutomatic(base, builds)
  {
    assert Next(base, []) == base;
    hide Next, ToU32;
    if builds == [] {
      assert builds[..0] == [];
      assert CountsRight(base, builds, 0);
    } else {
      var before, last := builds[..|builds| - 1], builds[|builds| - 1];
      PacketCountExact(base, before);
      forall n | 0 <= n <= |before| ensures CountsRight(base, builds, n) == CountsRight(base, before, n) {
        assert builds[..n] == before[..n];
      }
      assert AsAutomatic(base, builds) ==> AsAutomatic(base, before);
      if AsAutomatic(base, before) {
        NumbersCountUp(base, before);
        LastCount(base, builds);
        assert builds[..|builds|] == builds;
        assert CountsRight(base, builds, |builds|) <==> AsAutomatic(base, builds);
      } else {
        var n :| 0 <= n <= |before| && !CountsRight(base, before, n);
        assert !CountsRight(base, builds, n);
      }
    }
  }

  /** One packet numbered by the application, 999 above the base: the report counts 1000 packets. */
  lemma ExplicitNumberMiscounts()
    ensures var builds := [Explicit(160, 1000)];
            && !AsAutomatic(1, builds) && !CountsRight(1, builds, 1)
            && ToU32(Next(1, builds) - 1) == 1000
  {
    var builds := [Explicit(160, 1000)];
    assert builds[0] == Explicit(160, 1000);
    assert builds[..0] == [] && builds[..1] == builds;
    assert Renumbered(1, true, 1000) == 1000;
  }

  lemma LastCount(base: u16, builds: seq<Build>)
    requires builds != []
    requires Next(base, builds[..|builds| - 1]) == base + |builds| - 1
    ensures var last := builds[|builds| - 1];
            ToU32(Next(base, builds) - base) == ToU32(|builds|) <==>
            (last.Explicit? ==> last.number == ToU16(base + |builds| - 1))
  {
    assert Renumbered(base + |builds| - 1, false, 0) == base + |builds| - 1;
    hide ToU32, ToU16, Renumbered;
    var last := builds[|builds| - 1];
    if last.Explicit? {
      OneNumberOff(base, |builds| - 1, last.number);
    }
  }

  // ----- The SRTP sender on top of it -----

  /** The roll-over counter after packets with these sequence numbers were protected. */
  function RocAfter(roc: u32, sequences: seq<u16>): u32 {
    if sequences == [] then roc
    else
      var before := RocAfter(roc, sequences[..|sequences| - 1]);
      Rollover.RocBehind(before, sequences[|sequences| - 1])
  }

  lemma RocStep(roc: u32, n: nat)
    ensures ToU16(n + 1) == if ToU16(n) == 0xFFFF then 0 else ToU16(n) + 1
    ensures roc < 0xFFFF_FFFF ==> ToU32(roc + 1) == roc + 1
  {
  }

  /** Counter and sequence number together count the packets: no 48-bit index comes twice. */
  lemma {:induction false} IndexCountsUp(roc: u32, base: u16, builds: seq<Build>)
    requires AsAutomatic(base, builds)
    requires roc as int * 0x1_0000 + base + |builds| < 0x1_0000_0000_0000
    ensures RocAfter(roc, Sequences(base, builds)) as int * 0x1_0000 + ToU16(base + |builds|)
            == roc as int * 0x1_0000 + base + |builds|
  {
    hide Next;
    if builds != [] {
      var before := builds[..|builds| - 1];
      IndexCountsUp(roc, base, before);
      NumbersCountUp(base, builds);
      var sequences := Sequences(base, builds);
      assert sequences[..|sequences| - 1] == Sequences(base, before);
      assert sequences[|sequences| - 1] == ToU16(base + |before|);
      RocStep(RocAfter(roc, Sequences(base, before)), base + |before|);
    } else {
      assert ToU16(base) == base;
    }
  }

  /**
   The index SRTP protects packet n with is the first index plus n, across every wrap of the
   sequence number, as long as the roll-over counter stays below 2^16.
   */
  lemma SenderContinuity(roc: u32, base: u16, builds: seq<Build>, n: nat)
    requires AsAutomatic(base, builds) && n < |builds|
    requires roc as int * 0x1_0000 + base + n < 0x1_0000_0000
    ensures var sequences := Sequences(base, builds);
            Rollover.SenderIndex(RocAfter(roc, sequences[..n]), sequences[n])
            == Rollover.SenderIndex(roc, base) + n
  {
    hide Rollover.SenderIndex, ToU16;
    var before := builds[..n];
    SequencesOfPrefix(base, builds, n);
    NumbersCountUp(base, builds);
    IndexCountsUp(roc, base, before);
    var now := RocAfter(roc, Sequences(base, before));
    Rollover.SenderIndexExact(now, ToU16(base + n));
    Rollover.SenderIndexExact(roc, base);
  }

  lemma {:induction false} SequencesOfPrefix(base: u16, builds: seq<Build>, n: nat)
    requires n <= |builds|
    ensures Sequences(base, builds)[..n] == Sequences(base, builds[..n])
    decreases |builds|
  {
    if n < |builds| {
      SequencesOfPrefix(base, builds[..|builds| - 1], n);
      assert builds[..|builds| - 1][..n] == builds[..n];
    } else {
      assert builds[..n] == builds;
    }
  }
}
